/**
 Dining philosophers with a footman: any number of threads, one semaphore per fork, and a
 semaphore that admits all philosophers but one to the table.  A run is a sequence of
 atomic semaphore operations in any order the semaphores allow.
 */
module Philosophers {
  import Arithmetic

  const ROUNDS: int := 3

  /**
   The values of the semaphores, and for each philosopher its next operation and the loop
   variable of its thread.  Operations 0 to 2 wait for the footman, the own fork and the next
   one; 3 to 5 post the own fork, the next one and the footman.
   */
  datatype State = State(lock: int, forks: seq<int>, pc: seq<int>, round: seq<int>)

  /** (pos + 1) % count */
  function Next(p: int, n: int): (q: int)
    requires 0 <= p < n
    ensures q == if p + 1 < n then p + 1 else 0
  {
    var wraps := if p + 1 < n then 0 else 1;
    Arithmetic.ModIs(p + 1, n, wraps, p + 1 - n * wraps);
    (p + 1) % n
  }

  ghost predicate Shaped(s: State, n: int) {
    && 1 <= n && |s.forks| == |s.pc| == |s.round| == n
    && (forall p :: 0 <= p < n ==> 0 <= s.pc[p] < 6 && 0 <= s.round[p] <= ROUNDS)
    && (forall p :: 0 <= p < n && s.round[p] == ROUNDS ==> s.pc[p] == 0)
  }

  /** What init and run set up. */
  function Start(n: int): (s: State)
    requires 1 <= n
    ensures Shaped(s, n)
  {
    State(n - 1, seq(n, _ => 1), seq(n, _ => 0), seq(n, _ => 0))
  }

  /** Everyone has eaten three times and every semaphore is back at its initial value. */
  function Finish(n: int): (s: State)
    requires 1 <= n
    ensures Shaped(s, n)
  {
    State(n - 1, seq(n, _ => 1), seq(n, _ => 0), seq(n, _ => ROUNDS))
  }

  lemma FinishIs(n: int)
    requires 1 <= n
    ensures Finish(n).lock == n - 1
    ensures forall p :: 0 <= p < n ==> Finish(n).forks[p] == 1 && Finish(n).round[p] == 3 && Finish(n).pc[p] == 0
  {
  }

  /** Philosopher p has an operation left that does not block. */
  predicate CanStep(s: State, n: int, p: int)
    requires |s.forks| == |s.pc| == |s.round| == n
  {
    && 0 <= p < n && s.round[p] < ROUNDS
    && (s.pc[p] == 0 ==> s.lock > 0)
    && (s.pc[p] == 1 ==> s.forks[p] > 0)
    && (s.pc[p] == 2 ==> s.forks[Next(p, n)] > 0)
  }

  function Step(s: State, n: int, p: int): State
    requires |s.forks| == |s.pc| == |s.round| == n && 0 <= p < n
  {
    var q := Next(p, n);
    match s.pc[p]
    case 0 => s.(lock := s.lock - 1, pc := s.pc[p := 1])
    case 1 => s.(forks := s.forks[p := s.forks[p] - 1], pc := s.pc[p := 2])
    case 2 => s.(forks := s.forks[q := s.forks[q] - 1], pc := s.pc[p := 3])
    case 3 => s.(forks := s.forks[p := s.forks[p] + 1], pc := s.pc[p := 4])
    case 4 => s.(forks := s.forks[q := s.forks[q] + 1], pc := s.pc[p := 5])
    case _ => s.(lock := s.lock + 1, pc := s.pc[p := 0], round := s.round[p := s.round[p] + 1])
  }

  /** The fork that operation i of philosopher p is about, if it is about one: the own one, then the next, twice. */
  ghost predicate OnFork(i: int, p: int, j: int, n: int) {
    (i in {1, 3} && j == p) || (i in {2, 4} && j == if p == n - 1 then 0 else p + 1)
  }

  /**
   One operation in numbers.  Operations 0 to 2 take one from a semaphore that is not zero, 3 to 5 give one back;
   0 and 5 are on the footman.  After the last one the next of the three rounds begins.
   */
  ghost predicate Operated(s: State, t: State, n: int, p: int) {
    && |s.forks| == |s.pc| == |s.round| == |t.forks| == |t.pc| == |t.round| == n && 0 <= p < n
    && var i := s.pc[p]; var change := if i <= 2 then -1 else 1;
    && 0 <= i <= 5 && t.pc == s.pc[p := if i == 5 then 0 else i + 1]
    && s.round[p] < 3 && t.round == s.round[p := if i == 5 then s.round[p] + 1 else s.round[p]]
    && t.lock == (if i == 0 || i == 5 then s.lock + change else s.lock) && (i == 0 ==> s.lock > 0)
    && forall j :: 0 <= j < n ==>
         && t.forks[j] == (if OnFork(i, p, j, n) then s.forks[j] + change else s.forks[j])
         && (i <= 2 && OnFork(i, p, j, n) ==> s.forks[j] > 0)
  }

  /** An operation blocks only if it takes from a semaphore that is zero. */
  lemma CanStepIff(s: State, n: int, p: int)
    requires Shaped(s, n) && 0 <= p < n
    ensures CanStep(s, n, p) <==>
              && s.round[p] < 3 && (s.pc[p] == 0 ==> s.lock > 0)
              && forall j :: 0 <= j < n && s.pc[p] <= 2 && OnFork(s.pc[p], p, j, n) ==> s.forks[j] > 0
  {
    var q := Next(p, n);
    assert s.pc[p] == 1 ==> OnFork(1, p, p, n);
    assert s.pc[p] == 2 ==> OnFork(2, p, q, n);
  }

  lemma StepOperates(s: State, n: int, p: int)
    requires Shaped(s, n) && CanStep(s, n, p)
    ensures Operated(s, Step(s, n, p), n, p)
  {
  }

  /** Both forks are held: between the last wait and the first post. */
  predicate Eats(s: State, p: int)
    requires 0 <= p < |s.pc|
  {
    s.pc[p] == 3
  }

  // ---------------------------------------------------------------- the invariant

  function HoldsOwn(pc: int): int {
    if pc == 2 || pc == 3 then 1 else 0
  }

  function HoldsNext(pc: int): int {
    if pc == 3 || pc == 4 then 1 else 0
  }

  function Before(j: int, n: int): (p: int)
    requires 0 <= j < n
    ensures 0 <= p < n && Next(p, n) == j
  {
    if j == 0 then n - 1 else j - 1
  }

  function AtTable(pc: int): int {
    if pc == 0 then 0 else 1
  }

  /** The number of philosophers admitted to the table. */
  function Admitted(pc: seq<int>): int {
    if |pc| == 0 then 0 else Admitted(pc[..|pc| - 1]) + AtTable(pc[|pc| - 1])
  }

  /** Each fork is free or held by exactly one of its two neighbours. */
  ghost predicate ForkOk(s: State, n: int, j: int)
    requires Shaped(s, n) && 0 <= j < n
  {
    0 <= s.forks[j] && s.forks[j] + HoldsOwn(s.pc[j]) + HoldsNext(s.pc[Before(j, n)]) == 1
  }

  ghost predicate Inv(s: State, n: int) {
    && 2 <= n && Shaped(s, n)
    && 0 <= s.lock && s.lock + Admitted(s.pc) == n - 1
    && forall j :: 0 <= j < n ==> ForkOk(s, n, j)
  }

  lemma {:induction false} AdmittedUpdate(pc: seq<int>, p: int, v: int)
    requires 0 <= p < |pc|
    ensures Admitted(pc[p := v]) == Admitted(pc) - AtTable(pc[p]) + AtTable(v)
    decreases |pc|
  {
    var last := |pc| - 1;
    if p < last {
      assert pc[p := v][..last] == pc[..last][p := v];
      AdmittedUpdate(pc[..last], p, v);
    } else {
      assert pc[p := v][..last] == pc[..last];
    }
  }

  lemma {:induction false} AdmittedSame(pc: seq<int>, v: int)
    requires forall p :: 0 <= p < |pc| ==> AtTable(pc[p]) == v
    ensures Admitted(pc) == v * |pc|
    decreases |pc|
  {
    if |pc| > 0 {
      AdmittedSame(pc[..|pc| - 1], v);
    }
  }

  lemma StartOk(n: int)
    requires 2 <= n
    ensures Inv(Start(n), n)
  {
    AdmittedSame(Start(n).pc, 0);
  }

  /** The operations on the two forks: the fork and its holders still add up to one. */
  lemma ForkStep(s: State, n: int, p: int, j: int)
    requires Shaped(s, n) && CanStep(s, n, p) && 0 <= j < n && ForkOk(s, n, j)
    ensures Shaped(Step(s, n, p), n) && ForkOk(Step(s, n, p), n, j)
  {
    ShapedStep(s, n, p);
    var t, b := Step(s, n, p), Before(j, n);
    if p != j && p != b {
      assert t.forks[j] == s.forks[j] && t.pc[j] == s.pc[j] && t.pc[b] == s.pc[b];
    }
  }

  /** The operations on the footman: its value and the philosophers it has admitted still add up to n - 1. */
  lemma LockStep(s: State, n: int, p: int)
    requires Shaped(s, n) && CanStep(s, n, p) && 0 <= s.lock && s.lock + Admitted(s.pc) == n - 1
    ensures 0 <= Step(s, n, p).lock && Step(s, n, p).lock + Admitted(Step(s, n, p).pc) == n - 1
  {
    hide Admitted;
    AdmittedUpdate(s.pc, p, Step(s, n, p).pc[p]);
  }

  lemma ShapedStep(s: State, n: int, p: int)
    requires Shaped(s, n) && CanStep(s, n, p)
    ensures Shaped(Step(s, n, p), n)
  {
  }

  lemma StepKeepsInv(s: State, n: int, p: int)
    requires Inv(s, n) && CanStep(s, n, p)
    ensures Inv(Step(s, n, p), n)
  {
    hide Step, ForkOk, Admitted;
    ShapedStep(s, n, p);
    LockStep(s, n, p);
    forall j | 0 <= j < n ensures ForkOk(Step(s, n, p), n, j) {
      ForkStep(s, n, p, j);
    }
  }

  lemma ForkNotShared(s: State, n: int, p: int)
    requires Inv(s, n) && 0 <= p < n
    ensures !(Eats(s, p) && Eats(s, Next(p, n)))
  {
    assert ForkOk(s, n, Next(p, n));
  }

  // ---------------------------------------------------------------- no deadlock

  ghost predicate Stuck(s: State, n: int)
    requires Shaped(s, n)
  {
    forall p :: 0 <= p < n ==> !CanStep(s, n, p)
  }

  ghost predicate AllDone(s: State) {
    forall p :: 0 <= p < |s.round| ==> s.round[p] == ROUNDS
  }

  /** In a stuck state everyone waits for the footman or, holding the own fork, for the next one. */
  lemma StuckWaits(s: State, n: int, p: int)
    requires Inv(s, n) && Stuck(s, n) && 0 <= p < n
    ensures s.pc[p] == 0 || s.pc[p] == 2
  {
    assert !CanStep(s, n, p);
    var b := Before(p, n);
    assert !CanStep(s, n, b);
    assert ForkOk(s, n, p);
  }

  /** Whoever waits for the next fork waits for a neighbour who waits likewise. */
  lemma WaitGoesOn(s: State, n: int, p: int)
    requires Inv(s, n) && Stuck(s, n) && 0 <= p < n && s.pc[p] == 2
    ensures s.pc[Next(p, n)] == 2
  {
    var q := Next(p, n);
    assert !CanStep(s, n, p);
    StuckWaits(s, n, q);
    assert ForkOk(s, n, q);
  }

  lemma {:induction false} WaitGoesUp(s: State, n: int, p: int, q: int)
    requires Inv(s, n) && Stuck(s, n) && 0 <= p <= q < n && s.pc[p] == 2
    ensures s.pc[q] == 2
    decreases q - p
  {
    if p < q {
      WaitGoesUp(s, n, p, q - 1);
      WaitGoesOn(s, n, q - 1);
    }
  }

  /** A circular wait would have everyone at the table, which the footman does not allow. */
  lemma NoCircularWait(s: State, n: int, p: int)
    requires Inv(s, n) && Stuck(s, n) && 0 <= p < n
    ensures s.pc[p] == 0
  {
    StuckWaits(s, n, p);
    if s.pc[p] == 2 {
      WaitGoesUp(s, n, p, n - 1);
      WaitGoesOn(s, n, n - 1);
      forall q | 0 <= q < n ensures s.pc[q] == 2 {
        WaitGoesUp(s, n, 0, q);
      }
      AdmittedSame(s.pc, 1);
    }
  }

  /** Unless everyone is done, some operation does not block. */
  lemma NoDeadlock(s: State, n: int)
    requires Inv(s, n)
    ensures Stuck(s, n) <==> AllDone(s)
  {
    if Stuck(s, n) {
      forall p | 0 <= p < n ensures s.round[p] == ROUNDS && s.pc[p] == 0 {
        NoCircularWait(s, n, p);
        forall q | 0 <= q < n ensures s.pc[q] == 0 {
          NoCircularWait(s, n, q);
        }
        AdmittedSame(s.pc, 0);
        assert !CanStep(s, n, p);
      }
    }
  }

  // ---------------------------------------------------------------- runs

  /** The operations named by the philosophers in sched do not block, one after the other, from s. */
  ghost predicate Legal(s: State, n: int, sched: seq<int>)
    requires |s.forks| == |s.pc| == |s.round| == n
    decreases |sched|
  {
    sched == [] || (CanStep(s, n, sched[0]) && Legal(Step(s, n, sched[0]), n, sched[1..]))
  }

  ghost function After(s: State, n: int, sched: seq<int>): State
    requires |s.forks| == |s.pc| == |s.round| == n && Legal(s, n, sched)
    decreases |sched|
  {
    if sched == [] then s else After(Step(s, n, sched[0]), n, sched[1..])
  }

  /** The operations that philosopher p has completed. */
  function Done(s: State, p: int): int
    requires 0 <= p < |s.pc| == |s.round|
  {
    6 * s.round[p] + s.pc[p]
  }

  function DoneByAll(s: State, k: int): int
    requires 0 <= k <= |s.pc| == |s.round|
  {
    if k == 0 then 0 else DoneByAll(s, k - 1) + Done(s, k - 1)
  }

  lemma {:induction false} StepIsDone(s: State, n: int, p: int, k: int)
    requires Shaped(s, n) && CanStep(s, n, p) && 0 <= k <= n
    ensures DoneByAll(Step(s, n, p), k) == DoneByAll(s, k) + if p < k then 1 else 0
    decreases k
  {
    if k > 0 {
      StepIsDone(s, n, p, k - 1);
    }
  }

  lemma StepIsOwnDone(s: State, n: int, p: int, q: int)
    requires Shaped(s, n) && CanStep(s, n, p) && 0 <= q < n
    ensures |Step(s, n, p).round| == |Step(s, n, p).pc| == n
    ensures Done(Step(s, n, p), q) == Done(s, q) + if p == q then 1 else 0
  {
  }

  lemma {:induction false} DoneIfSame(s: State, n: int, k: int, each: int)
    requires Shaped(s, n) && 0 <= k <= n && forall p :: 0 <= p < k ==> Done(s, p) == each
    ensures DoneByAll(s, k) == each * k
    decreases k
  {
    if k > 0 {
      DoneIfSame(s, n, k - 1, each);
    }
  }

  /** Every run keeps the invariant, and each step completes one operation of the philosopher that takes it. */
  lemma {:induction false} RunFrom(s: State, n: int, sched: seq<int>, p: int)
    requires Inv(s, n) && Legal(s, n, sched) && 0 <= p < n
    ensures Inv(After(s, n, sched), n)
    ensures DoneByAll(After(s, n, sched), n) == DoneByAll(s, n) + |sched|
    ensures Done(After(s, n, sched), p) == Done(s, p) + multiset(sched)[p]
    decreases |sched|
  {
    hide Step, ForkOk, Done, DoneByAll;
    if sched != [] {
      var t := Step(s, n, sched[0]);
      StepKeepsInv(s, n, sched[0]);
      StepIsDone(s, n, sched[0], n);
      StepIsOwnDone(s, n, sched[0], p);
      RunFrom(t, n, sched[1..], p);
      assert sched == [sched[0]] + sched[1..];
      assert multiset(sched)[p] == multiset(sched[1..])[p] + if sched[0] == p then 1 else 0;
    }
  }

  /** Neighbours never eat at the same time, in any run. */
  lemma NeighboursNeverEatTogether(n: int, sched: seq<int>, p: int)
    requires 2 <= n && Legal(Start(n), n, sched) && 0 <= p < n
    ensures var t := After(Start(n), n, sched); Shaped(t, n) && !(Eats(t, p) && Eats(t, Next(p, n)))
  {
    StartOk(n);
    RunFrom(Start(n), n, sched, p);
    ForkNotShared(After(Start(n), n, sched), n, p);
  }

  lemma DoneAtMost(s: State, n: int, k: int)
    requires Shaped(s, n) && 0 <= k <= n
    ensures DoneByAll(s, k) <= 6 * ROUNDS * k
    decreases k
  {
    if k > 0 {
      DoneAtMost(s, n, k - 1);
    }
  }

  /** No run from the start has more than 18 operations per philosopher: every run is finite. */
  lemma RunsAreFinite(n: int, sched: seq<int>)
    requires 2 <= n && Legal(Start(n), n, sched)
    ensures |sched| <= 18 * n
  {
    StartOk(n);
    RunFrom(Start(n), n, sched, 0);
    DoneIfSame(Start(n), n, n, 0);
    DoneAtMost(After(Start(n), n, sched), n, n);
  }

  lemma DoneIsFinish(s: State, n: int)
    requires Inv(s, n) && AllDone(s)
    ensures s == Finish(n)
  {
    AdmittedSame(s.pc, 0);
    forall j | 0 <= j < n ensures s.forks[j] == 1 {
      assert ForkOk(s, n, j);
    }
    assert s.forks == Finish(n).forks && s.pc == Finish(n).pc && s.round == Finish(n).round;
  }

  /**
   A run that cannot go on has given everyone all three meals and restored every semaphore;
   every philosopher made 18 operations in it.
   */
  lemma MaximalRuns(n: int, sched: seq<int>, p: int)
    requires 2 <= n && Legal(Start(n), n, sched) && 0 <= p < n
    ensures var t := After(Start(n), n, sched); Shaped(t, n) && (Stuck(t, n) <==> t == Finish(n))
    ensures After(Start(n), n, sched) == Finish(n) ==> multiset(sched)[p] == 18 && |sched| == 18 * n
  {
    hide CanStep, ForkOk, Step;
    var t := After(Start(n), n, sched);
    StartOk(n);
    RunFrom(Start(n), n, sched, p);
    NoDeadlock(t, n);
    if AllDone(t) {
      DoneIsFinish(t, n);
      DoneIfSame(Start(n), n, n, 0);
      DoneIfSame(t, n, n, 6 * ROUNDS);
    }
  }

  /** Someone has operations left and nobody can make one. */
  ghost predicate Deadlocked(s: State, n: int) {
    Shaped(s, n) && Stuck(s, n) && !AllDone(s)
  }

  /** The run sched from the start ends in a deadlock. */
  ghost predicate Deadlocks(n: int, sched: seq<int>)
    requires 1 <= n
  {
    Legal(Start(n), n, sched) && Deadlocked(After(Start(n), n, sched), n)
  }

  /** One philosopher alone is locked out at once; two or more are never deadlocked. */
  lemma DeadlockFreeIff(n: int)
    requires 1 <= n
    ensures 2 <= n <==> forall sched :: !Deadlocks(n, sched)
  {
    if n == 1 {
      assert Start(n).round[0] == 0;
      assert Deadlocks(n, []);
    } else {
      StartOk(n);
      forall sched ensures !Deadlocks(n, sched) {
        if Legal(Start(n), n, sched) {
          RunFrom(Start(n), n, sched, 0);
          NoDeadlock(After(Start(n), n, sched), n);
        }
      }
    }
  }

  // ---------------------------------------------------------------- the program

  /** The shared semaphores and the threads, each with its place in the loop of phil. */
  class Table {
    const n: int
    const forks: array<int>
    const pc: array<int>
    const round: array<int>
    var lock: int

    ghost predicate Valid()
      reads this, forks, pc, round
    {
      && forks != pc && forks != round && pc != round && 1 <= n && forks.Length == pc.Length == round.Length == n
      && Shaped(Now(), n)
    }

    ghost function Now(): State
      reads this, forks, pc, round
    {
      State(lock, forks[..], pc[..], round[..])
    }

    /** init and run: one semaphore per fork, and one thread per philosopher, at the start of its loop. */
    constructor (count: int)
      requires 1 <= count
      ensures Valid() && n == count && Now() == Start(n)
      ensures lock == n - 1 && forall p :: 0 <= p < n ==> forks[p] == 1 && round[p] == 0 && pc[p] == 0
      ensures fresh(forks) && fresh(pc) && fresh(round)
    {
      n := count;
      forks, pc, round := new int[count], new int[count], new int[count];
      lock := count - 1;
      new;
      for i := 0 to n
        invariant lock == n - 1 && forall j :: 0 <= j < i ==> forks[j] == 1
      {
        forks[i] := 1;
      }
      for i := 0 to n
        invariant lock == n - 1 && forks[..] == Start(n).forks
        invariant forall j :: 0 <= j < i ==> pc[j] == 0 && round[j] == 0
      {
        pc[i], round[i] := 0, 0;
      }
      assert pc[..] == Start(n).pc && round[..] == Start(n).round;
    }

    predicate Ready(p: int)
      requires 0 <= p < n == forks.Length == pc.Length == round.Length
      reads this, forks, pc, round
    {
      && round[p] < ROUNDS
      && (pc[p] == 0 ==> lock > 0)
      && (pc[p] == 1 ==> forks[p] > 0)
      && (pc[p] == 2 ==> forks[(p + 1) % n] > 0)
    }

    lemma ReadyCanStep(p: int)
      requires Valid() && 0 <= p < n
      ensures Ready(p) <==> CanStep(Now(), n, p)
    {
    }

    /** The next operation of thread p. */
    method Act(p: int)
      requires Valid() && CanStep(Now(), n, p)
      modifies this, forks, pc, round
      ensures Valid() && Now() == Step(old(Now()), n, p)
      ensures Operated(old(Now()), Now(), n, p)
    {
      hide Operated;
      StepOperates(Now(), n, p);
      var right := (p + 1) % n;
      assert right == Next(p, n);
      ghost var s := Now();
      if pc[p] == 0 {
        lock := lock - 1;
      } else if pc[p] == 1 {
        forks[p] := forks[p] - 1;
      } else if pc[p] == 2 {
        forks[right] := forks[right] - 1;
      } else if pc[p] == 3 {
        forks[p] := forks[p] + 1;
      } else if pc[p] == 4 {
        forks[right] := forks[right] + 1;
      } else {
        lock := lock + 1;
        round[p] := round[p] + 1;
      }
      pc[p] := if pc[p] == 5 then 0 else pc[p] + 1;
    }

    /** Lets the threads run, in any order the semaphores allow, until none can go on. */
    method Dine()
      requires Valid() && Inv(Now(), n)
      modifies this, forks, pc, round
      ensures Valid() && Now() == Finish(n)
      ensures lock == n - 1 && forall p :: 0 <= p < n ==> forks[p] == 1 && round[p] == 3 && pc[p] == 0
    {
      hide Step, CanStep, ForkOk, AllDone, Finish, DoneByAll, Admitted;
      while exists p :: 0 <= p < n && Ready(p)
        invariant Valid() && Inv(Now(), n)
        decreases 6 * ROUNDS * n - DoneByAll(Now(), n)
      {
        var p :| 0 <= p < n && Ready(p);
        ReadyCanStep(p);
        StepKeepsInv(Now(), n, p);
        StepIsDone(Now(), n, p, n);
        DoneAtMost(Now(), n, n);
        Act(p);
      }
      forall p | 0 <= p < n ensures !CanStep(Now(), n, p) {
        ReadyCanStep(p);
      }
      NoDeadlock(Now(), n);
      DoneIsFinish(Now(), n);
      FinishIs(n);
      assert forks[..] == Finish(n).forks && round[..] == Finish(n).round && pc[..] == Finish(n).pc;
    }
  }
}
