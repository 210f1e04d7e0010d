/**
 The write-up promises a best fit whenever a page fits.  When the promise holds of the pages
 on a list, and when slob_alloc keeps it whatever units of these pages are free.
 */
module BestFit {
  import opened Geometry
  import opened FreeList
  import opened PageChoice
  import opened PageFits
  import Sums
  import SlobPage
  import opened SlobHeap

  /** Which pages fit is possible for pages with these numbers of free units. */
  ghost predicate Possible(us: seq<int>, n: int, align: int, fits: seq<bool>) {
    |fits| == |us| &&
    forall i :: 0 <= i < |us| ==> if fits[i] then CanFit(us[i], n, align) else CanMiss(us[i], n, align)
  }

  /** The numbers of free units of some pages. */
  ghost predicate PageCounts(us: seq<int>) {
    forall i :: 0 <= i < |us| ==> 0 <= us[i] <= PAGE_UNITS
  }

  /** A page with u free units can be without a fit. */
  ghost predicate Missable(u: int, n: int, align: int)
    requires 1 <= n <= PAGE_UNITS && ValidAlign(align)
  {
    u <= MostMissing(n, align)
  }

  /** Attempts on all records before page k can fail. */
  ghost predicate Reached(us: seq<int>, n: int, align: int, k: int)
    requires 1 <= n <= PAGE_UNITS && ValidAlign(align)
  {
    forall r :: r < k && Record(us, n, r) ==> Missable(us[r], n, align)
  }

  // ---------------------------------------------------------------- two lists on which the promise fails

  lemma NoRunOfTwo(free: set<int>, v: int)
    requires v !in free || v + 1 !in free
    ensures !FreeRun(free, v, 2)
  {
  }

  /** A page with units 0 and 2 free has no run of two units; both pages can occur on a list. */
  lemma TwoSingleUnitsMiss()
    ensures CanMiss(2, 2, 0)
  {
    hide Sound, UnitsOf, FreeRun;
    var free := {0, 2};
    var c := PageWith(free);
    forall v | 0 <= v ensures !FreeRun(free, v, 2) {
      NoRunOfTwo(free, v);
    }
  }

  /** A page that fits is passed over for an earlier, smaller one that does not: the heap grows. */
  lemma FittingPageSkipped()
    ensures Possible([2, 3], 2, 0, [false, true]) && GivesUp([2, 3], 2, [false, true])
    ensures SomeFits([2, 3], 2, [false, true])
  {
    TwoSingleUnitsMiss();
    CanFitIff(3, 2, 0);
    assert Roomy([2, 3], 2, 0) && Roomy([2, 3], 2, 1);
  }

  /** An earlier larger page is preferred to a later smaller one. */
  lemma NotBestFit()
    ensures Possible([3, 2], 2, 0, [true, true]) && Chosen([3, 2], 2, [true, true], 0)
    ensures !BestFit([3, 2], 2, [true, true], 0)
  {
    CanFitIff(3, 2, 0);
    CanFitIff(2, 2, 0);
    assert Roomy([3, 2], 2, 1);
  }

  // ---------------------------------------------------------------- when the promise is kept

  /** The pages of only fit, and others only where they cannot miss. */
  ghost function FitsAt(us: seq<int>, n: int, align: int, only: set<int>): (fits: seq<bool>)
    requires 1 <= n <= PAGE_UNITS && ValidAlign(align)
    ensures |fits| == |us| && forall i :: 0 <= i < |us| ==> fits[i] == (i in only || !Missable(us[i], n, align))
  {
    seq(|us|, i requires 0 <= i < |us| => i in only || !Missable(us[i], n, align))
  }

  lemma FitsAtPossible(us: seq<int>, n: int, align: int, only: set<int>)
    requires 1 <= n <= PAGE_UNITS && ValidAlign(align) && PageCounts(us)
    requires forall i :: i in only && 0 <= i < |us| ==> Roomy(us, n, i)
    ensures Possible(us, n, align, FitsAt(us, n, align, only))
  {
    hide CanFit, CanMiss, MostMissing;
    forall i | 0 <= i < |us|
      ensures if FitsAt(us, n, align, only)[i] then CanFit(us[i], n, align) else CanMiss(us[i], n, align)
    {
      CanFitIff(us[i], n, align);
      CanMissIff(us[i], n, align);
      SomeOutcome(us[i], n, align);
    }
  }

  /** In any possible outcome, a page that does not fit has few enough free units to miss. */
  lemma PossibleMiss(us: seq<int>, n: int, align: int, fits: seq<bool>, i: int)
    requires 1 <= n <= PAGE_UNITS && ValidAlign(align) && Possible(us, n, align, fits) && 0 <= i < |us|
    ensures !fits[i] ==> Missable(us[i], n, align)
  {
    hide CanFit, CanMiss, MostMissing;
    CanMissIff(us[i], n, align);
  }

  /** Whatever units of the pages are free, the page chosen is a best fit. */
  ghost predicate AlwaysBest(us: seq<int>, n: int, align: int) {
    forall fits: seq<bool>, c: int :: Possible(us, n, align, fits) && Chosen(us, n, fits, c) ==> BestFit(us, n, fits, c)
  }

  /** No record that can be reached is followed by a smaller page with room. */
  ghost predicate NoneSmallerAfter(us: seq<int>, n: int, align: int)
    requires 1 <= n <= PAGE_UNITS && ValidAlign(align)
  {
    forall k, p :: Record(us, n, k) && Reached(us, n, align, k) && k < p < |us| && Roomy(us, n, p) ==> us[k] <= us[p]
  }

  lemma BestNeedsOrder(us: seq<int>, n: int, align: int, k: int, p: int)
    requires 1 <= n <= PAGE_UNITS && ValidAlign(align) && PageCounts(us) && AlwaysBest(us, n, align)
    requires Record(us, n, k) && Reached(us, n, align, k) && k < p < |us| && Roomy(us, n, p)
    ensures us[k] <= us[p]
  {
    hide Possible, Missable;
    var fits := FitsAt(us, n, align, {k, p});
    FitsAtPossible(us, n, align, {k, p});
    assert Chosen(us, n, fits, k);
    assert BestFit(us, n, fits, k);
  }

  lemma OrderMakesBest(us: seq<int>, n: int, align: int, fits: seq<bool>, c: int)
    requires 1 <= n <= PAGE_UNITS && ValidAlign(align) && NoneSmallerAfter(us, n, align)
    requires Possible(us, n, align, fits) && Chosen(us, n, fits, c)
    ensures BestFit(us, n, fits, c)
  {
    hide Missable, CanFit, CanMiss;
    forall r | r < c && Record(us, n, r) ensures Missable(us[r], n, align) {
      PossibleMiss(us, n, align, fits, r);
    }
    assert Reached(us, n, align, c);
    BestFitIff(us, n, fits, c);
  }

  /** The choice is always best exactly when no record that can be reached is followed by a smaller page with room. */
  lemma AlwaysBestIff(us: seq<int>, n: int, align: int)
    requires 1 <= n <= PAGE_UNITS && ValidAlign(align) && PageCounts(us)
    ensures AlwaysBest(us, n, align) <==> NoneSmallerAfter(us, n, align)
  {
    hide Reached, BestFit;
    if AlwaysBest(us, n, align) {
      forall k, p | Record(us, n, k) && Reached(us, n, align, k) && k < p < |us| && Roomy(us, n, p)
        ensures us[k] <= us[p]
      {
        BestNeedsOrder(us, n, align, k, p);
      }
    }
    if NoneSmallerAfter(us, n, align) {
      forall fits: seq<bool>, c: int | Possible(us, n, align, fits) && Chosen(us, n, fits, c)
        ensures BestFit(us, n, fits, c)
      {
        OrderMakesBest(us, n, align, fits, c);
      }
    }
  }

  /** Whatever units of the pages are free, the search gives up only if no page fits. */
  ghost predicate NeverSkips(us: seq<int>, n: int, align: int) {
    forall fits: seq<bool> :: Possible(us, n, align, fits) && SomeFits(us, n, fits) ==> !GivesUp(us, n, fits)
  }

  /** A page that fits is never skipped exactly when every page with room is a record, or some record cannot miss. */
  lemma NeverSkipsIff(us: seq<int>, n: int, align: int)
    requires 1 <= n <= PAGE_UNITS && ValidAlign(align) && PageCounts(us)
    ensures NeverSkips(us, n, align) <==>
            (forall p :: 0 <= p < |us| && Roomy(us, n, p) ==> Record(us, n, p)) ||
            (exists r :: Record(us, n, r) && !Missable(us[r], n, align))
  {
    hide Missable;
    if NeverSkips(us, n, align) && forall r :: Record(us, n, r) ==> Missable(us[r], n, align) {
      forall p | 0 <= p < |us| && Roomy(us, n, p) ensures Record(us, n, p) {
        var fits := FitsAt(us, n, align, {p});
        FitsAtPossible(us, n, align, {p});
        assert fits[p] && SomeFits(us, n, fits);
      }
    }
    forall fits: seq<bool> | Possible(us, n, align, fits) && SomeFits(us, n, fits) && GivesUp(us, n, fits)
      ensures exists p :: 0 <= p < |us| && Roomy(us, n, p) && !Record(us, n, p)
      ensures forall r :: Record(us, n, r) ==> Missable(us[r], n, align)
    {
      var p :| 0 <= p < |us| && Roomy(us, n, p) && fits[p];
      assert !Record(us, n, p);
      forall r | Record(us, n, r) ensures Missable(us[r], n, align) {
        PossibleMiss(us, n, align, fits, r);
      }
    }
  }

  // ---------------------------------------------------------------- the promise

  /** Whatever units of the pages are free, if a page fits then the search takes a best fit. */
  ghost predicate BestFitPromise(us: seq<int>, n: int, align: int) {
    forall fits: seq<bool> :: Possible(us, n, align, fits) && SomeFits(us, n, fits) ==>
      exists c :: Chosen(us, n, fits, c) && BestFit(us, n, fits, c)
  }

  /** A search that does not give up chooses the first record that fits. */
  lemma {:induction false} FirstChosen(us: seq<int>, n: int, fits: seq<bool>, j: int) returns (c: int)
    requires |fits| == |us| && 0 <= j <= |us| && FailsUpTo(us, n, fits, j) && !GivesUp(us, n, fits)
    ensures Chosen(us, n, fits, c)
    decreases |us| - j
  {
    if j < |us| && !(Record(us, n, j) && fits[j]) {
      c := FirstChosen(us, n, fits, j + 1);
    } else {
      c := j;
    }
  }

  lemma PromiseParts(us: seq<int>, n: int, align: int)
    ensures BestFitPromise(us, n, align) <==> AlwaysBest(us, n, align) && NeverSkips(us, n, align)
  {
    hide BestFit, CanFit, CanMiss;
    if BestFitPromise(us, n, align) {
      forall fits: seq<bool>, c: int | Possible(us, n, align, fits) && Chosen(us, n, fits, c)
        ensures BestFit(us, n, fits, c)
      {
        assert SomeFits(us, n, fits);
        var d :| Chosen(us, n, fits, d) && BestFit(us, n, fits, d);
        assert c == d;
      }
    }
    if AlwaysBest(us, n, align) && NeverSkips(us, n, align) {
      forall fits: seq<bool> | Possible(us, n, align, fits) && SomeFits(us, n, fits)
        ensures exists c :: Chosen(us, n, fits, c) && BestFit(us, n, fits, c)
      {
        var c := FirstChosen(us, n, fits, 0);
      }
    }
  }

  lemma {:induction false} FirstRoomy(us: seq<int>, n: int, k: int) returns (r: int)
    requires 0 <= k < |us| && Roomy(us, n, k)
    ensures 0 <= r <= k && Record(us, n, r) && forall i :: 0 <= i < r ==> !Roomy(us, n, i)
    decreases k
  {
    if i :| 0 <= i < k && Roomy(us, n, i) {
      r := FirstRoomy(us, n, i);
    } else {
      r := k;
    }
  }

  /** Page k is no larger than the later page p, and equally large if an attempt on it hides p and can fail. */
  ghost predicate InOrder(us: seq<int>, n: int, align: int, k: int, p: int)
    requires 1 <= n <= PAGE_UNITS && ValidAlign(align) && 0 <= k < |us| && 0 <= p < |us|
  {
    us[k] <= us[p] && (k < 50 && Missable(us[k], n, align) ==> us[k] == us[p])
  }

  /** The pages with room that can be reached are in order with all later ones. */
  ghost predicate AllInOrder(us: seq<int>, n: int, align: int)
    requires 1 <= n <= PAGE_UNITS && ValidAlign(align)
  {
    forall k, p :: 0 <= k < p < |us| && Roomy(us, n, k) && Roomy(us, n, p) && Reached(us, n, align, k) ==>
      InOrder(us, n, align, k, p)
  }

  /** Given the promise, a page with room that can be reached is a record. */
  lemma ReachedIsRecord(us: seq<int>, n: int, align: int, k: int)
    requires 1 <= n <= PAGE_UNITS && ValidAlign(align) && PageCounts(us) && NeverSkips(us, n, align)
    requires 0 <= k < |us| && Roomy(us, n, k) && Reached(us, n, align, k)
    ensures Record(us, n, k)
  {
    hide NeverSkips, MostMissing;
    NeverSkipsIff(us, n, align);
    var f := FirstRoomy(us, n, k);
    assert f < k ==> Missable(us[f], n, align);
  }

  lemma PromiseOrders(us: seq<int>, n: int, align: int, k: int, p: int)
    requires 1 <= n <= PAGE_UNITS && ValidAlign(align) && PageCounts(us)
    requires NoneSmallerAfter(us, n, align) && NeverSkips(us, n, align)
    requires 0 <= k < p < |us| && Roomy(us, n, k) && Roomy(us, n, p) && Reached(us, n, align, k)
    ensures InOrder(us, n, align, k, p)
  {
    hide NeverSkips, MostMissing;
    NeverSkipsIff(us, n, align);
    ReachedIsRecord(us, n, align, k);
  }

  /** If the pages are in order and all records can miss, every page with room is a record. */
  lemma OrderedAreRecords(us: seq<int>, n: int, align: int, p: int)
    requires 1 <= n <= PAGE_UNITS && ValidAlign(align)
    requires AllInOrder(us, n, align)
    requires forall r :: Record(us, n, r) ==> Missable(us[r], n, align)
    requires 0 <= p < |us| && Roomy(us, n, p)
    ensures Record(us, n, p)
  {
    hide MostMissing;
    forall k | 0 <= k < p && k < 50 && Roomy(us, n, k) ensures us[p] <= us[k] {
      var f := FirstRoomy(us, n, k);
      assert Reached(us, n, align, k) && Reached(us, n, align, f);
      assert f < k ==> InOrder(us, n, align, f, k);
      assert InOrder(us, n, align, k, p);
    }
  }

  lemma OrderKeepsPromise(us: seq<int>, n: int, align: int)
    requires 1 <= n <= PAGE_UNITS && ValidAlign(align) && PageCounts(us) && AllInOrder(us, n, align)
    ensures NoneSmallerAfter(us, n, align) && NeverSkips(us, n, align)
  {
    hide NeverSkips, Missable, Reached, MostMissing;
    NeverSkipsIff(us, n, align);
    if forall r :: Record(us, n, r) ==> Missable(us[r], n, align) {
      forall p | 0 <= p < |us| && Roomy(us, n, p) ensures Record(us, n, p) {
        OrderedAreRecords(us, n, align, p);
      }
    }
    forall k, p | Record(us, n, k) && Reached(us, n, align, k) && k < p < |us| && Roomy(us, n, p)
      ensures us[k] <= us[p]
    {
      assert InOrder(us, n, align, k, p);
    }
  }

  /**
   The promise of the write-up holds of a list exactly when each page with room that can be
   reached is no larger than any later one, and equally large if it is within the scan limit
   and can be without a fit.
   */
  lemma BestFitPromiseIff(us: seq<int>, n: int, align: int)
    requires 1 <= n <= PAGE_UNITS && ValidAlign(align) && PageCounts(us)
    ensures BestFitPromise(us, n, align) <==> AllInOrder(us, n, align)
  {
    hide BestFitPromise, AlwaysBest, NeverSkips, NoneSmallerAfter, Reached, InOrder;
    PromiseParts(us, n, align);
    AlwaysBestIff(us, n, align);
    if BestFitPromise(us, n, align) {
      forall k, p | 0 <= k < p < |us| && Roomy(us, n, k) && Roomy(us, n, p) && Reached(us, n, align, k)
        ensures InOrder(us, n, align, k, p)
      {
        PromiseOrders(us, n, align, k, p);
      }
    }
    if AllInOrder(us, n, align) {
      OrderKeepsPromise(us, n, align);
    }
  }

  // ---------------------------------------------------------------- the heap

  /** A listed page has free units, and live ones too. */
  lemma ListedCount(h: Heap, p: SlobPage.Page)
    requires h.Valid() && p in h.held && p in h.place
    ensures 1 <= p.units <= PAGE_UNITS && Sound(Contents(p.live, p.blocks, p.units))
    ensures p.live != map[] ==> p.units < PAGE_UNITS
  {
    hide Heap.ListsOk;
    h.HeldPage(p);
    SoundUnits(Contents(p.live, p.blocks, p.units));
    LiveIsPositive(p.live, p.Free());
  }

  lemma LiveIsPositive(live: map<int, int>, free: set<int>)
    requires Sums.Tiles(live, free)
    ensures live != map[] ==> 1 <= Sums.Total(live)
  {
    forall b | b in live ensures 1 <= live[b] {
    }
    Sums.TotalZero(live);
    forall b | b in live ensures 0 <= live[b] {
    }
    Sums.TotalNonNegative(live);
  }

  /** The counts of the pages of a list, and which of them fit, are among those the results above range over. */
  lemma HeapIsPossible(h: Heap, c: int, n: int, align: int)
    requires h.Valid() && 0 <= c < 3
    ensures PageCounts(Counts(h.List(c)))
    ensures Possible(Counts(h.List(c)), n, align, Fits(h.List(c), n, align))
    ensures h.NoEmptyPage() ==>
              forall i :: 0 <= i < |h.List(c)| ==> 1 <= Counts(h.List(c))[i] < PAGE_UNITS
  {
    hide Heap.RingsOk, Heap.PagesOk, Heap.FlagsOk, NoFit, Sound;
    var ps := h.List(c);
    forall i | 0 <= i < |ps|
      ensures 0 <= ps[i].units <= PAGE_UNITS
      ensures h.NoEmptyPage() ==> 1 <= ps[i].units < PAGE_UNITS
      ensures if Fits(ps, n, align)[i] then CanFit(ps[i].units, n, align) else CanMiss(ps[i].units, n, align)
    {
      ListedIsHeld(h.held, h.lists, h.place, c, i);
      ListedCount(h, ps[i]);
    }
  }

  /** slob_alloc needs a new page exactly when every page of its list that fits is hidden by an earlier smaller one. */
  lemma HeapGrowsIff(h: Heap, size: int, align: int)
    ensures h.MustGrow(size, align) <==>
            var ps, n := h.List(ClassOf(size)), SlobUnits(size);
            forall p :: 0 <= p < |ps| && ps[p].units >= n && !NoFit(ps[p].Free(), n, align) ==>
              exists k :: 0 <= k < p && k < 50 && ps[k].units >= n && ps[k].units < ps[p].units
  {
    hide NoFit, GivesUp, SlobUnits;
    var ps, n := h.List(ClassOf(size)), SlobUnits(size);
    GivesUpIff(Counts(ps), n, Fits(ps, n, align));
    GrowIsGivingUp(h, size, align);
  }

  /** The page taken fits and is not hidden by one of the first 50; the earlier pages that fit are. */
  lemma HeapChoosesIff(h: Heap, c: int, n: int, align: int, j: int)
    ensures h.IsChosen(c, n, align, j) <==>
            var ps := h.List(c);
            && 0 <= j < |ps| && ps[j].units >= n && !NoFit(ps[j].Free(), n, align)
            && (forall k :: 0 <= k < j && k < 50 && ps[k].units >= n ==> ps[j].units <= ps[k].units)
            && (forall p :: 0 <= p < j && ps[p].units >= n && !NoFit(ps[p].Free(), n, align) ==>
                  exists k :: 0 <= k < p && k < 50 && ps[k].units >= n && ps[k].units < ps[p].units)
  {
    hide NoFit, Chosen;
    var ps := h.List(c);
    ChosenIff(Counts(ps), n, Fits(ps, n, align), j);
  }

  /**
   The reach of the scan.  Only page p of the list fits, and the only smaller page with room before it is page k:
   slob_alloc passes over p if k is at most 49, and takes the block from p if k is at least 50.
   */
  lemma HiddenUpTo49(h: Heap, size: int, align: int, p: int, k: int)
    requires var ps, n := h.List(ClassOf(size)), SlobUnits(size);
             && 0 <= k < p < |ps| && n <= ps[k].units < ps[p].units && !NoFit(ps[p].Free(), n, align)
             && (forall q :: 0 <= q < |ps| && q != p ==> NoFit(ps[q].Free(), n, align))
             && (forall i :: 0 <= i < p && i != k && ps[i].units >= n ==> ps[p].units <= ps[i].units)
    ensures k <= 49 ==> h.MustGrow(size, align)
    ensures k >= 50 ==> h.IsChosen(ClassOf(size), SlobUnits(size), align, p) && !h.MustGrow(size, align)
  {
    hide NoFit, Heap.MustGrow, Heap.IsChosen, SlobUnits;
    HeapGrowsIff(h, size, align);
    HeapChoosesIff(h, ClassOf(size), SlobUnits(size), align, p);
  }

  lemma GrowIsGivingUp(h: Heap, size: int, align: int)
    ensures h.MustGrow(size, align) <==>
            GivesUp(Counts(h.List(ClassOf(size))), SlobUnits(size), Fits(h.List(ClassOf(size)), SlobUnits(size), align))
  {
  }

  /** The page taken is a best fit exactly when no later page of its list that fits is smaller. */
  lemma HeapBestFitIff(h: Heap, c: int, n: int, align: int, j: int)
    requires h.IsChosen(c, n, align, j)
    ensures var ps := h.List(c);
            0 <= j < |ps| &&
            ((forall p :: 0 <= p < |ps| && ps[p].units >= n && !NoFit(ps[p].Free(), n, align) ==>
               ps[j].units <= ps[p].units) <==>
             (forall p :: j < p < |ps| && ps[p].units >= n && !NoFit(ps[p].Free(), n, align) ==>
               ps[j].units <= ps[p].units))
  {
    hide NoFit, Chosen;
    var ps := h.List(c);
    ChosenFits(Counts(ps), n, Fits(ps, n, align), j);
    BestFitIff(Counts(ps), n, Fits(ps, n, align), j);
  }

  lemma ChosenFits(us: seq<int>, n: int, fits: seq<bool>, c: int)
    requires |fits| == |us| && Chosen(us, n, fits, c)
    ensures 0 <= c < |us| && Roomy(us, n, c) && fits[c]
  {
  }
}
