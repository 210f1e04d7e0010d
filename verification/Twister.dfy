/**
 MT19937.  The generator rebuilds an array of 624 words in place; its results are the
 tempered words of a linear recurrence over 32-bit words, the one of section 26.5.3.2 of
 ISO/IEC 14882:2011.
 */
module Twister {
  import Arithmetic

  const N: int := 624
  const M: int := 397
  const MATRIX_A: bv32 := 0x9908b0df

  /** A word's most significant bit: UPPER_MASK. */
  function Top(x: bv32): bv32 {
    x & 0x80000000
  }

  /** A word's other bits: LOWER_MASK. */
  function Low(x: bv32): bv32 {
    x & 0x7fffffff
  }

  // ---------------------------------------------------------------- the recurrence

  /** The top bit of one word and the low bits of the next. */
  function Joined(hi: bv32, lo: bv32): bv32 {
    Or(Top(hi), Low(lo))
  }

  function Or(a: bv32, b: bv32): bv32 {
    a | b
  }

  function Xor(a: bv32, b: bv32): bv32 {
    a ^ b
  }

  function Half(y: bv32): bv32 {
    y >> 1
  }

  predicate Odd(y: bv32) {
    y & 1 != 0
  }

  /** A word shifted right by one bit, with the matrix constant added if a bit fell out. */
  function Shifted(y: bv32): bv32 {
    Xor(Half(y), if Odd(y) then MATRIX_A else 0)
  }

  function Twist(hi: bv32, lo: bv32): bv32 {
    Shifted(Joined(hi, lo))
  }

  /** x[k + 624] from x[k + 397], x[k] and x[k + 1]. */
  function Next(far: bv32, hi: bv32, lo: bv32): bv32 {
    Xor(far, Twist(hi, lo))
  }

  /** Word n of the sequence that begins with the words s. */
  ghost function X(s: seq<bv32>, n: int): bv32
    requires |s| == N && 0 <= n
    decreases n
  {
    if n < N then s[n] else Next(X(s, n - N + M), X(s, n - N), X(s, n - N + 1))
  }

  /** One step of the recurrence in numbers: a new word from the words 227, 624 and 623 before it. */
  ghost predicate Follows(w: bv32, far: bv32, hi: bv32, lo: bv32) {
    var y := (hi & 0x80000000) | (lo & 0x7fffffff);
    w == far ^ ((y >> 1) ^ (if y & 1 != 0 then 0x9908b0df else 0))
  }

  lemma NextFollows(far: bv32, hi: bv32, lo: bv32)
    ensures Follows(Next(far, hi, lo), far, hi, lo)
  {
  }

  /** The sequence, in numbers: it begins with the 624 words of s, and each later word follows from three of them. */
  lemma Recurrence(s: seq<bv32>, n: int)
    requires |s| == 624 && 0 <= n
    ensures n < 624 ==> X(s, n) == s[n]
    ensures Follows(X(s, n + 624), X(s, n + 397), X(s, n), X(s, n + 1))
  {
    hide X, Next, Follows;
    if n < N {
      XFirst(s, n);
    }
    XStep(s, n);
    NextFollows(X(s, n + M), X(s, n), X(s, n + 1));
  }

  lemma XStep(s: seq<bv32>, n: int)
    requires |s| == N && 0 <= n
    ensures X(s, n + N) == Next(X(s, n + M), X(s, n), X(s, n + 1))
  {
    hide Next;
  }

  /** N words of the sequence from word n on. */
  ghost function Window(s: seq<bv32>, n: int): (w: seq<bv32>)
    requires |s| == N && 0 <= n
    ensures |w| == N && forall i :: 0 <= i < N ==> w[i] == X(s, n + i)
  {
    seq(N, i requires 0 <= i => X(s, n + i))
  }

  /** The sequence goes on from any window as it would from a seed. */
  lemma {:induction false} WindowGoesOn(s: seq<bv32>, n: int, k: int)
    requires |s| == N && 0 <= n && 0 <= k
    ensures X(Window(s, n), k) == X(s, n + k)
    decreases k
  {
    hide Next, X;
    if k < N {
      XFirst(Window(s, n), k);
    } else {
      WindowGoesOn(s, n, k - N);
      WindowGoesOn(s, n, k - N + 1);
      WindowGoesOn(s, n, k - N + M);
      XStep(s, n + k - N);
      XStep(Window(s, n), k - N);
    }
  }

  // ---------------------------------------------------------------- reversing the recurrence

  function Double(t: bv32, bit: bv32): bv32 {
    (t << 1) | bit
  }

  /** Undoes Shifted: the top bit tells which bit fell out. */
  function Unshifted(t: bv32): bv32 {
    if Top(t) == 0 then Double(t, 0) else Double(Xor(t, MATRIX_A), 1)
  }

  lemma DoubleHalf(y: bv32)
    ensures Double(Half(y), if Odd(y) then 1 else 0) == y && Top(Half(y)) == 0
  {
  }

  lemma HalfDouble(t: bv32, bit: bv32)
    requires Top(t) == 0 && (bit == 0 || bit == 1)
    ensures Half(Double(t, bit)) == t && (Odd(Double(t, bit)) <==> bit == 1)
  {
  }

  /** The matrix constant has the top bit set. */
  lemma MatrixFlipsTop(t: bv32)
    ensures Top(Xor(t, MATRIX_A)) == 0 <==> Top(t) != 0
  {
  }

  lemma MatrixTwice(t: bv32)
    ensures Xor(Xor(t, MATRIX_A), MATRIX_A) == t
  {
  }

  lemma XorZero(t: bv32)
    ensures Xor(t, 0) == t
  {
  }

  lemma UnshiftedShifted(y: bv32)
    ensures Unshifted(Shifted(y)) == y
  {
    hide Half, Odd, Double, Top, Xor;
    DoubleHalf(y);
    XorZero(Half(y));
    MatrixFlipsTop(Half(y));
    MatrixTwice(Half(y));
  }

  lemma ShiftedUnshifted(t: bv32)
    ensures Shifted(Unshifted(t)) == t
  {
    hide Half, Odd, Double, Top, Xor;
    MatrixFlipsTop(t);
    if Top(t) == 0 {
      HalfDouble(t, 0);
      XorZero(t);
    } else {
      HalfDouble(Xor(t, MATRIX_A), 1);
      MatrixTwice(t);
    }
  }

  lemma JoinedMasks(h: bv32, l: bv32)
    ensures Top(Joined(h, l)) == Top(h) && Low(Joined(h, l)) == Low(l)
  {
  }

  lemma JoinedParts(h: bv32, l: bv32, h': bv32, l': bv32)
    ensures Joined(h, l) == Joined(h', l') <==> Top(h) == Top(h') && Low(l) == Low(l')
  {
    hide Top, Low, Or;
    JoinedMasks(h, l);
    JoinedMasks(h', l');
  }

  lemma WordFromHalves(a: bv32)
    ensures Or(Top(a), Low(a)) == a
  {
  }

  lemma HalvesMakeWord(a: bv32, b: bv32)
    ensures a == b <==> Top(a) == Top(b) && Low(a) == Low(b)
  {
    hide Top, Low, Or;
    WordFromHalves(a);
    WordFromHalves(b);
  }

  /** A twist reveals the top bit of its first word and the low bits of its second. */
  lemma TwistParts(h: bv32, l: bv32, h': bv32, l': bv32)
    ensures Twist(h, l) == Twist(h', l') <==>
            Top(h) == Top(h') && Low(l) == Low(l')
  {
    hide Shifted, Unshifted, Joined;
    UnshiftedShifted(Joined(h, l));
    UnshiftedShifted(Joined(h', l'));
    JoinedParts(h, l, h', l');
  }

  /** The recurrence reveals its far word or its twist, whichever is not yet known. */
  lemma NextParts(f: bv32, h: bv32, l: bv32, h': bv32, l': bv32)
    ensures Next(f, h, l) == Next(f, h', l') <==> Top(h) == Top(h') && Low(l) == Low(l')
  {
    hide Shifted, Joined, Top, Low, Xor;
    TwistParts(h, l, h', l');
    XorCancels(f, Twist(h, l), Twist(h', l'));
  }

  lemma XorTwice(a: bv32, t: bv32)
    ensures Xor(a, Xor(a, t)) == t
  {
  }

  lemma XorCancels(a: bv32, t: bv32, t': bv32)
    ensures Xor(a, t) == Xor(a, t') <==> t == t'
  {
    hide Xor;
    XorTwice(a, t);
    XorTwice(a, t');
  }

  /** The low 31 bits of the oldest word are not part of the state: 19937 = 624 * 32 - 31. */
  ghost predicate SameState(s: seq<bv32>, t: seq<bv32>)
    requires |s| == |t| == N
  {
    Top(s[0]) == Top(t[0]) && forall i :: 1 <= i < N ==> s[i] == t[i]
  }

  /** What two equal twists of words i and i + 1 have in common. */
  ghost predicate TwistAgrees(s: seq<bv32>, t: seq<bv32>, i: int)
    requires |s| == |t| == N && 0 <= i
  {
    Top(X(s, i)) == Top(X(t, i)) && Low(X(s, i + 1)) == Low(X(t, i + 1))
  }

  /** Word i of the next block agrees exactly when the words it is twisted from agree. */
  lemma StepAgrees(s: seq<bv32>, t: seq<bv32>, i: int)
    requires |s| == |t| == N && 0 <= i && X(s, i + M) == X(t, i + M)
    ensures X(s, i + N) == X(t, i + N) <==> TwistAgrees(s, t, i)
  {
    hide Next, Top, Low;
    XStep(s, i);
    XStep(t, i);
    NextParts(X(s, i + M), X(s, i), X(s, i + 1), X(t, i), X(t, i + 1));
  }

  /** Words after the first agree once the top bits from word i on and the low bits after it do. */
  lemma WordsAgree(s: seq<bv32>, t: seq<bv32>, lo: int, hi: int)
    requires |s| == |t| == N && 0 <= lo
    requires forall i :: lo <= i < hi ==> TwistAgrees(s, t, i)
    ensures forall k :: lo < k < hi ==> X(s, k) == X(t, k)
  {
    hide Next, Top, Low;
    forall k | lo < k < hi ensures X(s, k) == X(t, k) {
      assert TwistAgrees(s, t, k - 1) && TwistAgrees(s, t, k);
      HalvesMakeWord(X(s, k), X(t, k));
    }
  }

  /** The block twist can be undone: equal new blocks come from equal states. */
  lemma TwistReversible(s: seq<bv32>, t: seq<bv32>)
    requires |s| == |t| == N && Window(s, N) == Window(t, N)
    ensures SameState(s, t)
  {
    hide X, Top, Low;
    assert forall i :: N <= i < 2 * N ==> X(s, i) == X(t, i) by {
      forall i | N <= i < 2 * N ensures X(s, i) == X(t, i) {
        assert Window(s, N)[i - N] == X(s, N + (i - N)) && Window(t, N)[i - N] == X(t, N + (i - N));
      }
    }
    forall i | N - M <= i < N ensures TwistAgrees(s, t, i) {
      StepAgrees(s, t, i);
    }
    WordsAgree(s, t, N - M, N);
    forall i | 0 <= i < N - M ensures TwistAgrees(s, t, i) {
      StepAgrees(s, t, i);
    }
    WordsAgree(s, t, 0, N);
    assert TwistAgrees(s, t, 0);
    assert forall i :: 0 <= i < N ==> X(s, i) == s[i] && X(t, i) == t[i] by {
      forall i | 0 <= i < N ensures X(s, i) == s[i] && X(t, i) == t[i] {
        XFirst(s, i);
        XFirst(t, i);
      }
    }
  }

  lemma XFirst(s: seq<bv32>, i: int)
    requires |s| == N && 0 <= i < N
    ensures X(s, i) == s[i]
  {
  }

  /** Equal states give equal sequences from the first new word on. */
  lemma {:induction false} SameStateSameWords(s: seq<bv32>, t: seq<bv32>, n: int)
    requires |s| == |t| == N && SameState(s, t) && 1 <= n
    ensures X(s, n) == X(t, n)
    decreases n
  {
    hide Next, Top, Low;
    if n < N {
      XFirst(s, n);
      XFirst(t, n);
    } else {
      var i := n - N;
      SameStateSameWords(s, t, i + M);
      SameStateSameWords(s, t, i + 1);
      if i == 0 {
        XFirst(s, 0);
        XFirst(t, 0);
      } else {
        SameStateSameWords(s, t, i);
      }
      StepAgrees(s, t, i);
    }
  }

  /** The low bits of the first new word follow from the others. */
  lemma StateGivesWindow(s: seq<bv32>, t: seq<bv32>)
    requires |s| == |t| == N && SameState(Window(s, N), Window(t, N))
    ensures Window(s, N) == Window(t, N)
  {
    hide Next, Top, Low;
    assert Window(s, N)[M - 1] == Window(t, N)[M - 1] && Window(s, N)[N - 1] == Window(t, N)[N - 1];
    StepAgrees(s, t, N - 1);
    HalvesMakeWord(X(s, N), X(t, N));
    forall i | 0 <= i < N ensures Window(s, N)[i] == Window(t, N)[i] {
    }
  }

  /** The block twist is one-to-one on the 19937 bits of the state. */
  lemma TwistIsInjective(s: seq<bv32>, t: seq<bv32>)
    requires |s| == |t| == N
    ensures SameState(Window(s, N), Window(t, N)) <==> SameState(s, t)
  {
    hide X, Top, Low;
    if SameState(Window(s, N), Window(t, N)) {
      StateGivesWindow(s, t);
      TwistReversible(s, t);
    }
    if SameState(s, t) {
      forall i | 0 <= i < N ensures Window(s, N)[i] == Window(t, N)[i] {
        SameStateSameWords(s, t, N + i);
      }
    }
  }

  /** What the first two words of the state before w were joined to. */
  ghost function JoinBefore(w: seq<bv32>): bv32
    requires |w| == N
  {
    Unshifted(Xor(w[M - 1], w[N - 1]))
  }

  /** A state that one step turns into the state of w. */
  ghost function StepBack(w: seq<bv32>): (s: seq<bv32>)
    requires |w| == N
    ensures |s| == N
  {
    [Joined(JoinBefore(w), 0), Joined(w[0], JoinBefore(w))] + w[1..N - 1]
  }

  lemma JoinedAgain(j: bv32, a: bv32, b: bv32)
    ensures Joined(Joined(j, a), Joined(b, j)) == j
  {
    hide Top, Low, Or;
    JoinedMasks(j, a);
    JoinedMasks(b, j);
    WordFromHalves(j);
  }

  lemma StepBackSteps(w: seq<bv32>)
    requires |w| == N
    ensures SameState(Window(StepBack(w), 1), w)
  {
    hide Shifted, Unshifted, Joined, Top, Low, Xor;
    var s, j := StepBack(w), JoinBefore(w);
    XStep(s, 0);
    assert X(s, N) == Next(s[M], s[0], s[1]) && s[M] == w[M - 1];
    JoinedAgain(j, 0, w[0]);
    ShiftedUnshifted(Xor(w[M - 1], w[N - 1]));
    XorTwice(w[M - 1], w[N - 1]);
    JoinedMasks(w[0], j);
  }

  /** A state that n steps turn into the state of w. */
  ghost function Back(w: seq<bv32>, n: int): (s: seq<bv32>)
    requires |w| == N && 0 <= n
    ensures |s| == N
    decreases n
  {
    if n == 0 then w else Back(StepBack(w), n - 1)
  }

  /** Every state has a state before it, any number of steps back. */
  lemma {:induction false} TwistIsOnto(w: seq<bv32>, n: int)
    requires |w| == N && 0 <= n
    ensures SameState(Window(Back(w, n), n), w)
    decreases n
  {
    hide Next, Top, Low, StepBack;
    if n == 0 {
      assert Window(w, 0) == w;
    } else {
      var b, s := StepBack(w), Back(w, n);
      TwistIsOnto(b, n - 1);
      StepBackSteps(w);
      forall i | 0 <= i < N ensures Window(s, n)[i] == Window(b, 1)[i] {
        WindowGoesOn(s, n - 1, 1 + i);
        SameStateSameWords(Window(s, n - 1), b, 1 + i);
      }
      assert Window(s, n) == Window(b, 1);
    }
  }

  // ---------------------------------------------------------------- the zero state

  /** The state from which the generator would only produce zeros. */
  ghost predicate ZeroState(s: seq<bv32>)
    requires |s| == N
  {
    Top(s[0]) == 0 && forall i :: 1 <= i < N ==> s[i] == 0
  }

  lemma NextIsZero(h: bv32, l: bv32)
    ensures Next(0, h, l) == 0 <==> Top(h) == 0 && Low(l) == 0
  {
    assert Next(0, 0, 0) == 0 && Top(0) == 0 && Low(0) == 0;
    NextParts(0, h, l, 0, 0);
  }

  lemma ZeroBefore(s: seq<bv32>, n: int)
    requires |s| == N && 0 <= n && ZeroState(Window(s, n + 1))
    ensures ZeroState(Window(s, n))
  {
    hide X, Next, Top, Low;
    var w := Window(s, n + 1);
    assert w[N - 1] == X(s, n + N) && w[M - 1] == X(s, n + M) && w[0] == X(s, n + 1);
    XStep(s, n);
    NextIsZero(X(s, n), X(s, n + 1));
    ZeroWord(X(s, n + 1));
    forall i | 1 <= i < N ensures Window(s, n)[i] == 0 {
      if i > 1 {
        assert w[i - 1] == X(s, n + i);
      }
    }
  }

  lemma ZeroWord(x: bv32)
    ensures x == 0 <==> Top(x) == 0 && Low(x) == 0
  {
  }

  /** A state that is not zero never becomes zero. */
  lemma {:induction false} NeverZero(s: seq<bv32>, n: int)
    requires |s| == N && 0 <= n && !ZeroState(s)
    ensures !ZeroState(Window(s, n))
    decreases n
  {
    hide Next, Top, Low;
    if n == 0 {
      assert Window(s, 0) == s;
    } else {
      NeverZero(s, n - 1);
      if ZeroState(Window(s, n)) {
        ZeroBefore(s, n - 1);
      }
    }
  }

  // ---------------------------------------------------------------- tempering

  function Shr11(x: bv32): bv32 {
    x >> 11
  }

  function Shr18(x: bv32): bv32 {
    x >> 18
  }

  function Shr22(x: bv32): bv32 {
    x >> 22
  }

  function Up7(x: bv32): bv32 {
    (x << 7) & 0x9d2c5680
  }

  function Up15(x: bv32): bv32 {
    (x << 15) & 0xefc60000
  }

  /** Spreads the top 21 bits of a word over its lower bits. */
  function Fold11(y: bv32): bv32 {
    Xor(y, Shr11(y))
  }

  /** Spreads low bits upwards by seven places, where the first mask lets them through. */
  function Mask7(y: bv32): bv32 {
    Mask7With(y, y)
  }

  function Mask7With(y: bv32, from: bv32): bv32 {
    y ^ Up7(from)
  }

  /** Spreads low bits upwards by fifteen places, where the second mask lets them through. */
  function Mask15(y: bv32): bv32 {
    Xor(y, Up15(y))
  }

  /** Spreads the top 14 bits of a word over its lowest ones. */
  function Fold18(y: bv32): bv32 {
    Xor(y, Shr18(y))
  }

  /** The tempering of a word of the sequence. */
  function Temper(y: bv32): bv32 {
    Fold18(Mask15(Mask7(Fold11(y))))
  }

  function Unfold11(r: bv32): bv32 {
    Xor(Xor(r, Shr11(r)), Shr22(r))
  }

  /** Each round recovers seven more bits. */
  function Unmask7(r: bv32): bv32 {
    Mask7With(r, Mask7With(r, Mask7With(r, Mask7With(r, r))))
  }

  /** Undoes Temper; two of its steps undo themselves. */
  function Untemper(r: bv32): bv32 {
    Unfold11(Unmask7(Mask15(Fold18(r))))
  }

  // Shifts distribute over exclusive or, and shifting far enough leaves nothing.

  lemma Shr11Xor(x: bv32, y: bv32)
    ensures Shr11(Xor(x, y)) == Xor(Shr11(x), Shr11(y))
  {
  }

  lemma Shr18Xor(x: bv32, y: bv32)
    ensures Shr18(Xor(x, y)) == Xor(Shr18(x), Shr18(y))
  {
  }

  lemma Shr22Xor(x: bv32, y: bv32)
    ensures Shr22(Xor(x, y)) == Xor(Shr22(x), Shr22(y))
  {
  }

  lemma ShrShr(x: bv32)
    ensures Shr11(Shr11(x)) == Shr22(x)
    ensures Shr11(Shr22(x)) == 0 && Shr22(Shr11(x)) == 0 && Shr18(Shr18(x)) == 0
  {
  }

  lemma XorAssoc(x: bv32, y: bv32, z: bv32)
    ensures Xor(Xor(x, y), z) == Xor(x, Xor(y, z))
  {
  }

  lemma XorSelf(x: bv32)
    ensures Xor(x, x) == 0 && Xor(x, 0) == x && Xor(0, x) == x
  {
  }

  /** Equal neighbours cancel. */
  lemma XorCancel(x: bv32, y: bv32, z: bv32)
    ensures Xor(Xor(x, y), Xor(y, z)) == Xor(x, z)
  {
    hide Xor;
    XorAssoc(x, y, Xor(y, z));
    XorTwice(y, z);
  }

  lemma Fold18Twice(y: bv32)
    ensures Fold18(Fold18(y)) == y
  {
    hide Xor, Shr18;
    Shr18Xor(y, Shr18(y));
    ShrShr(y);
    XorCancel(y, Shr18(y), 0);
    XorSelf(y);
  }

  lemma UnfoldFold11(y: bv32)
    ensures Unfold11(Fold11(y)) == y
  {
    hide Xor, Shr11, Shr22;
    Shr11Xor(y, Shr11(y));
    Shr22Xor(y, Shr11(y));
    ShrShr(y);
    XorCancel(y, Shr11(y), Shr22(y));
    XorCancel(y, Shr22(y), 0);
    XorSelf(y);
  }

  lemma FoldUnfold11(r: bv32)
    ensures Fold11(Unfold11(r)) == r
  {
    hide Xor, Shr11, Shr22;
    Shr11Xor(Xor(r, Shr11(r)), Shr22(r));
    Shr11Xor(r, Shr11(r));
    ShrShr(r);
    XorSelf(Xor(Shr11(r), Shr22(r)));
    XorAssoc(r, Shr11(r), Shr22(r));
    XorCancel(r, Xor(Shr11(r), Shr22(r)), 0);
    XorSelf(r);
  }

  lemma Mask15Twice(y: bv32)
    ensures Mask15(Mask15(y)) == y
  {
  }

  lemma UnmaskMask7(y: bv32)
    ensures Unmask7(Mask7(y)) == y
  {
  }

  lemma MaskUnmask7(r: bv32)
    ensures Mask7(Unmask7(r)) == r
  {
  }

  /** Tempering is a bijection on 32-bit words. */
  lemma TemperBijective(x: bv32)
    ensures Untemper(Temper(x)) == x
    ensures Temper(Untemper(x)) == x
  {
    hide Fold11, Mask7, Mask15, Fold18, Unfold11, Unmask7;
    UnfoldFold11(x);
    UnmaskMask7(Fold11(x));
    Mask15Twice(Mask7(Fold11(x)));
    Fold18Twice(Mask15(Mask7(Fold11(x))));
    Fold18Twice(x);
    Mask15Twice(Fold18(x));
    MaskUnmask7(Mask15(Fold18(x)));
    FoldUnfold11(Unmask7(Mask15(Fold18(x))));
  }

  // ---------------------------------------------------------------- linearity

  /** A step is linear in its three words. */
  lemma NextLinear(f: bv32, h: bv32, l: bv32, f': bv32, h': bv32, l': bv32)
    ensures Next(Xor(f, f'), Xor(h, h'), Xor(l, l')) == Xor(Next(f, h, l), Next(f', h', l'))
  {
    hide Xor, Joined, Shifted;
    JoinedLinear(h, l, h', l');
    ShiftedLinear(Joined(h, l), Joined(h', l'));
    XorPairs(f, f', Twist(h, l), Twist(h', l'));
  }

  lemma JoinedLinear(h: bv32, l: bv32, h': bv32, l': bv32)
    ensures Joined(Xor(h, h'), Xor(l, l')) == Xor(Joined(h, l), Joined(h', l'))
  {
    hide Xor, Or, Top, Low;
    MasksXor(h, h');
    MasksXor(l, l');
    HalvesApart(h, l);
    HalvesApart(h', l');
    HalvesApart(Xor(h, h'), Xor(l, l'));
    XorPairs(Top(h), Top(h'), Low(l), Low(l'));
  }

  lemma MasksXor(x: bv32, y: bv32)
    ensures Top(Xor(x, y)) == Xor(Top(x), Top(y)) && Low(Xor(x, y)) == Xor(Low(x), Low(y))
  {
  }

  lemma HalvesApart(h: bv32, l: bv32)
    ensures Or(Top(h), Low(l)) == Xor(Top(h), Low(l))
  {
    hide Top, Low, Or, Xor;
    JoinedMasks(h, l);
    MasksXor(Top(h), Low(l));
    MaskedHalves(h, l);
    XorSelf(Top(h));
    XorSelf(Low(l));
    HalvesMakeWord(Or(Top(h), Low(l)), Xor(Top(h), Low(l)));
  }

  lemma MaskedHalves(h: bv32, l: bv32)
    ensures Top(Top(h)) == Top(h) && Low(Low(l)) == Low(l) && Top(Low(l)) == 0 && Low(Top(h)) == 0
  {
  }

  lemma ShiftedLinear(y: bv32, y': bv32)
    ensures Shifted(Xor(y, y')) == Xor(Shifted(y), Shifted(y'))
  {
    hide Xor, Half, Odd;
    HalfXor(y, y');
    var a, b := if Odd(y) then MATRIX_A else 0, if Odd(y') then MATRIX_A else 0;
    XorSelf(MATRIX_A);
    XorSelf(0);
    XorPairs(Half(y), Half(y'), a, b);
  }

  lemma HalfXor(x: bv32, y: bv32)
    ensures Half(Xor(x, y)) == Xor(Half(x), Half(y))
    ensures Odd(Xor(x, y)) <==> Odd(x) != Odd(y)
  {
  }

  /** Its values where only one of the three words is not zero. */
  lemma NextAtBits(x: bv32)
    ensures Next(x, 0, 0) == x
    ensures Next(0, x, 0) == if x < 0x80000000 then 0 else 0x40000000
    ensures Next(0, 0, 1) == 0x9908b0df && Next(0, 0, 0x80000000) == 0
    ensures x < 0x40000000 ==> Next(0, 0, 2 * x) == x
  {
  }

  /** Tempering is linear, and so fixed by what it makes of the 32 words with a single bit set. */
  lemma TemperLinear(a: bv32, b: bv32)
    ensures Temper(Xor(a, b)) == Xor(Temper(a), Temper(b))
  {
    hide Fold11, Mask7, Mask15, Fold18, Xor;
    TemperStepsLinear(a, b);
    var a1, b1 := Fold11(a), Fold11(b);
    TemperStepsLinear(a1, b1);
    var a2, b2 := Mask7(a1), Mask7(b1);
    TemperStepsLinear(a2, b2);
    TemperStepsLinear(Mask15(a2), Mask15(b2));
  }

  lemma TemperStepsLinear(a: bv32, b: bv32)
    ensures Fold11(Xor(a, b)) == Xor(Fold11(a), Fold11(b)) && Fold18(Xor(a, b)) == Xor(Fold18(a), Fold18(b))
    ensures Mask7(Xor(a, b)) == Xor(Mask7(a), Mask7(b)) && Mask15(Xor(a, b)) == Xor(Mask15(a), Mask15(b))
  {
    hide Xor, Shr11, Shr18, Up7, Up15, Mask7;
    Shr11Xor(a, b);
    XorPairs(a, b, Shr11(a), Shr11(b));
    Shr18Xor(a, b);
    XorPairs(a, b, Shr18(a), Shr18(b));
    Mask7Adds(a);
    Mask7Adds(b);
    Mask7Adds(Xor(a, b));
    Up7Xor(a, b);
    XorPairs(a, b, Up7(a), Up7(b));
    Up15Xor(a, b);
    XorPairs(a, b, Up15(a), Up15(b));
  }

  lemma Mask7Adds(y: bv32)
    ensures Mask7(y) == Xor(y, Up7(y))
  {
    hide Up7;
  }

  lemma Up7Xor(x: bv32, y: bv32)
    ensures Up7(Xor(x, y)) == Xor(Up7(x), Up7(y))
  {
  }

  lemma Up15Xor(x: bv32, y: bv32)
    ensures Up15(Xor(x, y)) == Xor(Up15(x), Up15(y))
  {
  }

  lemma XorSwap(x: bv32, y: bv32)
    ensures Xor(x, y) == Xor(y, x)
  {
  }

  lemma XorPairs(a: bv32, b: bv32, c: bv32, d: bv32)
    ensures Xor(Xor(a, b), Xor(c, d)) == Xor(Xor(a, c), Xor(b, d))
  {
    hide Xor;
    XorAssoc(a, b, Xor(c, d));
    XorAssoc(b, c, d);
    XorSwap(b, c);
    XorAssoc(c, b, d);
    XorAssoc(a, c, Xor(b, d));
  }

  // Its values at these words.

  lemma TemperLowestByte()
    ensures Temper(0x1) == 0x400091 && Temper(0x2) == 0x2 && Temper(0x4) == 0x1020244 && Temper(0x8) == 0x2040489
    ensures Temper(0x10) == 0x10 && Temper(0x20) == 0x8001220 && Temper(0x40) == 0x40 && Temper(0x80) == 0x20404890
  {
  }

  lemma TemperSecondByte()
    ensures Temper(0x100) == 0x800120 && Temper(0x200) == 0x1000240
    ensures Temper(0x400) == 0x2000480 && Temper(0x800) == 0x4440990
    ensures Temper(0x1000) == 0x8081200 && Temper(0x2000) == 0x1022244
    ensures Temper(0x4000) == 0x22244c81 && Temper(0x8000) == 0x40009010
  {
  }

  lemma TemperThirdByte()
    ensures Temper(0x10000) == 0x88013220 && Temper(0x20000) == 0x1020000
    ensures Temper(0x40000) == 0x20444891 && Temper(0x80000) == 0x4880022
    ensures Temper(0x100000) == 0x9100044 && Temper(0x200000) == 0x12200088
    ensures Temper(0x400000) == 0x4440911 && Temper(0x800000) == 0x8881222
  {
  }

  lemma TemperTopByte()
    ensures Temper(0x1000000) == 0x81000040 && Temper(0x2000000) == 0x22204888
    ensures Temper(0x4000000) == 0x44009100 && Temper(0x8000000) == 0x88012200
    ensures Temper(0x10000000) == 0x11020440 && Temper(0x20000000) == 0x20040801
    ensures Temper(0x40000000) == 0x44081102 && Temper(0x80000000) == 0x88102204
  {
  }

  /** Result i of a generator seeded with the state s. */
  ghost function Output(s: seq<bv32>, i: int): bv32
    requires |s| == N && 0 <= i
  {
    Temper(X(s, N + i))
  }

  /** The state behind N consecutive results. */
  ghost function Recovered(results: seq<bv32>): (w: seq<bv32>)
    requires |results| == N
    ensures |w| == N && forall i :: 0 <= i < N ==> w[i] == Untemper(results[i])
  {
    seq(N, i requires 0 <= i < N => Untemper(results[i]))
  }

  /** Any N consecutive results reveal the state, and with it every later result. */
  lemma ResultsRevealState(s: seq<bv32>, n: int, results: seq<bv32>, k: int)
    requires |s| == |results| == N && 0 <= n && 0 <= k
    requires forall i :: 0 <= i < N ==> results[i] == Output(s, n + i)
    ensures Recovered(results) == Window(s, N + n)
    ensures Output(s, n + k) == Temper(X(Recovered(results), k))
  {
    hide X, Temper, Untemper;
    forall i | 0 <= i < N ensures Recovered(results)[i] == Window(s, N + n)[i] {
      TemperBijective(X(s, N + n + i));
    }
    WindowGoesOn(s, N + n, k);
  }

  // ---------------------------------------------------------------- seeding

  function Word(i: int): bv32
    requires 0 <= i < 0x1_0000_0000
  {
    i as bv32
  }

  function Spread(x: bv32, multiplier: bv32): bv32 {
    (x ^ (x >> 30)) * multiplier
  }

  lemma WordIs(i: int)
    requires 0 <= i < 0x1_0000_0000
    ensures Word(i) == i as bv32
  {
  }

  /** A word with its top two bits added to the lowest ones, times a constant. */
  lemma SpreadIs(x: bv32, multiplier: bv32)
    ensures Spread(x, multiplier) == (x ^ (x >> 30)) * multiplier
  {
  }

  /** Word i of the seeded state from the word before it. */
  function NextSeed(before: bv32, i: int): bv32
    requires 0 <= i < N
  {
    Spread(before, 1812433253) + Word(i)
  }

  /** Word i of the state that init_genrand(s) sets up. */
  ghost function SeedWord(s: bv32, i: int): bv32
    requires 0 <= i < N
  {
    if i == 0 then s else NextSeed(SeedWord(s, i - 1), i)
  }

  lemma SeedStep(s: bv32, i: int)
    requires 1 <= i < N
    ensures SeedWord(s, 0) == s && SeedWord(s, i) == NextSeed(SeedWord(s, i - 1), i)
  {
    hide NextSeed;
  }

  ghost function Seeded(s: bv32): (w: seq<bv32>)
    ensures |w| == N && forall i :: 0 <= i < N ==> w[i] == SeedWord(s, i)
  {
    seq(N, i requires 0 <= i < N => SeedWord(s, i))
  }

  /** One step of init_genrand in numbers. */
  ghost predicate SeedFollows(w: bv32, before: bv32, i: int)
    requires 0 <= i < 624
  {
    w == Spread(before, 1812433253) + Word(i)
  }

  lemma NextSeedFollows(before: bv32, i: int)
    requires 0 <= i < N
    ensures SeedFollows(NextSeed(before, i), before, i)
  {
    hide Spread, Word;
  }

  /** Word 0 is the seed, and each other word follows from the one before it. */
  ghost predicate SeededWith(w: seq<bv32>, s: bv32) {
    |w| == 624 && w[0] == s && forall i :: 1 <= i < 624 ==> SeedFollows(w[i], w[i - 1], i)
  }

  lemma SeededFollows(s: bv32)
    ensures SeededWith(Seeded(s), s)
  {
    hide NextSeed, SeedFollows;
    forall i | 1 <= i < N ensures SeedFollows(Seeded(s)[i], Seeded(s)[i - 1], i) {
      SeedStep(s, i);
      NextSeedFollows(SeedWord(s, i - 1), i);
    }
  }

  /** No seed gives the zero state: a zero word 1 is followed by a word 2 of value 2. */
  lemma SeededNotZero(s: bv32)
    ensures !ZeroState(Seeded(s))
  {
    hide NextSeed;
    if SeedWord(s, 1) == 0 {
      assert SeedWord(s, 2) == NextSeed(SeedWord(s, 1), 2);
      SecondAfterZero();
      assert Seeded(s)[2] == 2;
    }
  }

  lemma SecondAfterZero()
    ensures NextSeed(0, 2) == 2
  {
    assert Word(2) == 2;
  }

  /** Step k of either pass of init_by_array works on this word; word 0 is only ever a copy of the last. */
  function Place(k: int): (i: int)
    requires 0 <= k
    ensures 1 <= i < N
  {
    1 + k % (N - 1)
  }

  lemma FirstPlace()
    ensures Place(0) == 1
  {
  }

  lemma PlaceNext(k: int)
    requires 0 <= k
    ensures Place(k + 1) == if Place(k) + 1 >= N then 1 else Place(k) + 1
  {
  }

  /** The key word of step k: the key is used over and over. */
  function KeyIndex(k: int, len: int): (j: int)
    requires 0 <= k && 1 <= len
    ensures 0 <= j < len
  {
    k % len
  }

  lemma KeyIndexNext(k: int, len: int)
    requires 0 <= k && 1 <= len
    ensures KeyIndex(0, len) == 0
    ensures KeyIndex(k + 1, len) == if KeyIndex(k, len) + 1 >= len then 0 else KeyIndex(k, len) + 1
  {
    Arithmetic.ModNext(k, len);
    Arithmetic.ModIs(0, len, 0, 0);
  }

  function MixKey(w: bv32, before: bv32, key: bv32, j: int): bv32
    requires 0 <= j < 0x8000_0000
  {
    (w ^ Spread(before, 1664525)) + key + Word(j)
  }

  function MixPlace(w: bv32, before: bv32, i: int): bv32
    requires 0 <= i < N
  {
    (w ^ Spread(before, 1566083941)) - Word(i)
  }

  /** Stores word i; after the last word the first becomes a copy of it. */
  ghost function Stored(w: seq<bv32>, i: int, v: bv32): (r: seq<bv32>)
    requires |w| == N && 1 <= i < N
    ensures |r| == N
  {
    if i == N - 1 then w[i := v][0 := v] else w[i := v]
  }

  /** The state after k steps of the first pass: step k mixes word Place(k) with key word KeyIndex(k). */
  ghost function KeyPass(key: seq<bv32>, k: int): (w: seq<bv32>)
    requires 1 <= |key| < 0x8000_0000 && 0 <= k
    ensures |w| == N
  {
    if k == 0 then Seeded(19650218) else
      var w, i, j := KeyPass(key, k - 1), Place(k - 1), KeyIndex(k - 1, |key|);
      Stored(w, i, MixKey(w[i], w[i - 1], key[j], j))
  }

  lemma KeyPassStep(key: seq<bv32>, k: int)
    requires 1 <= |key| < 0x8000_0000 && 0 <= k
    ensures KeyPass(key, 0) == Seeded(19650218)
    ensures var w, i, j := KeyPass(key, k), Place(k), KeyIndex(k, |key|);
            KeyPass(key, k + 1) == Stored(w, i, MixKey(w[i], w[i - 1], key[j], j))
  {
    hide MixKey, Stored, Place, KeyIndex, Seeded;
  }

  /** The state after k steps of the second pass over the words, which goes on from step n. */
  ghost function PlacePass(w: seq<bv32>, n: int, k: int): (r: seq<bv32>)
    requires |w| == N && 0 <= n && 0 <= k
    ensures |r| == N
  {
    if k == 0 then w else
      var r, i := PlacePass(w, n, k - 1), Place(n + k - 1);
      Stored(r, i, MixPlace(r[i], r[i - 1], i))
  }

  function KeySteps(len: int): int {
    if N > len then N else len
  }

  /** The state that init_by_array sets up. */
  ghost function SeededByKey(key: seq<bv32>): (w: seq<bv32>)
    requires 1 <= |key| < 0x8000_0000
    ensures |w| == N && !ZeroState(w)
  {
    PlacePass(KeyPass(key, KeySteps(|key|)), KeySteps(|key|), N - 1)[0 := 0x80000000]
  }

  // ---------------------------------------------------------------- init_by_array in numbers

  /** Word i was stored; word 0 is a copy of word 623 once that has been stored. */
  ghost predicate OneStored(w: seq<bv32>, w': seq<bv32>, i: int) {
    && |w| == |w'| == 624 && 1 <= i < 624
    && (forall m :: 1 <= m < 624 && m != i ==> w'[m] == w[m]) && w'[0] == if i == 623 then w'[623] else w[0]
  }

  ghost predicate KeyMixed(v: bv32, w: bv32, before: bv32, key: bv32, j: int)
    requires 0 <= j < 0x8000_0000
  {
    v == (w ^ Spread(before, 1664525)) + key + Word(j)
  }

  ghost predicate PlaceMixed(v: bv32, w: bv32, before: bv32, i: int)
    requires 0 <= i < 624
  {
    v == (w ^ Spread(before, 1566083941)) - Word(i)
  }

  /** Step k of the first pass: words 1 to 623 and the words of the key are gone through in turn. */
  ghost predicate KeyStep(w: seq<bv32>, w': seq<bv32>, key: seq<bv32>, k: int)
    requires 1 <= |key| < 0x8000_0000 && 0 <= k
  {
    var i, j := 1 + k % 623, k % |key|;
    OneStored(w, w', i) && KeyMixed(w'[i], w[i], w[i - 1], key[j], j)
  }

  /** Step k of both passes together, when it belongs to the second one. */
  ghost predicate PlaceStep(w: seq<bv32>, w': seq<bv32>, k: int)
    requires 0 <= k
  {
    var i := 1 + k % 623;
    OneStored(w, w', i) && PlaceMixed(w'[i], w[i], w[i - 1], i)
  }

  lemma MixKeyMixes(w: bv32, before: bv32, key: bv32, j: int)
    requires 0 <= j < 0x8000_0000
    ensures KeyMixed(MixKey(w, before, key, j), w, before, key, j)
  {
    hide Spread, Word;
  }

  lemma MixPlaceMixes(w: bv32, before: bv32, i: int)
    requires 0 <= i < N
    ensures PlaceMixed(MixPlace(w, before, i), w, before, i)
  {
    hide Spread, Word;
  }

  lemma StoredIsOne(w: seq<bv32>, i: int, v: bv32)
    requires |w| == N && 1 <= i < N
    ensures OneStored(w, Stored(w, i, v), i) && Stored(w, i, v)[i] == v
  {
  }

  lemma KeyPassMixes(key: seq<bv32>, k: int)
    requires 1 <= |key| < 0x8000_0000 && 0 <= k
    ensures KeyStep(KeyPass(key, k), KeyPass(key, k + 1), key, k)
  {
    hide MixKey, KeyMixed, KeyPass, OneStored, Stored;
    KeyPassStep(key, k);
    var w, i, j := KeyPass(key, k), Place(k), KeyIndex(k, |key|);
    MixKeyMixes(w[i], w[i - 1], key[j], j);
    StoredIsOne(w, i, MixKey(w[i], w[i - 1], key[j], j));
  }

  lemma PlacePassMixes(w: seq<bv32>, n: int, k: int)
    requires |w| == N && 0 <= n && 0 <= k
    ensures PlaceStep(PlacePass(w, n, k), PlacePass(w, n, k + 1), n + k)
  {
    hide MixPlace, PlaceMixed, OneStored, Stored;
    var r, i := PlacePass(w, n, k), Place(n + k);
    MixPlaceMixes(r[i], r[i - 1], i);
    StoredIsOne(r, i, MixPlace(r[i], r[i - 1], i));
  }

  /** The arrays of a run of init_by_array: seeded, after each step of the passes, and at last with word 0 replaced. */
  ghost predicate MixedBy(trace: seq<seq<bv32>>, key: seq<bv32>, w: seq<bv32>)
    requires 1 <= |key| < 0x8000_0000
  {
    var first := if |key| < 624 then 624 else |key|;
    && |trace| == first + 624 && SeededWith(trace[0], 19650218)
    && (forall k :: 0 <= k < first ==> KeyStep(trace[k], trace[k + 1], key, k))
    && (forall k :: first <= k < first + 623 ==> PlaceStep(trace[k], trace[k + 1], k))
    && |w| == |trace[first + 623]| == 624 && w == trace[first + 623][0 := 0x80000000]
  }

  /** The array after k steps of both passes together. */
  ghost function AfterSteps(key: seq<bv32>, k: int): (w: seq<bv32>)
    requires 1 <= |key| < 0x8000_0000 && 0 <= k
    ensures |w| == N
  {
    var first := KeySteps(|key|);
    if k <= first then KeyPass(key, k) else PlacePass(KeyPass(key, first), first, k - first)
  }

  ghost function Trace(key: seq<bv32>): (trace: seq<seq<bv32>>)
    requires 1 <= |key| < 0x8000_0000
    ensures |trace| == KeySteps(|key|) + N
    ensures forall k :: 0 <= k < |trace| ==> trace[k] == AfterSteps(key, k)
  {
    seq(KeySteps(|key|) + N, k requires 0 <= k => AfterSteps(key, k))
  }

  lemma TraceKeyStep(key: seq<bv32>, k: int)
    requires 1 <= |key| < 0x8000_0000 && 0 <= k < KeySteps(|key|)
    ensures KeyStep(Trace(key)[k], Trace(key)[k + 1], key, k)
  {
    hide KeyStep, KeyPass, PlacePass, Trace;
    KeyPassMixes(key, k);
  }

  lemma TracePlaceStep(key: seq<bv32>, k: int)
    requires 1 <= |key| < 0x8000_0000 && 0 <= k < N - 1
    ensures var at := KeySteps(|key|) + k; PlaceStep(Trace(key)[at], Trace(key)[at + 1], at)
  {
    hide PlaceStep, KeyPass, Trace;
    var first := KeySteps(|key|);
    PlacePassMixes(KeyPass(key, first), first, k);
  }

  lemma TraceMixes(key: seq<bv32>)
    requires 1 <= |key| < 0x8000_0000
    ensures MixedBy(Trace(key), key, SeededByKey(key))
  {
    hide KeyStep, PlaceStep, KeyPass, PlacePass, SeededWith, Seeded, Trace;
    var trace, first := Trace(key), KeySteps(|key|);
    KeyPassStep(key, 0);
    SeededFollows(19650218);
    forall k | 0 <= k < first ensures KeyStep(trace[k], trace[k + 1], key, k) {
      TraceKeyStep(key, k);
    }
    forall k | first <= k < first + 623 ensures PlaceStep(trace[k], trace[k + 1], k) {
      TracePlaceStep(key, k - first);
    }
    assert trace[first + 623] == PlacePass(KeyPass(key, first), first, N - 1);
  }

  /** The first 623 steps of the first pass: word m is mixed at step m - 1. */
  lemma {:induction false} FirstSteps(trace: seq<seq<bv32>>, key: seq<bv32>, t: int)
    requires 1 <= |key| <= 624 && |trace| > 623 && |trace[0]| == 624 && 1 <= t <= 623
    requires forall k :: 0 <= k < 623 ==> KeyStep(trace[k], trace[k + 1], key, k)
    ensures |trace[t]| == 624 && trace[t][0] == if t == 623 then trace[t][623] else trace[0][0]
    ensures forall m :: t < m < 624 ==> trace[t][m] == trace[0][m]
    ensures |trace[1]| == 624 && trace[t][1] == trace[1][1]
    ensures KeyMixed(trace[1][1], trace[0][1], trace[0][0], key[0], 0)
    ensures forall m :: 2 <= m <= t ==>
              KeyMixed(trace[t][m], trace[0][m], trace[t][m - 1], key[(m - 1) % |key|], (m - 1) % |key|)
    decreases t
  {
    hide KeyMixed;
    if t == 1 {
      Arithmetic.ModIs(0, 623, 0, 0);
      Arithmetic.ModIs(0, |key|, 0, 0);
      assert KeyStep(trace[0], trace[1], key, 0);
    } else {
      FirstSteps(trace, key, t - 1);
      Arithmetic.ModIs(t - 1, 623, 0, t - 1);
      assert KeyStep(trace[t - 1], trace[t], key, t - 1);
    }
  }

  /** The first 622 steps of a second pass that begins at word 2. */
  lemma {:induction false} LaterSteps(trace: seq<seq<bv32>>, t: int)
    requires |trace| > 1246 && |trace[624]| == 624 && 1 <= t <= 622
    requires forall k :: 624 <= k < 1246 ==> PlaceStep(trace[k], trace[k + 1], k)
    ensures var w, r := trace[624], trace[624 + t];
            && |r| == 624 && r[1] == w[1] && (t == 622 ==> r[0] == r[623])
            && (forall m :: t + 1 < m < 624 ==> r[m] == w[m]) && PlaceMixed(r[2], w[2], w[1], 2)
            && forall m :: 3 <= m <= t + 1 ==> PlaceMixed(r[m], w[m], r[m - 1], m)
    decreases t
  {
    hide PlaceMixed;
    if t > 1 {
      LaterSteps(trace, t - 1);
    }
    Arithmetic.ModIs(623 + t, 623, 1, t);
    assert PlaceStep(trace[623 + t], trace[624 + t], 623 + t);
  }

  /**
   init_by_array with a key of at most 624 words, by the arrays before, between and after the passes: each word is
   mixed with the word before it, as that is after the same pass; words 1 and 2 are where the passes meet.
   */
  lemma ShortKeyWords(trace: seq<seq<bv32>>, key: seq<bv32>, w: seq<bv32>)
    requires 1 <= |key| <= 624 && MixedBy(trace, key, w)
    ensures |trace| == 1248 && |trace[0]| == |trace[1]| == |trace[624]| == |w| == 624 && w[0] == 0x80000000
    ensures var w0, w1, once := trace[0], trace[624], trace[1][1];
            && KeyMixed(once, w0[1], w0[0], key[0], 0)
            && KeyMixed(w1[1], once, w1[623], key[623 % |key|], 623 % |key|)
            && KeyMixed(w1[2], w0[2], once, key[1 % |key|], 1 % |key|)
            && (forall m :: 3 <= m < 624 ==> KeyMixed(w1[m], w0[m], w1[m - 1], key[(m - 1) % |key|], (m - 1) % |key|))
            && PlaceMixed(w[1], w1[1], w[623], 1) && PlaceMixed(w[2], w1[2], w1[1], 2)
            && forall m :: 3 <= m < 624 ==> PlaceMixed(w[m], w1[m], w[m - 1], m)
  {
    hide KeyMixed, PlaceMixed, SeedFollows;
    FirstSteps(trace, key, 623);
    Arithmetic.ModIs(623, 623, 1, 0);
    assert KeyStep(trace[623], trace[624], key, 623);
    LaterSteps(trace, 622);
    Arithmetic.ModIs(1246, 623, 2, 0);
    assert PlaceStep(trace[1246], trace[1247], 1246);
  }

  class Generator {
    const mt: array<bv32>
    var mti: int
    /** The state set up by the last seeding, and the word of its sequence that mt begins with. */
    ghost var seed: seq<bv32>
    ghost var base: int

    predicate Seedless()
      reads this`mti
    {
      mti == N + 1
    }

    ghost predicate Valid()
      reads this, mt
    {
      && mt.Length == N
      && (Seedless() || (0 <= mti <= N && |seed| == N && !ZeroState(seed) && 0 <= base && N <= base + mti
                         && forall i :: 0 <= i < N ==> mt[i] == X(seed, base + i)))
    }

    /** The number of results since the last seeding. */
    ghost function Drawn(): int
      reads this
    {
      base + mti - N
    }

    constructor ()
      ensures Valid() && Seedless() && fresh(mt)
    {
      mt := new bv32[N](_ => 0);
      mti := N + 1;
    }

    /** In no reachable state is the seeded generator in the zero state. */
    lemma NotZero()
      requires Valid() && !Seedless()
      ensures !ZeroState(mt[..])
    {
      hide X, Top;
      NeverZero(seed, base);
      assert mt[..] == Window(seed, base);
    }

    /** Takes the array for the state that the sequence begins with. */
    ghost method Adopt()
      requires mt.Length == N && mti == N && !ZeroState(mt[..])
      modifies this`seed, this`base
      ensures Valid() && seed == mt[..] && base == 0
    {
      hide Next, ZeroState;
      seed, base := mt[..], 0;
    }

    method InitGenrand(s: bv32)
      requires Valid()
      modifies this, mt
      ensures Valid() && !Seedless() && seed == mt[..] == Seeded(s) && mti == N && base == 0
      ensures SeededWith(mt[..], s)
    {
      hide NextSeed, ZeroState, SeedWord, Next, SeededWith;
      SeededFollows(s);
      SeedStep(s, 1);
      mt[0] := s;
      mti := 1;
      while mti < N
        invariant 1 <= mti <= N
        invariant forall i :: 0 <= i < mti ==> mt[i] == SeedWord(s, i)
      {
        SeedStep(s, mti);
        mt[mti] := NextSeed(mt[mti - 1], mti);
        mti := mti + 1;
      }
      SeededNotZero(s);
      assert mt[..] == Seeded(s);
      Adopt();
    }

    method StoreWord(i: int, v: bv32)
      requires mt.Length == N && 1 <= i < N
      modifies mt
      ensures mt[..] == Stored(old(mt[..]), i, v)
    {
      mt[i] := v;
      if i + 1 >= N {
        mt[0] := mt[N - 1];
      }
    }

    /** The first pass of init_by_array. */
    method MixKeys(key: array<bv32>) returns (i: int)
      requires mt.Length == N && mt[..] == Seeded(19650218)
      requires key != mt && 1 <= key.Length < 0x8000_0000
      modifies mt
      ensures mt[..] == KeyPass(key[..], KeySteps(key.Length)) && i == Place(KeySteps(key.Length))
    {
      hide MixKey, Seeded, Stored, KeyIndex, Place, KeyPass;
      KeyIndexNext(0, key.Length);
      KeyPassStep(key[..], 0);
      assert Place(0) == 1 by {
        FirstPlace();
      }
      var j, k := 0, KeySteps(key.Length);
      i := 1;
      ghost var n := 0;
      while k > 0
        invariant 0 <= k == KeySteps(key.Length) - n && 0 <= n
        invariant i == Place(n) && j == KeyIndex(n, key.Length)
        invariant mt[..] == KeyPass(key[..], n)
      {
        KeyIndexNext(n, key.Length);
        PlaceNext(n);
        KeyPassStep(key[..], n);
        StoreWord(i, MixKey(mt[i], mt[i - 1], key[j], j));
        i, j, k, n := i + 1, j + 1, k - 1, n + 1;
        if i >= N {
          i := 1;
        }
        if j >= key.Length {
          j := 0;
        }
      }
    }

    /** The second pass of init_by_array, from the place that the first pass reached. */
    method MixPlaces(start: int, ghost n: int)
      requires mt.Length == N && 0 <= n && start == Place(n)
      modifies mt
      ensures mt[..] == PlacePass(old(mt[..]), n, N - 1)
    {
      hide MixPlace, Stored, Place;
      ghost var w := mt[..];
      var i, k := start, N - 1;
      while k > 0
        invariant 0 <= k <= N - 1 && i == Place(n + (N - 1 - k))
        invariant mt[..] == PlacePass(w, n, N - 1 - k)
      {
        PlaceNext(n + (N - 1 - k));
        StoreWord(i, MixPlace(mt[i], mt[i - 1], i));
        i, k := i + 1, k - 1;
        if i >= N {
          i := 1;
        }
      }
    }

    method MixAll(key: array<bv32>)
      requires mt.Length == N && mt[..] == Seeded(19650218)
      requires key != mt && 1 <= key.Length < 0x8000_0000
      modifies mt
      ensures mt[..] == SeededByKey(key[..])
    {
      hide PlacePass, KeyPass, Seeded, ZeroState, Place;
      var i := MixKeys(key);
      MixPlaces(i, KeySteps(key.Length));
      mt[0] := 0x80000000;
    }

    /** The trace holds the arrays that the two passes go through. */
    method InitByArray(key: array<bv32>) returns (ghost trace: seq<seq<bv32>>)
      requires Valid() && key != mt && 1 <= key.Length < 0x8000_0000
      modifies this, mt
      ensures Valid() && !Seedless() && seed == mt[..] == SeededByKey(key[..]) && mti == N && base == 0
      ensures MixedBy(trace, key[..], mt[..])
    {
      hide X, Seeded, SeededByKey, ZeroState, MixedBy, SeededWith, Trace;
      ghost var words := key[..];
      trace := Trace(words);
      TraceMixes(words);
      InitGenrand(19650218);
      MixAll(key);
      Adopt();
    }

    /** The array holds words base + N .. of the sequence up to index kk, and words base .. from there on. */
    ghost predicate TwistedTo(kk: int)
      requires |seed| == N && 0 <= base
      reads this, mt
    {
      && mt.Length == N
      && (forall i :: 0 <= i < kk && i < N ==> mt[i] == X(seed, base + N + i))
      && (forall i :: kk <= i < N && 0 <= i ==> mt[i] == X(seed, base + i))
    }

    /** One assignment of the twist; far is the word 397 places on, which may have been rebuilt already. */
    method TwistWord(kk: int, far: int, next: int)
      requires |seed| == N && 0 <= base && 0 <= kk < N && TwistedTo(kk)
      requires far == (if kk < N - M then kk + M else kk + (M - N)) && next == (if kk < N - 1 then kk + 1 else 0)
      modifies mt
      ensures TwistedTo(kk + 1)
    {
      hide Next, X;
      XStep(seed, base + kk);
      mt[kk] := Next(mt[far], mt[kk], mt[next]);
    }

    /** Rebuilds the array: it then holds the next N words of the sequence. */
    method Regenerate()
      requires Valid() && !Seedless()
      modifies mt, this`base
      ensures mt.Length == N && base == old(base) + N
      ensures forall i :: 0 <= i < N ==> mt[i] == X(seed, base + i)
    {
      hide Next, ZeroState;
      var kk := 0;
      while kk < N - M
        invariant base == old(base) && 0 <= kk <= N - M && TwistedTo(kk)
      {
        TwistWord(kk, kk + M, kk + 1);
        kk := kk + 1;
      }
      while kk < N - 1
        invariant base == old(base) && N - M <= kk <= N - 1 && TwistedTo(kk)
      {
        TwistWord(kk, kk + (M - N), kk + 1);
        kk := kk + 1;
      }
      TwistWord(N - 1, M - 1, 0);
      base := base + N;
    }

    /** The results are the tempered words of the recurrence, in order. */
    method GenrandInt32() returns (y: bv32)
      requires Valid()
      modifies this, mt
      ensures Valid() && !Seedless()
      ensures seed == if old(Seedless()) then Seeded(5489) else old(seed)
      ensures Drawn() == if old(Seedless()) then 1 else old(Drawn()) + 1
      ensures 1 <= Drawn() && |seed| == 624 && y == Output(seed, Drawn() - 1) == Temper(X(seed, 624 + (Drawn() - 1)))
    {
      hide X, Temper, ZeroState;
      if mti >= N {
        if mti == N + 1 {
          InitGenrand(5489);
        }
        Regenerate();
        mti := 0;
      }
      y := Temper(mt[mti]);
      mti := mti + 1;
      assert Drawn() - 1 + N == base + (mti - 1);
    }
  }
}
