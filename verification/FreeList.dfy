/**
 The free list of one page, as a value: an address-ordered sequence of blocks.

 A list is canonical when its blocks are ordered, in bounds and fully coalesced
 (a gap of at least one unit separates neighbours).  The canonical list of a set
 of free units is unique, so what an operation does to the list is fully stated by
 what it does to the set of free units.
 */
module FreeList {
  import opened Geometry

  datatype Block = Block(start: int, len: int) {
    function End(): int {
      start + len
    }
  }

  /** Blocks are nonempty, lie in the page and are separated by allocated units. */
  ghost predicate Canonical(bs: seq<Block>) {
    && (forall i :: 0 <= i < |bs| ==> 0 <= bs[i].start && 1 <= bs[i].len && bs[i].End() <= PAGE_UNITS)
    && (forall i, j :: 0 <= i < j < |bs| ==> bs[i].End() < bs[j].start)
  }

  /** Blocks are nonempty, lie in the page and do not overlap; neighbours may touch. */
  ghost predicate Ordered(bs: seq<Block>) {
    && (forall i :: 0 <= i < |bs| ==> 0 <= bs[i].start && 1 <= bs[i].len && bs[i].End() <= PAGE_UNITS)
    && (forall i, j :: 0 <= i < j < |bs| ==> bs[i].End() <= bs[j].start)
  }

  ghost predicate Within(u: int, lo: int, len: int) {
    lo <= u < lo + len
  }

  ghost function Range(lo: int, len: int): (r: set<int>)
    ensures forall u :: u in r <==> lo <= u < lo + len
  {
    set u: int | lo <= u < lo + len && Within(u, lo, len)
  }

  /** The set of units covered by the blocks. */
  ghost function UnitsOf(bs: seq<Block>): set<int> {
    if bs == [] then {} else Range(bs[0].start, bs[0].len) + UnitsOf(bs[1..])
  }

  // ---------------------------------------------------------------- units

  lemma {:induction false} RangeSize(lo: int, len: nat)
    ensures |Range(lo, len)| == len
  {
    if len == 0 {
      assert Range(lo, 0) == {};
    } else {
      RangeSize(lo, len - 1);
      assert Range(lo, len) == Range(lo, len - 1) + {lo + len - 1};
    }
  }

  lemma {:induction false} UnitsConcat(a: seq<Block>, b: seq<Block>)
    ensures UnitsOf(a + b) == UnitsOf(a) + UnitsOf(b)
  {
    if a == [] {
      assert a + b == b;
    } else {
      assert (a + b)[1..] == a[1..] + b;
      UnitsConcat(a[1..], b);
    }
  }

  /** A unit is free exactly when some block of the list covers it. */
  lemma {:induction false} UnitInBlock(bs: seq<Block>, u: int)
    ensures u in UnitsOf(bs) <==> exists i :: 0 <= i < |bs| && bs[i].start <= u < bs[i].End()
  {
    if bs != [] {
      UnitInBlock(bs[1..], u);
      if u in UnitsOf(bs[1..]) {
        var i :| 0 <= i < |bs[1..]| && bs[1..][i].start <= u < bs[1..][i].End();
        assert bs[i + 1] == bs[1..][i];
      }
      if i :| 0 < i < |bs| && bs[i].start <= u < bs[i].End() {
        assert bs[1..][i - 1] == bs[i];
      }
    }
  }

  lemma UnitsBounded(bs: seq<Block>, lo: int, hi: int)
    requires forall i :: 0 <= i < |bs| ==> lo <= bs[i].start && bs[i].End() <= hi
    ensures forall u :: u in UnitsOf(bs) ==> lo <= u < hi
  {
    forall u | u in UnitsOf(bs) ensures lo <= u < hi {
      UnitInBlock(bs, u);
    }
  }

  /** Splits the units of a list around block i. */
  lemma UnitsAround(bs: seq<Block>, i: int)
    requires 0 <= i < |bs|
    ensures UnitsOf(bs) == UnitsOf(bs[..i]) + Range(bs[i].start, bs[i].len) + UnitsOf(bs[i + 1..])
  {
    var left, right := bs[..i], bs[i..];
    assert bs == left + right;
    UnitsConcat(left, right);
    assert right[0] == bs[i] && right[1..] == bs[i + 1..];
    assert UnitsOf(right) == Range(bs[i].start, bs[i].len) + UnitsOf(bs[i + 1..]);
  }

  // ---------------------------------------------------------------- uniqueness

  /** Units before block i end before it; units after it start after it, with a gap. */
  lemma CanonicalSides(bs: seq<Block>, i: int)
    requires Canonical(bs) && 0 <= i < |bs|
    ensures forall u :: u in UnitsOf(bs[..i]) ==> 0 <= u < bs[i].start - 1
    ensures var right := UnitsOf(bs[i + 1..]); forall u :: u in right ==> bs[i].End() < u < PAGE_UNITS
  {
    UnitsBounded(bs[..i], 0, bs[i].start - 1);
    UnitsBounded(bs[i + 1..], bs[i].End() + 1, PAGE_UNITS);
  }

  /** Removing the first block of a canonical list removes exactly its units. */
  lemma CanonicalHead(bs: seq<Block>)
    requires Canonical(bs) && bs != []
    ensures UnitsOf(bs[1..]) == UnitsOf(bs) - Range(bs[0].start, bs[0].len)
    ensures bs[0].start in UnitsOf(bs) && bs[0].End() !in UnitsOf(bs)
    ensures forall u :: bs[0].start <= u < bs[0].End() ==> u in UnitsOf(bs)
    ensures forall u :: u in UnitsOf(bs) ==> bs[0].start <= u
  {
    CanonicalSides(bs, 0);
  }

  lemma SameFirstBlock(a: seq<Block>, b: seq<Block>)
    requires Canonical(a) && Canonical(b) && a != [] && b != []
    requires UnitsOf(a) == UnitsOf(b)
    ensures a[0] == b[0]
  {
    CanonicalHead(a);
    CanonicalHead(b);
    assert a[0].End() !in UnitsOf(b) && b[0].End() !in UnitsOf(a);
  }

  lemma SameTail(a: seq<Block>, b: seq<Block>)
    requires Canonical(a) && Canonical(b) && a != [] && b != []
    requires UnitsOf(a) == UnitsOf(b) && a[0] == b[0]
    ensures UnitsOf(a[1..]) == UnitsOf(b[1..])
  {
    CanonicalHead(a);
    CanonicalHead(b);
  }

  lemma OnlyEmptyHasNoUnits(bs: seq<Block>)
    requires Canonical(bs)
    ensures bs == [] <==> UnitsOf(bs) == {}
  {
    if bs != [] {
      CanonicalHead(bs);
    }
  }

  /** Two canonical lists that cover the same units are the same list. */
  lemma {:induction false} CanonicalUnique(a: seq<Block>, b: seq<Block>)
    requires Canonical(a) && Canonical(b)
    requires UnitsOf(a) == UnitsOf(b)
    ensures a == b
  {
    OnlyEmptyHasNoUnits(a);
    OnlyEmptyHasNoUnits(b);
    if a != [] {
      SameFirstBlock(a, b);
      SameTail(a, b);
      CanonicalUnique(a[1..], b[1..]);
      SameHeadAndTail(a, b);
    }
  }

  lemma SameHeadAndTail<T>(a: seq<T>, b: seq<T>)
    requires a != [] && b != [] && a[0] == b[0] && a[1..] == b[1..]
    ensures a == b
  {
    assert a == [a[0]] + a[1..] && b == [b[0]] + b[1..];
  }

  /** [b.start, b.End()) is a free run that cannot be extended on either side. */
  ghost predicate MaximalRun(free: set<int>, b: Block) {
    && 1 <= b.len
    && (forall u :: b.start <= u < b.End() ==> u in free)
    && b.start - 1 !in free
    && b.End() !in free
  }

  lemma BlockIsMaximalRun(bs: seq<Block>, i: int)
    requires Canonical(bs) && 0 <= i < |bs|
    ensures MaximalRun(UnitsOf(bs), bs[i])
  {
    UnitsAround(bs, i);
    CanonicalSides(bs, i);
  }

  lemma MaximalRunIsBlock(bs: seq<Block>, b: Block)
    requires Canonical(bs) && MaximalRun(UnitsOf(bs), b)
    ensures b in bs
  {
    var i := RunInBlock(bs, b.start, b.len);
    BlockIsMaximalRun(bs, i);
    assert b.start - 1 !in UnitsOf(bs) && b.End() !in UnitsOf(bs);
    assert bs[i] == b;
  }

  /** The blocks of a canonical list are exactly the maximal free runs. */
  lemma CanonicalListsMaximalRuns(bs: seq<Block>, b: Block)
    requires Canonical(bs)
    ensures b in bs <==> MaximalRun(UnitsOf(bs), b)
  {
    if b in bs {
      var i :| 0 <= i < |bs| && bs[i] == b;
      BlockIsMaximalRun(bs, i);
    }
    if MaximalRun(UnitsOf(bs), b) {
      MaximalRunIsBlock(bs, b);
    }
  }

  /** A run of free units lies inside a single block: this is what coalescing buys. */
  lemma {:induction false} RunInBlock(bs: seq<Block>, a: int, n: int) returns (i: int)
    requires Canonical(bs) && 1 <= n
    requires forall u :: a <= u < a + n ==> u in UnitsOf(bs)
    ensures 0 <= i < |bs| && bs[i].start <= a && a + n <= bs[i].End()
    decreases n
  {
    if n == 1 {
      UnitInBlock(bs, a);
      i :| 0 <= i < |bs| && bs[i].start <= a < bs[i].End();
    } else {
      i := RunInBlock(bs, a, n - 1);
      UnitInBlock(bs, a + n - 1);
      var k :| 0 <= k < |bs| && bs[k].start <= a + n - 1 < bs[k].End();
    }
  }

  // ---------------------------------------------------------------- first fit

  /** n units that begin at v are free. */
  ghost predicate FreeRun(free: set<int>, v: int, n: int) {
    forall u :: v <= u < v + n ==> u in free
  }

  /** The block holds n units from its first suitably aligned unit on. */
  ghost predicate Room(b: Block, n: int, align: int)
    requires 0 <= align
  {
    b.len >= n + AlignDelta(b.start, align)
  }

  /**
   When no block before block i has room, every aligned free run of n units begins at
   or after the first aligned unit of block i.
   */
  lemma NoRunBefore(bs: seq<Block>, i: int, n: int, align: int, v: int)
    requires Canonical(bs) && 0 <= i <= |bs| && 1 <= n && ValidAlign(align)
    requires forall j :: 0 <= j < i ==> !Room(bs[j], n, align)
    requires AlignedUnit(v, align) && FreeRun(UnitsOf(bs), v, n)
    ensures i < |bs| && AlignedFrom(bs[i].start, align) <= v
  {
    var k := RunInBlock(bs, v, n);
    AlignedFromIsLeast(bs[k].start, align, v);
    assert Room(bs[k], n, align);
    assert i <= k;
    assert bs[i].start <= bs[k].start;
    AlignedFromIsLeast(bs[i].start, align, v);
  }

  /** The lowest aligned unit at which n free units begin. */
  ghost predicate LowestFit(free: set<int>, n: int, align: int, b: int)
  {
    && 0 <= b && b + n <= PAGE_UNITS
    && AlignedUnit(b, align) && FreeRun(free, b, n)
    && forall v :: 0 <= v && AlignedUnit(v, align) && FreeRun(free, v, n) ==> b <= v
  }

  ghost predicate NoFit(free: set<int>, n: int, align: int)
  {
    forall v :: 0 <= v && AlignedUnit(v, align) ==> !FreeRun(free, v, n)
  }

  /** Units v up to v + n are free, and the address of unit v is a multiple of align. */
  ghost predicate RunAt(free: set<int>, n: int, align: int, v: int)
    requires 0 <= align
  {
    (align == 0 || (2 * v) % align == 0) && forall u :: v <= u < v + n ==> u in free
  }

  /** First fit in numbers: the lowest of all places in the page where a run of n free units is aligned. */
  lemma LowestFitIff(free: set<int>, n: int, align: int, b: int)
    requires 0 <= align
    ensures LowestFit(free, n, align, b) <==>
            0 <= b && b + n <= 2048 && RunAt(free, n, align, b) && forall v :: 0 <= v < b ==> !RunAt(free, n, align, v)
    ensures NoFit(free, n, align) <==> forall v :: 0 <= v ==> !RunAt(free, n, align, v)
  {
    hide AlignedUnit;
    forall v ensures RunAt(free, n, align, v) <==> AlignedUnit(v, align) && FreeRun(free, v, n) {
      AlignmentIff(align, v);
    }
  }

  lemma LowestFitFits(free: set<int>, n: int, align: int, b: int)
    requires LowestFit(free, n, align, b)
    ensures !NoFit(free, n, align)
  {
  }

  lemma NoRoomNoFit(bs: seq<Block>, n: int, align: int)
    requires Canonical(bs) && 1 <= n && ValidAlign(align)
    requires forall j :: 0 <= j < |bs| ==> !Room(bs[j], n, align)
    ensures NoFit(UnitsOf(bs), n, align)
  {
    forall v | 0 <= v && AlignedUnit(v, align) ensures !FreeRun(UnitsOf(bs), v, n) {
      if FreeRun(UnitsOf(bs), v, n) {
        NoRunBefore(bs, |bs|, n, align, v);
      }
    }
  }

  lemma FirstRoomIsLowest(bs: seq<Block>, i: int, n: int, align: int)
    requires Canonical(bs) && 0 <= i < |bs| && 1 <= n && ValidAlign(align)
    requires Room(bs[i], n, align) && forall j :: 0 <= j < i ==> !Room(bs[j], n, align)
    ensures 0 <= AlignDelta(bs[i].start, align) && AlignDelta(bs[i].start, align) + n <= bs[i].len
    ensures LowestFit(UnitsOf(bs), n, align, bs[i].start + AlignDelta(bs[i].start, align))
  {
    var b := AlignedFrom(bs[i].start, align);
    AlignedFromIsLeast(bs[i].start, align, b);
    BlocksFree(bs, i);
    forall v | 0 <= v && AlignedUnit(v, align) && FreeRun(UnitsOf(bs), v, n) ensures b <= v {
      NoRunBefore(bs, i, n, align, v);
    }
  }

  lemma BlocksFree(bs: seq<Block>, i: int)
    requires 0 <= i < |bs|
    ensures forall u :: bs[i].start <= u < bs[i].End() ==> u in UnitsOf(bs)
    ensures i > 0 ==> forall u :: bs[i - 1].start <= u < bs[i - 1].End() ==> u in UnitsOf(bs)
  {
    UnitsAround(bs, i);
    if i > 0 {
      UnitsAround(bs, i - 1);
    }
  }

  // ---------------------------------------------------------------- carving a block

  function Piece(start: int, len: int): seq<Block> {
    if len > 0 then [Block(start, len)] else []
  }

  /** Block i loses n units that begin delta units after its start. */
  function Carved(bs: seq<Block>, i: int, delta: int, n: int): seq<Block>
    requires 0 <= i < |bs|
  {
    bs[..i] + Piece(bs[i].start, delta) + Piece(bs[i].start + delta + n, bs[i].len - delta - n) + bs[i + 1..]
  }

  /** Block i loses n units from its front. */
  ghost function CutAt(bs: seq<Block>, i: int, n: int): seq<Block>
    requires 0 <= i < |bs|
  {
    bs[..i] + Piece(bs[i].start + n, bs[i].len - n) + bs[i + 1..]
  }

  ghost function Halved(bs: seq<Block>, i: int, delta: int): seq<Block>
    requires 0 <= i < |bs|
  {
    bs[..i] + [Block(bs[i].start, delta), Block(bs[i].start + delta, bs[i].len - delta)] + bs[i + 1..]
  }

  lemma HalvedOrdered(bs: seq<Block>, i: int, delta: int)
    requires Ordered(bs) && 0 <= i < |bs| && 0 < delta < bs[i].len
    ensures Ordered(Halved(bs, i, delta))
  {
  }

  /** Halving a block and cutting the second half from its front carves the block. */
  lemma CarvedHalved(bs: seq<Block>, i: int, delta: int, n: int)
    requires 0 <= i < |bs| && 0 < delta
    ensures var h := Halved(bs, i, delta);
            h[i] == Block(bs[i].start, delta) && h[i + 1] == Block(bs[i].start + delta, bs[i].len - delta) &&
            CutAt(h, i + 1, n) == Carved(bs, i, delta, n)
  {
    var h := Halved(bs, i, delta);
    assert h[..i + 1] == bs[..i] + Piece(bs[i].start, delta);
    assert h[i + 2..] == bs[i + 1..];
  }

  lemma CarvedWhole(bs: seq<Block>, i: int, delta: int, n: int)
    requires 0 <= i < |bs| && delta == 0
    ensures CutAt(bs, i, n) == Carved(bs, i, delta, n)
  {
  }

  lemma PieceUnits(start: int, len: int)
    ensures UnitsOf(Piece(start, len)) == Range(start, len)
  {
    if len > 0 {
      assert Piece(start, len)[1..] == [];
    }
  }

  lemma CarvedCanonical(bs: seq<Block>, i: int, delta: int, n: int)
    requires Canonical(bs) && 0 <= i < |bs| && 0 <= delta && 1 <= n && delta + n <= bs[i].len
    ensures Canonical(Carved(bs, i, delta, n))
  {
    var s := bs[i].start;
    JoinCanonical(bs[..i], Piece(s, delta), s - 1);
    var left := bs[..i] + Piece(s, delta);
    JoinCanonical(Piece(s + delta + n, bs[i].len - delta - n), bs[i + 1..], bs[i].End());
    var right := Piece(s + delta + n, bs[i].len - delta - n) + bs[i + 1..];
    JoinCanonical(left, right, s + delta);
    assert left + right == Carved(bs, i, delta, n);
  }

  /** Canonical lists on two sides of an allocated unit concatenate to a canonical list. */
  lemma JoinCanonical(a: seq<Block>, b: seq<Block>, mid: int)
    requires Canonical(a) && Canonical(b)
    requires forall i :: 0 <= i < |a| ==> a[i].End() <= mid
    requires forall i :: 0 <= i < |b| ==> mid < b[i].start
    ensures Canonical(a + b)
  {
  }

  lemma RangeSplit(lo: int, len: int, at: int)
    requires 0 <= at <= len
    ensures Range(lo, len) == Range(lo, at) + Range(lo + at, len - at)
    ensures Range(lo, at) !! Range(lo + at, len - at)
  {
  }

  lemma CarvedUnits(bs: seq<Block>, i: int, delta: int, n: int)
    requires Canonical(bs) && 0 <= i < |bs| && 0 <= delta && 1 <= n && delta + n <= bs[i].len
    ensures UnitsOf(Carved(bs, i, delta, n)) == UnitsOf(bs) - Range(bs[i].start + delta, n)
  {
    var s := bs[i].start;
    var L, R := UnitsOf(bs[..i]), UnitsOf(bs[i + 1..]);
    var H, T := Range(s, delta), Range(s + delta + n, bs[i].len - delta - n);
    assert UnitsOf(Carved(bs, i, delta, n)) == L + H + T + R by {
      CarvedParts(bs, i, delta, n);
    }
    UnitsAround(bs, i);
    CanonicalSides(bs, i);
    RangeSplit(s, bs[i].len, delta);
    RangeSplit(s + delta, bs[i].len - delta, n);
  }

  lemma CarvedParts(bs: seq<Block>, i: int, delta: int, n: int)
    requires 0 <= i < |bs|
    ensures UnitsOf(Carved(bs, i, delta, n)) ==
            UnitsOf(bs[..i]) + Range(bs[i].start, delta) +
            Range(bs[i].start + delta + n, bs[i].len - delta - n) + UnitsOf(bs[i + 1..])
  {
    var p, q := Piece(bs[i].start, delta), Piece(bs[i].start + delta + n, bs[i].len - delta - n);
    UnitsConcat(bs[..i] + p + q, bs[i + 1..]);
    UnitsConcat(bs[..i] + p, q);
    UnitsConcat(bs[..i], p);
    PieceUnits(bs[i].start, delta);
    PieceUnits(bs[i].start + delta + n, bs[i].len - delta - n);
  }

  // ---------------------------------------------------------------- returning a block

  ghost predicate JoinsLeft(bs: seq<Block>, k: int, b: int)
    requires 0 <= k <= |bs|
  {
    k > 0 && bs[k - 1].End() == b
  }

  ghost predicate JoinsRight(bs: seq<Block>, k: int, e: int)
    requires 0 <= k <= |bs|
  {
    k < |bs| && bs[k].start == e
  }

  /** The block [b, b + n) merged with the neighbours it touches, among blocks k-1 and k. */
  ghost function Merged(bs: seq<Block>, k: int, b: int, n: int): Block
    requires 0 <= k <= |bs|
  {
    var lo := if JoinsLeft(bs, k, b) then bs[k - 1].start else b;
    var hi := if JoinsRight(bs, k, b + n) then bs[k].End() else b + n;
    Block(lo, hi - lo)
  }

  ghost function LeftCut(bs: seq<Block>, k: int, b: int): int
    requires 0 <= k <= |bs|
  {
    if JoinsLeft(bs, k, b) then k - 1 else k
  }

  ghost function RightCut(bs: seq<Block>, k: int, e: int): int
    requires 0 <= k <= |bs|
  {
    if JoinsRight(bs, k, e) then k + 1 else k
  }

  /** Blocks l..r are replaced by the single block m. */
  ghost function Spliced(bs: seq<Block>, l: int, r: int, m: Block): seq<Block>
    requires 0 <= l <= r <= |bs|
  {
    bs[..l] + [m] + bs[r..]
  }

  /** The list after [b, b + n) was inserted before block k and coalesced on both sides. */
  ghost function Inserted(bs: seq<Block>, k: int, b: int, n: int): seq<Block>
    requires 0 <= k <= |bs|
  {
    Spliced(bs, LeftCut(bs, k, b), RightCut(bs, k, b + n), Merged(bs, k, b, n))
  }

  /** [b, b + n) lies between blocks k-1 and k of the list. */
  ghost predicate FitsBefore(bs: seq<Block>, k: int, b: int, n: int) {
    && 0 <= k <= |bs| && 1 <= n && 0 <= b && b + n <= PAGE_UNITS
    && (k > 0 ==> bs[k - 1].End() <= b)
    && (k < |bs| ==> b + n <= bs[k].start)
  }

  lemma InsertedCanonical(bs: seq<Block>, k: int, b: int, n: int)
    requires Canonical(bs) && FitsBefore(bs, k, b, n)
    ensures Canonical(Inserted(bs, k, b, n))
  {
    var l := LeftCut(bs, k, b);
    var r := RightCut(bs, k, b + n);
    SpliceCanonical(bs, l, r, Merged(bs, k, b, n));
  }

  lemma PartsCanonical(bs: seq<Block>, l: int, r: int, lo: int, hi: int)
    requires Canonical(bs) && 0 <= l <= r <= |bs| && lo < hi
    requires l > 0 ==> bs[l - 1].End() <= lo
    requires r < |bs| ==> hi < bs[r].start
    ensures Canonical(bs[..l]) && Canonical(bs[r..])
    ensures forall i :: 0 <= i < l ==> bs[..l][i].End() <= lo
    ensures forall i :: 0 <= i < |bs| - r ==> hi < bs[r..][i].start
  {
  }

  lemma SingleCanonical(m: Block)
    requires 0 <= m.start && 1 <= m.len && m.End() <= PAGE_UNITS
    ensures Canonical([m]) && m.start - 1 < m.End()
  {
  }

  /** Replacing blocks l..r by one block that stays clear of the others keeps the form. */
  lemma SpliceCanonical(bs: seq<Block>, l: int, r: int, m: Block)
    requires Canonical(bs) && 0 <= l <= r <= |bs|
    requires 0 <= m.start && 1 <= m.len && m.End() <= PAGE_UNITS
    requires l > 0 ==> bs[l - 1].End() < m.start
    requires r < |bs| ==> m.End() < bs[r].start
    ensures Canonical(Spliced(bs, l, r, m))
  {
    hide Canonical;
    PartsCanonical(bs, l, r, m.start - 1, m.End());
    SingleCanonical(m);
    JoinCanonical(bs[..l], [m], m.start - 1);
    JoinCanonical(bs[..l] + [m], bs[r..], m.End());
  }

  lemma InsertedUnits(bs: seq<Block>, k: int, b: int, n: int)
    requires Canonical(bs) && FitsBefore(bs, k, b, n)
    ensures UnitsOf(Inserted(bs, k, b, n)) == UnitsOf(bs) + Range(b, n)
  {
    var m := Merged(bs, k, b, n);
    var l := LeftCut(bs, k, b);
    var r := RightCut(bs, k, b + n);
    SpliceUnits(bs, l, r, m);
    MergedUnits(bs, k, b, n);
    CutUnits(bs, l, r);
    UnionSwap(UnitsOf(bs[..l]), UnitsOf(bs[l..r]), Range(b, n), UnitsOf(bs[r..]));
  }

  lemma UnionSwap<T>(a: set<T>, b: set<T>, c: set<T>, d: set<T>)
    ensures a + (b + c) + d == a + b + d + c
  {
  }

  lemma SpliceUnits(bs: seq<Block>, l: int, r: int, m: Block)
    requires 0 <= l <= r <= |bs|
    ensures UnitsOf(Spliced(bs, l, r, m)) == UnitsOf(bs[..l]) + Range(m.start, m.len) + UnitsOf(bs[r..])
  {
    UnitsOfThree(bs[..l], [m], bs[r..]);
    SingleUnits(m);
  }

  lemma SingleUnits(m: Block)
    ensures UnitsOf([m]) == Range(m.start, m.len)
  {
    assert [m][1..] == [];
  }

  lemma CutUnits(bs: seq<Block>, l: int, r: int)
    requires 0 <= l <= r <= |bs|
    ensures UnitsOf(bs) == UnitsOf(bs[..l]) + UnitsOf(bs[l..r]) + UnitsOf(bs[r..])
  {
    UnitsOfThree(bs[..l], bs[l..r], bs[r..]);
    ThreeCuts(bs, l, r);
  }

  lemma ThreeCuts<T>(s: seq<T>, l: int, r: int)
    requires 0 <= l <= r <= |s|
    ensures s == s[..l] + s[l..r] + s[r..]
  {
  }

  lemma UnitsOfThree(a: seq<Block>, b: seq<Block>, c: seq<Block>)
    ensures UnitsOf(a + b + c) == UnitsOf(a) + UnitsOf(b) + UnitsOf(c)
  {
    UnitsConcat(a + b, c);
    UnitsConcat(a, b);
  }

  /** The merged block covers the inserted range and the blocks it replaces. */
  lemma MergedUnits(bs: seq<Block>, k: int, b: int, n: int)
    requires 0 <= k <= |bs| && 1 <= n
    requires forall i :: 0 <= i < |bs| ==> 1 <= bs[i].len
    ensures var m := Merged(bs, k, b, n);
            var l := LeftCut(bs, k, b);
            var r := RightCut(bs, k, b + n);
            Range(m.start, m.len) == UnitsOf(bs[l..r]) + Range(b, n)
  {
    var l := LeftCut(bs, k, b);
    var r := RightCut(bs, k, b + n);
    var left, right := bs[l..k], bs[k..r];
    assert bs[l..r] == left + right;
    UnitsConcat(left, right);
    assert l < k ==> left == Piece(bs[k - 1].start, bs[k - 1].len);
    assert k < r ==> right == Piece(bs[k].start, bs[k].len);
    if l < k {
      PieceUnits(bs[k - 1].start, bs[k - 1].len);
    }
    if k < r {
      PieceUnits(bs[k].start, bs[k].len);
    }
  }

  /** Where a block disjoint from the free units belongs in the list. */
  lemma InsertionPoint(bs: seq<Block>, k: int, b: int, n: int)
    requires Canonical(bs) && 0 <= k <= |bs| && 1 <= n && 0 <= b && b + n <= PAGE_UNITS
    requires k > 0 ==> bs[k - 1].start < b
    requires k < |bs| ==> b < bs[k].start
    requires forall u :: b <= u < b + n ==> u !in UnitsOf(bs)
    ensures FitsBefore(bs, k, b, n)
  {
    hide UnitsOf;
    assert b !in UnitsOf(bs);
    if k > 0 {
      BlocksFree(bs, k - 1);
    }
    if k < |bs| {
      BlocksFree(bs, k);
      assert bs[k].start in UnitsOf(bs);
    }
  }
}
