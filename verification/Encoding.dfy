/**
 How a free list is stored in the memory of its page.  The first two units of a free
 block hold its size and the offset of the next free block; a one-unit block holds the
 negated offset.  The list ends at the offset of the end of the page.
 */
module Encoding {
  import opened Geometry
  import opened FreeList

  /** The contents of a page. */
  type Memory = m: seq<SlobIndex> | |m| == PAGE_UNITS witness seq(PAGE_UNITS, i => 0)

  /** What set_slob does to the memory. */
  ghost function StoreBlock(m: Memory, s: int, size: int, next: int): Memory
    requires 0 <= s && 1 <= size && s + size <= PAGE_UNITS && 0 < next <= PAGE_UNITS
  {
    if size > 1 then m[s := size][s + 1 := next] else m[s := -next]
  }

  ghost predicate EncodedAt(m: Memory, b: Block, next: int) {
    && 0 <= b.start && 1 <= b.len && b.End() <= PAGE_UNITS && 0 < next <= PAGE_UNITS
    && if b.len > 1 then m[b.start] == b.len && m[b.start + 1] == next else m[b.start] == -next
  }

  /** The offset of the first of the blocks, or the given end if there is none. */
  ghost function FirstOf(bs: seq<Block>, end: int): int {
    if |bs| == 0 then end else bs[0].start
  }

  /** Where block i points: to the next block, or to the given end. */
  ghost function NextIn(bs: seq<Block>, i: int, end: int): int
    requires 0 <= i < |bs|
  {
    if i + 1 < |bs| then bs[i + 1].start else end
  }

  /** The memory links the blocks of bs in order, and the last of them to end. */
  ghost predicate Segment(m: Memory, bs: seq<Block>, end: int) {
    forall i {:trigger NextIn(bs, i, end)} :: 0 <= i < |bs| ==> EncodedAt(m, bs[i], NextIn(bs, i, end))
  }

  /** The memory stores the list bs, entered at offset head and ended by the end of the page. */
  ghost predicate Encodes(m: Memory, bs: seq<Block>, head: int) {
    head == FirstOf(bs, PAGE_UNITS) && Segment(m, bs, PAGE_UNITS)
  }

  lemma StoreEncodes(m: Memory, s: int, size: int, next: int)
    requires 0 <= s && 1 <= size && s + size <= PAGE_UNITS && 0 < next <= PAGE_UNITS
    ensures EncodedAt(StoreBlock(m, s, size, next), Block(s, size), next)
    ensures SameOutside(m, StoreBlock(m, s, size, next), s, s + size)
  {
  }

  ghost predicate SameOutside(m: Memory, m': Memory, lo: int, hi: int) {
    forall u :: 0 <= u < PAGE_UNITS && !(lo <= u < hi) ==> m[u] == m'[u]
  }

  /** Only units of block i and of the block before it were written. */
  ghost predicate TouchesOnly(m: Memory, m': Memory, bs: seq<Block>, i: int)
    requires 0 <= i < |bs|
  {
    forall u :: 0 <= u < PAGE_UNITS && !(bs[i].start <= u < bs[i].End()) &&
                !(i > 0 && bs[i - 1].start <= u < bs[i - 1].End()) ==>
      m[u] == m'[u]
  }

  /** Splitting block i and then cutting its second half touches block i and the one before it. */
  lemma HalvedTouches(m: Memory, m1: Memory, m2: Memory, bs: seq<Block>, i: int, delta: int)
    requires 0 <= i < |bs| && 0 < delta < bs[i].len
    requires SameOutside(m, m1, bs[i].start, bs[i].End()) && TouchesOnly(m1, m2, Halved(bs, i, delta), i + 1)
    ensures TouchesOnly(m, m2, bs, i)
  {
    var h := Halved(bs, i, delta);
    assert h[i] == Block(bs[i].start, delta);
    assert h[i + 1] == Block(bs[i].start + delta, bs[i].len - delta);
  }

  /** Only units of the set s were written. */
  ghost predicate WritesOnly(m: seq<SlobIndex>, m': seq<SlobIndex>, s: set<int>) {
    |m| == |m'| && forall u :: 0 <= u < |m| && u !in s ==> m[u] == m'[u]
  }

  lemma EncodedKept(m: Memory, m': Memory, b: Block, next: int)
    requires EncodedAt(m, b, next) && forall u :: b.start <= u < b.End() ==> m[u] == m'[u]
    ensures EncodedAt(m', b, next)
  {
  }

  // ---------------------------------------------------------------- list segments

  /** Around block i a list is two segments and the block that links them. */
  lemma SegmentCut(m: Memory, bs: seq<Block>, end: int, i: int)
    requires Segment(m, bs, end) && 0 <= i < |bs|
    ensures Segment(m, bs[..i], bs[i].start)
    ensures EncodedAt(m, bs[i], FirstOf(bs[i + 1..], end))
    ensures Segment(m, bs[i + 1..], end)
    ensures FirstOf(bs, end) == FirstOf(bs[..i], bs[i].start)
  {
    assert EncodedAt(m, bs[i], NextIn(bs, i, end));
    forall j | 0 <= j < i ensures EncodedAt(m, bs[..i][j], NextIn(bs[..i], j, bs[i].start)) {
      assert EncodedAt(m, bs[j], NextIn(bs, j, end));
    }
    var right := bs[i + 1..];
    forall j | 0 <= j < |right| ensures EncodedAt(m, right[j], NextIn(right, j, end)) {
      assert EncodedAt(m, bs[i + 1 + j], NextIn(bs, i + 1 + j, end));
    }
  }

  lemma SegmentJoin(m: Memory, a: seq<Block>, b: seq<Block>, end: int)
    requires Segment(m, a, FirstOf(b, end)) && Segment(m, b, end)
    ensures Segment(m, a + b, end)
    ensures FirstOf(a + b, end) == FirstOf(a, FirstOf(b, end))
  {
    var c := a + b;
    forall j | 0 <= j < |c| ensures EncodedAt(m, c[j], NextIn(c, j, end)) {
      if j < |a| {
        assert EncodedAt(m, a[j], NextIn(a, j, FirstOf(b, end)));
      } else {
        assert EncodedAt(m, b[j - |a|], NextIn(b, j - |a|, end));
      }
    }
  }

  lemma SegmentJoin3(m: Memory, a: seq<Block>, b: seq<Block>, c: seq<Block>, end: int)
    requires Segment(m, a, FirstOf(b, FirstOf(c, end))) && Segment(m, b, FirstOf(c, end)) && Segment(m, c, end)
    ensures Segment(m, a + b + c, end)
    ensures FirstOf(a + b + c, end) == FirstOf(a, FirstOf(b, FirstOf(c, end)))
  {
    SegmentJoin(m, b, c, end);
    SegmentJoin(m, a, b + c, end);
    ConcatAssoc(a, b, c);
  }

  lemma ConcatAssoc<T>(a: seq<T>, b: seq<T>, c: seq<T>)
    ensures a + b + c == a + (b + c)
  {
  }

  lemma SegmentOne(m: Memory, b: Block, end: int)
    requires EncodedAt(m, b, end)
    ensures Segment(m, [b], end)
  {
  }

  lemma SegmentTwo(m: Memory, b: Block, c: Block, end: int)
    requires EncodedAt(m, b, c.start) && EncodedAt(m, c, end)
    ensures Segment(m, [b, c], end)
  {
  }

  /** The blocks lie in [lo, hi). */
  ghost predicate Inside(bs: seq<Block>, lo: int, hi: int) {
    forall i :: 0 <= i < |bs| ==> lo <= bs[i].start && bs[i].End() <= hi
  }

  /** A segment survives any write outside the region its blocks lie in. */
  lemma SegmentKept(m: Memory, m': Memory, bs: seq<Block>, end: int, lo: int, hi: int)
    requires Segment(m, bs, end) && Inside(bs, lo, hi) && 0 <= lo && hi <= PAGE_UNITS
    requires forall u :: lo <= u < hi ==> m[u] == m'[u]
    ensures Segment(m', bs, end)
  {
    forall i | 0 <= i < |bs| ensures EncodedAt(m', bs[i], NextIn(bs, i, end)) {
      assert EncodedAt(m, bs[i], NextIn(bs, i, end));
    }
  }

  /** The units at the start of a block tell its size and its successor. */
  lemma BlockUnique(m: Memory, a: Block, b: Block, next: int, next': int)
    requires EncodedAt(m, a, next) && EncodedAt(m, b, next') && a.start == b.start
    ensures a == b && next == next'
  {
  }

  /** The memory and the entry determine the list: no two free lists are stored alike. */
  lemma {:induction false} StoredUnique(m: Memory, a: seq<Block>, b: seq<Block>)
    requires Ordered(a) && Ordered(b) && Segment(m, a, PAGE_UNITS) && Segment(m, b, PAGE_UNITS)
    requires FirstOf(a, PAGE_UNITS) == FirstOf(b, PAGE_UNITS)
    ensures a == b
    decreases |a|
  {
    hide EncodedAt, Segment;
    if a != [] && b != [] {
      SegmentCut(m, a, PAGE_UNITS, 0);
      SegmentCut(m, b, PAGE_UNITS, 0);
      BlockUnique(m, a[0], b[0], FirstOf(a[1..], PAGE_UNITS), FirstOf(b[1..], PAGE_UNITS));
      StoredUnique(m, a[1..], b[1..]);
      SameHeadAndTail(a, b);
    }
  }

  // ---------------------------------------------------------------- splitting

  /** The blocks before and after block i survive writes inside block i. */
  lemma AroundKept(m: Memory, m': Memory, bs: seq<Block>, end: int, i: int)
    requires Ordered(bs) && Segment(m, bs, end) && 0 <= i < |bs|
    requires SameOutside(m, m', bs[i].start, bs[i].End())
    ensures Segment(m', bs[..i], bs[i].start) && Segment(m', bs[i + 1..], end)
  {
    SegmentCut(m, bs, end, i);
    SegmentKept(m, m', bs[..i], bs[i].start, 0, bs[i].start);
    SegmentKept(m, m', bs[i + 1..], end, bs[i].End(), PAGE_UNITS);
  }

  /** Storing both halves of block i stores the list with block i halved. */
  lemma HalvedStored(m: Memory, m': Memory, bs: seq<Block>, head: int, i: int, delta: int)
    requires Ordered(bs) && Encodes(m, bs, head) && 0 <= i < |bs| && 0 < delta < bs[i].len
    requires SameOutside(m, m', bs[i].start, bs[i].End())
    requires EncodedAt(m', Block(bs[i].start, delta), bs[i].start + delta)
    requires EncodedAt(m', Block(bs[i].start + delta, bs[i].len - delta), FirstOf(bs[i + 1..], PAGE_UNITS))
    ensures Encodes(m', Halved(bs, i, delta), head)
  {
    var a, c := bs[..i], bs[i + 1..];
    var b1, b2 := Block(bs[i].start, delta), Block(bs[i].start + delta, bs[i].len - delta);
    AroundKept(m, m', bs, PAGE_UNITS, i);
    SegmentTwo(m', b1, b2, FirstOf(c, PAGE_UNITS));
    SegmentJoin3(m', a, [b1, b2], c, PAGE_UNITS);
    assert FirstOf(bs, PAGE_UNITS) == FirstOf(a, bs[i].start);
  }

  lemma SegmentSuffix(m: Memory, bs: seq<Block>, end: int, r: int)
    requires Segment(m, bs, end) && 0 <= r <= |bs|
    ensures Segment(m, bs[r..], end)
  {
    if r > 0 {
      SegmentCut(m, bs, end, r - 1);
    }
  }

  /** The blocks before block l, the last of them redirected to end. */
  lemma LeftRedirected(m: Memory, m': Memory, bs: seq<Block>, l: int, end: int)
    requires Ordered(bs) && Segment(m, bs, PAGE_UNITS) && 0 <= l <= |bs|
    requires l > 0 ==> EncodedAt(m', bs[l - 1], end)
    requires forall u :: 0 <= u < (if l > 0 then bs[l - 1].start else 0) ==> m[u] == m'[u]
    ensures Segment(m', bs[..l], end)
  {
    if l > 0 {
      var k := l - 1;
      SegmentCut(m, bs, PAGE_UNITS, k);
      SegmentKept(m, m', bs[..k], bs[k].start, 0, bs[k].start);
      SegmentOne(m', bs[k], end);
      SegmentJoin(m', bs[..k], [bs[k]], end);
      assert bs[..l] == bs[..k] + [bs[k]];
    }
  }

  /** The blocks from block r on survive writes before block r. */
  lemma RightKept(m: Memory, m': Memory, bs: seq<Block>, r: int)
    requires Ordered(bs) && Segment(m, bs, PAGE_UNITS) && 0 <= r <= |bs|
    requires forall u :: FirstOf(bs[r..], PAGE_UNITS) <= u < PAGE_UNITS ==> m[u] == m'[u]
    ensures Segment(m', bs[r..], PAGE_UNITS)
  {
    SegmentSuffix(m, bs, PAGE_UNITS, r);
    if r < |bs| {
      SegmentKept(m, m', bs[r..], PAGE_UNITS, bs[r].start, PAGE_UNITS);
    }
  }

  /**
   Storing the blocks mid in place of blocks l..r, and redirecting the block before them
   or the entry, stores the list with the blocks replaced.
   */
  lemma SpliceStored(m: Memory, m': Memory, bs: seq<Block>, l: int, r: int, mid: seq<Block>, after: int, head': int)
    requires Ordered(bs) && Segment(m, bs, PAGE_UNITS) && 0 <= l <= r <= |bs|
    requires after == FirstOf(mid, FirstOf(bs[r..], PAGE_UNITS))
    requires Segment(m', mid, FirstOf(bs[r..], PAGE_UNITS))
    requires forall u :: FirstOf(bs[r..], PAGE_UNITS) <= u < PAGE_UNITS ==> m[u] == m'[u]
    requires forall u :: 0 <= u < (if l > 0 then bs[l - 1].start else 0) ==> m[u] == m'[u]
    requires l > 0 ==> EncodedAt(m', bs[l - 1], after)
    requires head' == if l > 0 then bs[0].start else after
    ensures Encodes(m', bs[..l] + mid + bs[r..], head')
  {
    LeftRedirected(m, m', bs, l, after);
    RightKept(m, m', bs, r);
    SegmentJoin3(m', bs[..l], mid, bs[r..], PAGE_UNITS);
  }

  lemma PieceStored(m: Memory, start: int, len: int, end: int)
    requires len > 0 ==> EncodedAt(m, Block(start, len), end)
    ensures Segment(m, Piece(start, len), end)
  {
  }

  /**
   First (m to m1) the block before block i, or the entry, is redirected past the n units
   cut from block i; then (m1 to m2) what is left of block i is stored.
   */
  lemma CutStored(m: Memory, m1: Memory, m2: Memory, bs: seq<Block>, i: int, n: int, after: int, head': int)
    requires Ordered(bs) && Segment(m, bs, PAGE_UNITS) && 0 <= i < |bs| && 1 <= n <= bs[i].len
    requires after == FirstOf(Piece(bs[i].start + n, bs[i].len - n), FirstOf(bs[i + 1..], PAGE_UNITS))
    requires if i > 0 then EncodedAt(m1, bs[i - 1], after) && SameOutside(m, m1, bs[i - 1].start, bs[i - 1].End())
             else m1 == m
    requires if n < bs[i].len then
               && EncodedAt(m2, Block(bs[i].start + n, bs[i].len - n), FirstOf(bs[i + 1..], PAGE_UNITS))
               && SameOutside(m1, m2, bs[i].start + n, bs[i].End())
             else m2 == m1
    requires head' == if i > 0 then bs[0].start else after
    ensures Encodes(m2, CutAt(bs, i, n), head')
    ensures TouchesOnly(m, m2, bs, i)
  {
    if i > 0 {
      EncodedKept(m1, m2, bs[i - 1], after);
    }
    PieceStored(m2, bs[i].start + n, bs[i].len - n, FirstOf(bs[i + 1..], PAGE_UNITS));
    SpliceStored(m, m2, bs, i, i + 1, Piece(bs[i].start + n, bs[i].len - n), after, head');
  }

  /** Block b, lengthened to n1 units, was stored between blocks k-1 and k and linked to block k-1. */
  /** Writes inside two blocks, one after the other, the second one perhaps extended over the first. */
  lemma BothWrites(m0: Memory, m1: Memory, m2: Memory, b: int, size: int, prev: int, len: int)
    requires SameOutside(m0, m1, b, b + size)
    requires SameOutside(m1, m2, prev, prev + len) || (prev + len == b && SameOutside(m1, m2, prev, b + size))
    ensures WritesOnly(m0, m2, Range(prev, len) + Range(b, size))
  {
  }

  lemma InsertLinkedStored(m: Memory, m1: Memory, m2: Memory, bs: seq<Block>, k: int, b: int, n: int, n1: int)
    requires Canonical(bs) && Segment(m, bs, PAGE_UNITS) && FitsBefore(bs, k, b, n) && 0 < k
    requires b + n1 == Merged(bs, k, b, n).End() && !JoinsLeft(bs, k, b)
    requires SameOutside(m, m1, b, b + n1)
    requires EncodedAt(m1, Block(b, n1), FirstOf(bs[RightCut(bs, k, b + n)..], PAGE_UNITS))
    requires SameOutside(m1, m2, bs[k - 1].start, bs[k - 1].End()) && EncodedAt(m2, bs[k - 1], b)
    ensures Encodes(m2, Inserted(bs, k, b, n), bs[0].start)
  {
    var r, mid := RightCut(bs, k, b + n), Merged(bs, k, b, n);
    var next := FirstOf(bs[r..], PAGE_UNITS);
    assert b + n1 <= next;
    EncodedKept(m1, m2, mid, next);
    SegmentOne(m2, mid, next);
    SpliceStored(m, m2, bs, k, r, [mid], b, bs[0].start);
  }

  /** Block b, lengthened to n1 units, was stored after block k-1, and then block k-1 was extended over it. */
  lemma InsertMergedStored(m: Memory, m1: Memory, m2: Memory, bs: seq<Block>, k: int, b: int, n: int, n1: int)
    requires Canonical(bs) && Segment(m, bs, PAGE_UNITS) && FitsBefore(bs, k, b, n) && 0 < k
    requires b + n1 == Merged(bs, k, b, n).End() && JoinsLeft(bs, k, b)
    requires SameOutside(m, m1, b, b + n1) && SameOutside(m1, m2, bs[k - 1].start, b + n1)
    requires EncodedAt(m2, Block(bs[k - 1].start, bs[k - 1].len + n1),
                       FirstOf(bs[RightCut(bs, k, b + n)..], PAGE_UNITS))
    ensures Encodes(m2, Inserted(bs, k, b, n), bs[0].start)
  {
    var l, r, mid := k - 1, RightCut(bs, k, b + n), Merged(bs, k, b, n);
    var next := FirstOf(bs[r..], PAGE_UNITS);
    assert b + n1 <= next;
    if l > 0 {
      assert EncodedAt(m, bs[l - 1], NextIn(bs, l - 1, PAGE_UNITS));
      EncodedKept(m, m2, bs[l - 1], bs[l].start);
    }
    SegmentOne(m2, mid, next);
    SpliceStored(m, m2, bs, l, r, [mid], mid.start, bs[0].start);
  }

  /** Block b, lengthened to n1 units, was stored in front of all blocks. */
  lemma InsertFrontStored(m: Memory, m1: Memory, bs: seq<Block>, b: int, n: int, n1: int)
    requires Canonical(bs) && Segment(m, bs, PAGE_UNITS) && FitsBefore(bs, 0, b, n)
    requires b + n1 == Merged(bs, 0, b, n).End()
    requires SameOutside(m, m1, b, b + n1)
    requires EncodedAt(m1, Block(b, n1), FirstOf(bs[RightCut(bs, 0, b + n)..], PAGE_UNITS))
    ensures Encodes(m1, Inserted(bs, 0, b, n), b)
  {
    var r, mid := RightCut(bs, 0, b + n), Merged(bs, 0, b, n);
    assert b + n1 <= FirstOf(bs[r..], PAGE_UNITS);
    SegmentOne(m1, mid, FirstOf(bs[r..], PAGE_UNITS));
    SpliceStored(m, m1, bs, 0, r, [mid], b, b);
  }

  /** The units written by an insertion were free or belong to the inserted block. */
  lemma TouchedByInsert(bs: seq<Block>, k: int, b: int, n: int)
    requires FitsBefore(bs, k, b, n)
    ensures var size := Merged(bs, k, b, n).End() - b;
            Range(b, size) <= UnitsOf(bs) + Range(b, n)
    ensures k > 0 ==> Range(bs[k - 1].start, bs[k - 1].len) <= UnitsOf(bs)
  {
    if k > 0 {
      UnitsAround(bs, k - 1);
    }
    if k < |bs| {
      UnitsAround(bs, k);
    }
  }

  /** Writes outside the free units leave the stored list alone. */
  lemma LiveWritesKeep(m: Memory, m': Memory, bs: seq<Block>, head: int, s: set<int>)
    requires Encodes(m, bs, head) && WritesOnly(m, m', s) && s !! UnitsOf(bs)
    ensures Encodes(m', bs, head)
  {
    forall i | 0 <= i < |bs| ensures EncodedAt(m', bs[i], NextIn(bs, i, PAGE_UNITS)) {
      assert EncodedAt(m, bs[i], NextIn(bs, i, PAGE_UNITS));
      UnitsAround(bs, i);
      EncodedKept(m, m', bs[i], NextIn(bs, i, PAGE_UNITS));
    }
  }

  /** The first size bytes from unit b are zero; an odd size ends with the low byte of a unit. */
  ghost predicate Cleared(m: seq<SlobIndex>, b: int, size: int)
    requires 0 <= b && 0 <= size && b + SlobUnits(size) <= |m|
  {
    && (forall u :: b <= u < b + size / SLOB_UNIT ==> m[u] == 0)
    && (size % SLOB_UNIT == 1 ==> m[b + size / SLOB_UNIT] % 0x100 == 0)
  }

  lemma WritesTwice(m: seq<SlobIndex>, m1: seq<SlobIndex>, m2: seq<SlobIndex>, s: set<int>, r: set<int>)
    requires WritesOnly(m, m1, s) && WritesOnly(m1, m2, r) && r <= s
    ensures WritesOnly(m, m2, s)
  {
  }
}
