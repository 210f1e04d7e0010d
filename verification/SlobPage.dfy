/** Pages of the SLOB allocator and the operations inside one page. */
module SlobPage {
  import Arithmetic
  import opened Geometry
  import opened FreeList
  import opened Encoding
  import Rings
  import Sums

  datatype Option<+T> = None | Some(value: T)

  class Page {
    const mem: array<SlobIndex>
    const list: Rings.ListHead
    var freelist: int
    var units: int
    /** The page flags PG_slob_free (on a list of partly free pages) and PG_slab. */
    var slobFree: bool
    var slab: bool
    /** The compound order of a page that heads a larger allocation. */
    var order: int
    /** The free list, and the live blocks with their sizes in units. */
    ghost var blocks: seq<Block>
    ghost var live: map<int, int>

    /** A page fresh from the page allocator: its memory holds arbitrary values. */
    constructor ()
      ensures fresh(mem) && fresh(list) && mem.Length == PAGE_UNITS
      ensures list.next == list && list.prev == list && list.entry == this
      ensures !slobFree && !slab && order == 0
    {
      mem := new SlobIndex[PAGE_UNITS];
      list := new Rings.ListHead();
      freelist, units, slobFree, slab, order := 0, 0, false, false, 0;
      blocks, live := [], map[];
      new;
      list.entry := this;
    }

    ghost function Free(): set<int>
      reads this`blocks
    {
      UnitsOf(blocks)
    }

    ghost predicate InPage()
      reads this`freelist, this`units, this`blocks, this`live, mem
    {
      && mem.Length == PAGE_UNITS
      && Canonical(blocks)
      && Sums.Books(live, Free(), units)
      && Encodes(mem[..], blocks, freelist)
    }

    method SetSlob(s: int, size: int, next: int)
      requires mem.Length == PAGE_UNITS
      requires 0 <= s && 1 <= size && s + size <= PAGE_UNITS && 0 < next <= PAGE_UNITS
      modifies mem
      ensures mem[..] == StoreBlock(old(mem[..]), s, size, next)
    {
      var offset: SlobIndex := next;
      if size > 1 {
        mem[s] := size;
        mem[s + 1] := offset;
      } else {
        mem[s] := -offset;
      }
    }

    /** The size of the free block at s. */
    function UnitsAt(s: int): SlobIndex
      requires 0 <= s < mem.Length
      reads mem
    {
      if mem[s] > 0 then mem[s] else 1
    }

    /** The offset of the free block after the one at s. */
    function NextAt(s: int): int
      requires 0 <= s < mem.Length && (mem[s] >= 0 ==> s + 1 < mem.Length)
      reads mem
    {
      var first: int := mem[s];
      if first < 0 then -first else mem[s + 1]
    }

    /** True if the block at s is the last one: its next offset is a page boundary. */
    predicate LastAt(s: int)
      requires 0 <= s < mem.Length && (mem[s] >= 0 ==> s + 1 < mem.Length)
      reads mem
    {
      NextAt(s) % PAGE_UNITS == 0
    }

    /** Reading back what set_slob stored gives its arguments. */
    lemma DecodeEncoded(b: Block, next: int)
      requires mem.Length == PAGE_UNITS && EncodedAt(mem[..], b, next)
      ensures 0 <= b.start < mem.Length && (mem[b.start] >= 0 ==> b.start + 1 < mem.Length)
      ensures UnitsAt(b.start) == b.len && NextAt(b.start) == next
      ensures LastAt(b.start) <==> next == PAGE_UNITS
    {
    }

    /** Block i of a stored list reads back as its size and successor. */
    lemma DecodeAt(bs: seq<Block>, head: int, i: int)
      requires mem.Length == PAGE_UNITS && Encodes(mem[..], bs, head) && 0 <= i < |bs|
      ensures 0 <= bs[i].start < mem.Length && (mem[bs[i].start] >= 0 ==> bs[i].start + 1 < mem.Length)
      ensures UnitsAt(bs[i].start) == bs[i].len && NextAt(bs[i].start) == NextIn(bs, i, PAGE_UNITS)
      ensures Ordered(bs) ==> (LastAt(bs[i].start) <==> i + 1 == |bs|)
    {
      assert EncodedAt(mem[..], bs[i], NextIn(bs, i, PAGE_UNITS));
      DecodeEncoded(bs[i], NextIn(bs, i, PAGE_UNITS));
    }

    lemma FreeUnitInBlock(u: int) returns (i: int)
      requires InPage() && u in Free()
      ensures 0 <= i < |blocks| && blocks[i].start <= u < blocks[i].End()
      ensures EncodedAt(mem[..], blocks[i], NextIn(blocks, i, PAGE_UNITS)) && MaximalRun(Free(), blocks[i])
    {
      hide MaximalRun, Canonical, Sums.Books;
      UnitInBlock(blocks, u);
      i :| 0 <= i < |blocks| && blocks[i].start <= u < blocks[i].End();
      BlockIsMaximalRun(blocks, i);
      assert EncodedAt(mem[..], blocks[i], NextIn(blocks, i, PAGE_UNITS));
    }

    /** No unit from lo on and below hi is free, and hi is the next free unit or the end of the page. */
    ghost predicate NextFree(lo: int, hi: int)
      reads this`blocks
    {
      && (hi == 2048 || (hi in Free() && 0 <= hi < 2048))
      && forall v :: lo <= v < hi ==> v !in Free()
    }

    lemma NextFreeIs(i: int)
      requires InPage() && 0 <= i < |blocks|
      ensures NextFree(blocks[i].End(), NextIn(blocks, i, PAGE_UNITS))
    {
      hide Sums.Books, Encodes;
      var next := NextIn(blocks, i, PAGE_UNITS);
      if i + 1 < |blocks| {
        BlocksFree(blocks, i + 1);
      }
      forall v | blocks[i].End() <= v < next ensures v !in Free() {
        assert forall j :: 0 <= j < |blocks| ==> !(blocks[j].start <= v < blocks[j].End());
        if v in Free() {
          UnitInBlock(blocks, v);
        }
      }
    }

    /**
     What the memory of a page holds, by its free units alone.  Where a run of free units begins, a lone unit holds
     the negated offset of the next free unit; a longer run holds its length and then that offset.
     */
    lemma StoredInFreeUnits(u: int)
      requires InPage() && u in Free() && u - 1 !in Free()
      ensures 0 <= u < mem.Length == 2048
      ensures u + 1 !in Free() ==> mem[u] < 0 && NextFree(u + 1, -(mem[u] as int))
      ensures u + 1 in Free() ==>
                && u + 1 < 2048 && 2 <= mem[u] && (forall v :: u <= v < u + mem[u] ==> v in Free())
                && u + mem[u] !in Free() && NextFree(u + mem[u], mem[u + 1])
    {
      hide Sums.Books, Encodes, NextFree, Canonical, UnitsOf;
      var i := FreeUnitInBlock(u);
      NextFreeIs(i);
    }

    /** The page leads to its lowest free unit. */
    lemma EntryIsFirstFree()
      requires InPage()
      ensures NextFree(0, freelist)
    {
      hide Sums.Books;
      if blocks != [] {
        BlocksFree(blocks, 0);
      }
      forall v | 0 <= v < freelist ensures v !in Free() {
        if v in Free() {
          UnitInBlock(blocks, v);
        }
      }
    }

    // ---------------------------------------------------------------- slob_page_alloc

    /** Fragments block i, the block at cur, into delta units and the rest at aligned. */
    method SplitHead(cur: int, delta: int, ghost bs: seq<Block>, ghost i: int)
      requires mem.Length == PAGE_UNITS && Ordered(bs) && Encodes(mem[..], bs, freelist)
      requires 0 <= i < |bs| && cur == bs[i].start && 0 < delta < bs[i].len
      modifies mem
      ensures Encodes(mem[..], Halved(bs, i, delta), freelist)
      ensures SameOutside(old(mem[..]), mem[..], bs[i].start, bs[i].End())
    {
      DecodeAt(bs, freelist, i);
      var avail := UnitsAt(cur);
      var aligned := cur + delta;
      var next := NextAt(cur);
      ghost var m0 := mem[..];
      SetSlob(aligned, avail - delta, next);
      ghost var m1 := mem[..];
      StoreEncodes(m0, aligned, avail - delta, next);
      SetSlob(cur, delta, aligned);
      StoreEncodes(m1, cur, delta, aligned);
      EncodedKept(m1, mem[..], Block(aligned, avail - delta), next);
      HalvedStored(m0, mem[..], bs, freelist, i, delta);
    }

    /** Makes whatever leads to block i, its predecessor or the page itself, lead to after. */
    method Relink(prev: Option<int>, after: int, ghost bs: seq<Block>, ghost i: int)
      requires mem.Length == PAGE_UNITS && Ordered(bs) && Encodes(mem[..], bs, freelist) && 0 <= i < |bs|
      requires prev == (if i == 0 then None else Some(bs[i - 1].start)) && 0 < after <= PAGE_UNITS
      modifies mem, this`freelist
      ensures i > 0 ==> freelist == old(freelist) && EncodedAt(mem[..], bs[i - 1], after)
      ensures i > 0 ==> SameOutside(old(mem[..]), mem[..], bs[i - 1].start, bs[i - 1].End())
      ensures i == 0 ==> freelist == after && mem[..] == old(mem[..])
    {
      match prev {
        case Some(p) =>
          DecodeAt(bs, freelist, i - 1);
          var size := UnitsAt(p);
          StoreEncodes(mem[..], p, size, after);
          SetSlob(p, size, after);
        case None =>
          freelist := after;
      }
    }

    /** Takes n units from the front of block i, the block at cur; prev is the block before it. */
    method CutFront(prev: Option<int>, cur: int, n: int, ghost bs: seq<Block>, ghost i: int)
      requires mem.Length == PAGE_UNITS && Ordered(bs) && Encodes(mem[..], bs, freelist)
      requires 0 <= i < |bs| && cur == bs[i].start && 1 <= n <= bs[i].len
      requires prev == if i == 0 then None else Some(bs[i - 1].start)
      modifies mem, this`freelist
      ensures Encodes(mem[..], CutAt(bs, i, n), freelist)
      ensures TouchesOnly(old(mem[..]), mem[..], bs, i)
    {
      DecodeAt(bs, freelist, i);
      var avail := UnitsAt(cur);
      var next := NextAt(cur);
      assert next == FirstOf(bs[i + 1..], PAGE_UNITS);
      ghost var m0 := mem[..];
      var after := if avail == n then next else cur + n;
      Relink(prev, after, bs, i);
      ghost var m1 := mem[..];
      if avail != n {
        StoreEncodes(m1, cur + n, avail - n, next);
        SetSlob(cur + n, avail - n, next);
      }
      CutStored(m0, m1, mem[..], bs, i, n, after, freelist);
    }

    /** Takes n units out of block i, the block at cur, after skipping delta units for alignment. */
    method TakeFrom(prev: Option<int>, cur: int, delta: int, n: int, ghost b: int, ghost i: int)
      requires mem.Length == PAGE_UNITS && Canonical(blocks) && Encodes(mem[..], blocks, freelist)
      requires 0 <= i < |blocks| && cur == blocks[i].start
      requires prev == if i == 0 then None else Some(blocks[i - 1].start)
      requires 0 <= delta && 1 <= n && delta + n <= blocks[i].len && b == cur + delta
      modifies mem, this`freelist, this`blocks
      ensures Canonical(blocks) && Encodes(mem[..], blocks, freelist)
      ensures Free() == old(Free()) - Range(b, n)
      ensures WritesOnly(old(mem[..]), mem[..], old(Free()))
    {
      CarvedCanonical(blocks, i, delta, n);
      CarvedUnits(blocks, i, delta, n);
      BlocksFree(blocks, i);
      CarveFrom(prev, cur, delta, n, i);
      blocks := Carved(blocks, i, delta, n);
    }

    /** Takes the units, updates the count of free units and records the live block. */
    method Take(prev: Option<int>, cur: int, delta: int, n: int, ghost i: int) returns (b: int)
      requires InPage()
      requires 0 <= i < |blocks| && cur == blocks[i].start
      requires prev == if i == 0 then None else Some(blocks[i - 1].start)
      requires 0 <= delta && 1 <= n && delta + n <= blocks[i].len
      modifies mem, this`freelist, this`units, this`blocks, this`live
      ensures InPage()
      ensures b == cur + delta
      ensures Free() == old(Free()) - Range(b, n)
      ensures b !in old(live) && live == old(live)[b := n]
      ensures 0 <= units == old(units) - n
      ensures WritesOnly(old(mem[..]), mem[..], old(Free()))
    {
      b := cur + delta;
      BlocksFree(blocks, i);
      Sums.BooksAfterTake(live, Free(), units, b, n);
      TakeFrom(prev, cur, delta, n, b, i);
      units := units - n;
      live := live[b := n];
    }

    /** The writes of TakeFrom: at most two blocks are touched. */
    method CarveFrom(prev: Option<int>, cur: int, delta: int, n: int, ghost i: int)
      requires mem.Length == PAGE_UNITS && Canonical(blocks) && Encodes(mem[..], blocks, freelist)
      requires 0 <= i < |blocks| && cur == blocks[i].start
      requires prev == if i == 0 then None else Some(blocks[i - 1].start)
      requires 0 <= delta && 1 <= n && delta + n <= blocks[i].len
      modifies mem, this`freelist
      ensures Encodes(mem[..], Carved(blocks, i, delta, n), freelist)
      ensures TouchesOnly(old(mem[..]), mem[..], blocks, i)
    {
      if delta > 0 {
        CarveAligned(cur, delta, n, i);
      } else {
        CarvedWhole(blocks, i, delta, n);
        CutFront(prev, cur, n, blocks, i);
      }
    }

    method CarveAligned(cur: int, delta: int, n: int, ghost i: int)
      requires mem.Length == PAGE_UNITS && Canonical(blocks) && Encodes(mem[..], blocks, freelist)
      requires 0 <= i < |blocks| && cur == blocks[i].start
      requires 0 < delta && 1 <= n && delta + n <= blocks[i].len
      modifies mem, this`freelist
      ensures Encodes(mem[..], Carved(blocks, i, delta, n), freelist)
      ensures TouchesOnly(old(mem[..]), mem[..], blocks, i)
    {
      ghost var h := Halved(blocks, i, delta);
      HalvedOrdered(blocks, i, delta);
      CarvedHalved(blocks, i, delta, n);
      ghost var m0 := mem[..];
      SplitHead(cur, delta, blocks, i);
      ghost var m1 := mem[..];
      CutFront(Some(cur), cur + delta, n, h, i + 1);
      HalvedTouches(m0, m1, mem[..], blocks, i, delta);
    }

    /**
     The scan of slob_page_alloc: the first block with room for n units, its predecessor
     and the number of units to skip for alignment.
     */
    method FindRoom(n: int, align: int) returns (found: bool, prev: Option<int>, cur: int, delta: int, ghost i: int)
      requires InPage() && blocks != [] && 1 <= n && ValidAlign(align)
      ensures 0 <= i < |blocks| && cur == blocks[i].start
      ensures prev == if i == 0 then None else Some(blocks[i - 1].start)
      ensures found ==> 0 <= delta && delta + n <= blocks[i].len && LowestFit(Free(), n, align, cur + delta)
      ensures !found ==> NoFit(Free(), n, align)
    {
      hide LowestFit, NoFit, Sums.Books, UnitsOf, AlignedFrom, Range;
      prev, cur, i := None, freelist, 0;
      while true
        invariant 0 <= i < |blocks| && cur == blocks[i].start
        invariant prev == if i == 0 then None else Some(blocks[i - 1].start)
        invariant forall j :: 0 <= j < i ==> !Room(blocks[j], n, align)
        decreases |blocks| - i
      {
        DecodeAt(blocks, freelist, i);
        var avail := UnitsAt(cur);
        delta := AlignDelta(cur, align);
        if avail >= n + delta {
          FirstRoomIsLowest(blocks, i, n, align);
          return true, prev, cur, delta, i;
        }
        if LastAt(cur) {
          NoRoomNoFit(blocks, n, align);
          return false, prev, cur, delta, i;
        }
        prev, cur, i := Some(cur), NextAt(cur), i + 1;
      }
    }

    /**
     slob_page_alloc on this page, except for taking a full page off its list: the lowest
     suitably aligned run of SLOB_UNITS(size) free units, or None when there is none.
     */
    method PageAlloc(size: int, align: int) returns (r: Option<int>)
      requires InPage() && 0 < units && 1 <= size && ValidAlign(align)
      modifies mem, this`freelist, this`units, this`blocks, this`live
      ensures InPage()
      ensures r.Some? ==> var n := SlobUnits(size);
                && LowestFit(old(Free()), n, align, r.value)
                && Free() == old(Free()) - Range(r.value, n)
                && r.value !in old(live) && live == old(live)[r.value := n]
                && 0 <= units == old(units) - n
      ensures r.None? ==> unchanged(this) && unchanged(mem) && NoFit(Free(), SlobUnits(size), align)
      ensures WritesOnly(old(mem[..]), mem[..], old(Free()))
    {
      var n := SlobUnits(size);
      OnlyEmptyHasNoUnits(blocks);
      var found, prev, cur, delta, i := FindRoom(n, align);
      if !found {
        return None;
      }
      var b := Take(prev, cur, delta, n, i);
      return Some(b);
    }

    // ---------------------------------------------------------------- slob_free

    /** Block b precedes every free block: stores it, merged with the first one if they touch. */
    method InsertFront(b: int, n: int)
      requires mem.Length == PAGE_UNITS && Canonical(blocks) && Encodes(mem[..], blocks, freelist)
      requires blocks != [] && FitsBefore(blocks, 0, b, n)
      modifies mem, this`freelist
      ensures Encodes(mem[..], Inserted(blocks, 0, b, n), freelist)
      ensures SameOutside(old(mem[..]), mem[..], b, Merged(blocks, 0, b, n).End())
    {
      ghost var m0 := mem[..];
      var size := n;
      DecodeAt(blocks, freelist, 0);
      if b + n == freelist {
        size := size + UnitsAt(freelist);
        freelist := NextAt(freelist);
      }
      StoreEncodes(m0, b, size, freelist);
      SetSlob(b, size, freelist);
      freelist := b;
      InsertFrontStored(m0, mem[..], blocks, b, n, size);
    }

    /** Stores block b, merged with the free block at next if they touch; returns its stored size. */
    method StoreMergedRight(b: int, n: int, prev: int, next: int, ghost k: int) returns (size: int)
      requires mem.Length == PAGE_UNITS && Canonical(blocks) && Encodes(mem[..], blocks, freelist)
      requires 0 < k <= |blocks| && FitsBefore(blocks, k, b, n)
      requires prev == blocks[k - 1].start && next == FirstOf(blocks[k..], PAGE_UNITS)
      modifies mem
      ensures b + size == Merged(blocks, k, b, n).End() && n <= size
      ensures EncodedAt(mem[..], Block(b, size), FirstOf(blocks[RightCut(blocks, k, b + n)..], PAGE_UNITS))
      ensures SameOutside(old(mem[..]), mem[..], b, b + size)
    {
      size := n;
      DecodeAt(blocks, freelist, k - 1);
      if !LastAt(prev) && b + n == next {
        DecodeAt(blocks, freelist, k);
        size := size + UnitsAt(next);
        var after := NextAt(next);
        StoreEncodes(mem[..], b, size, after);
        SetSlob(b, size, after);
      } else {
        StoreEncodes(mem[..], b, size, next);
        SetSlob(b, size, next);
      }
    }

    /** Links block k-1, at prev, to the stored block b, or extends it over b if they touch. */
    method JoinLeft(b: int, n: int, prev: int, size: int, ghost k: int, ghost m0: Memory)
      requires mem.Length == PAGE_UNITS && Canonical(blocks) && Encodes(m0, blocks, freelist)
      requires 0 < k <= |blocks| && FitsBefore(blocks, k, b, n) && prev == blocks[k - 1].start
      requires b + size == Merged(blocks, k, b, n).End() && n <= size
      requires EncodedAt(mem[..], Block(b, size), FirstOf(blocks[RightCut(blocks, k, b + n)..], PAGE_UNITS))
      requires SameOutside(m0, mem[..], b, b + size)
      modifies mem
      ensures Encodes(mem[..], Inserted(blocks, k, b, n), freelist)
      ensures WritesOnly(m0, mem[..], Range(prev, blocks[k - 1].len) + Range(b, size))
    {
      hide WritesOnly, Range;
      ghost var m1 := mem[..];
      assert EncodedAt(m0, blocks[k - 1], NextIn(blocks, k - 1, PAGE_UNITS));
      EncodedKept(m0, m1, blocks[k - 1], NextIn(blocks, k - 1, PAGE_UNITS));
      DecodeEncoded(blocks[k - 1], NextIn(blocks, k - 1, PAGE_UNITS));
      DecodeEncoded(Block(b, size), FirstOf(blocks[RightCut(blocks, k, b + n)..], PAGE_UNITS));
      var prevSize := UnitsAt(prev);
      if prev + prevSize == b {
        var total, after := UnitsAt(b) + prevSize, NextAt(b);
        StoreEncodes(m1, prev, total, after);
        SetSlob(prev, total, after);
        InsertMergedStored(m0, m1, mem[..], blocks, k, b, n, size);
        BothWrites(m0, m1, mem[..], b, size, prev, prevSize);
      } else {
        StoreEncodes(m1, prev, prevSize, b);
        SetSlob(prev, prevSize, b);
        InsertLinkedStored(m0, m1, mem[..], blocks, k, b, n, size);
        BothWrites(m0, m1, mem[..], b, size, prev, prevSize);
      }
    }

    /** The search of slob_free: the free blocks before and after b. */
    method FindPlace(b: int) returns (prev: int, next: int, ghost k: int)
      requires mem.Length == PAGE_UNITS && Canonical(blocks) && Encodes(mem[..], blocks, freelist)
      requires blocks != [] && freelist <= b < PAGE_UNITS && b !in Free()
      ensures 0 < k <= |blocks| && prev == blocks[k - 1].start < b
      ensures next == FirstOf(blocks[k..], PAGE_UNITS) && b < next
    {
      BlocksFree(blocks, 0);
      DecodeAt(blocks, freelist, 0);
      prev, next, k := freelist, NextAt(freelist), 1;
      while b > next
        invariant 0 < k <= |blocks| && prev == blocks[k - 1].start < b
        invariant next == FirstOf(blocks[k..], PAGE_UNITS)
        decreases |blocks| - k
      {
        DecodeAt(blocks, freelist, k);
        prev, next, k := next, NextAt(next), k + 1;
      }
      if k < |blocks| {
        BlocksFree(blocks, k);
      }
    }

    /** Reinserts the block [b, b + n) at its place in the address-ordered list, coalescing. */
    method Reinsert(b: int, n: int)
      requires mem.Length == PAGE_UNITS && Canonical(blocks) && Encodes(mem[..], blocks, freelist)
      requires blocks != [] && 0 <= b && 1 <= n && b + n <= PAGE_UNITS && Free() !! Range(b, n)
      modifies mem, this`freelist, this`blocks
      ensures Canonical(blocks) && Encodes(mem[..], blocks, freelist)
      ensures Free() == old(Free()) + Range(b, n)
      ensures WritesOnly(old(mem[..]), mem[..], Free())
    {
      ghost var k := 0;
      if b < freelist {
        InsertionPoint(blocks, 0, b, n);
        InsertFront(b, n);
      } else {
        var prev, next;
        prev, next, k := FindPlace(b);
        InsertionPoint(blocks, k, b, n);
        ghost var m0 := mem[..];
        var size := StoreMergedRight(b, n, prev, next, k);
        JoinLeft(b, n, prev, size, k, m0);
      }
      TouchedByInsert(blocks, k, b, n);
      InsertedCanonical(blocks, k, b, n);
      InsertedUnits(blocks, k, b, n);
      blocks := Inserted(blocks, k, b, n);
    }

    /** The reinsertion path of slob_free, for a page that stays on its list. */
    method PageFree(b: int, n: int)
      requires InPage() && 0 < units && b in live && n == live[b]
      modifies mem, this`freelist, this`units, this`blocks, this`live
      ensures InPage()
      ensures Free() == old(Free()) + Range(b, n) && live == old(live) - {b} && units == old(units) + n
      ensures WritesOnly(old(mem[..]), mem[..], Free())
    {
      OnlyEmptyHasNoUnits(blocks);
      Sums.BooksAfterReturn(live, Free(), units, b);
      units := units + n;
      Reinsert(b, n);
      live := live - {b};
    }

    /** The path of slob_free for a page that was full and becomes partly free. */
    method FirstFree(b: int, n: int)
      requires InPage() && units == 0 && b in live && n == live[b]
      modifies mem, this`freelist, this`units, this`blocks, this`live
      ensures InPage()
      ensures Free() == old(Free()) + Range(b, n) && live == old(live) - {b} && units == old(units) + n
      ensures WritesOnly(old(mem[..]), mem[..], Free())
    {
      hide UnitsOf, Sums.Tiles, Encodes, WritesOnly, Range;
      Sums.BooksAfterReturn(live, Free(), units, b);
      BlockInPage(live, Free(), b);
      NoneFree(Free());
      units := n;
      StoreAlone(b, n);
      blocks := [Block(b, n)];
      SingleUnits(Block(b, n));
      live := live - {b};
    }

    /** Makes block b the only free block: it ends the list, at the page boundary. */
    method StoreAlone(b: int, n: int)
      requires mem.Length == PAGE_UNITS && 0 <= b && 1 <= n && b + n <= PAGE_UNITS
      modifies mem, this`freelist
      ensures Encodes(mem[..], [Block(b, n)], freelist)
      ensures WritesOnly(old(mem[..]), mem[..], Range(b, n))
    {
      freelist := b;
      var end := (b + PAGE_UNITS) - (b + PAGE_UNITS) % PAGE_UNITS;
      StoreEncodes(mem[..], b, n, end);
      SetSlob(b, n, end);
      SegmentOne(mem[..], Block(b, n), PAGE_UNITS);
    }

    lemma BlockInPage(live: map<int, int>, free: set<int>, b: int)
      requires Sums.Tiles(live, free) && b in live
      ensures 0 <= b && 1 <= live[b] && b + live[b] <= PAGE_UNITS
    {
    }

    lemma NoneFree(free: set<int>)
      requires |free| == 0
      ensures free == {}
    {
    }

    /** The set-up of a page that slob_alloc has just obtained. */
    method SetUp()
      requires mem.Length == PAGE_UNITS
      modifies mem, this`freelist, this`units, this`blocks, this`live
      ensures InPage() && Free() == Range(0, PAGE_UNITS) && live == map[] && units == PAGE_UNITS
    {
      units := PAGE_UNITS;
      freelist := 0;
      StoreEncodes(mem[..], 0, PAGE_UNITS, PAGE_UNITS);
      SetSlob(0, PAGE_UNITS, PAGE_UNITS);
      blocks, live := [Block(0, PAGE_UNITS)], map[];
      SegmentOne(mem[..], Block(0, PAGE_UNITS), PAGE_UNITS);
      SingleUnits(Block(0, PAGE_UNITS));
      RangeSize(0, PAGE_UNITS);
    }

    // ---------------------------------------------------------------- writes to live blocks

    /** memset(b, 0, size) on a live block. */
    method Memset(b: int, size: int)
      requires InPage() && 0 <= size && b in live && SlobUnits(size) <= live[b]
      modifies mem
      ensures InPage() && Cleared(mem[..], b, size)
      ensures size % 2 == 1 ==> 0 <= b + size / 2 < |old(mem[..])| == |mem[..]| &&
                                mem[b + size / 2] / 0x100 == old(mem[..])[b + size / 2] / 0x100
      ensures WritesOnly(old(mem[..]), mem[..], Range(b, SlobUnits(size)))
    {
      ghost var m := mem[..];
      var words := size / SLOB_UNIT;
      for i := 0 to words
        invariant forall u :: b <= u < b + i ==> mem[u] == 0
        invariant forall u :: 0 <= u < PAGE_UNITS && !(b <= u < b + i) ==> mem[u] == m[u]
      {
        mem[b + i] := 0;
      }
      if size % SLOB_UNIT == 1 {
        var last: int := mem[b + words];
        mem[b + words] := last - last % 0x100;
      }
      BlockApartFromFree(b);
      LiveWritesKeep(m, mem[..], blocks, freelist, Range(b, SlobUnits(size)));
    }

    /** A write to one unit of a live block. */
    method Store(b: int, i: int, v: SlobIndex)
      requires InPage() && b in live && 0 <= i < live[b]
      modifies mem
      ensures InPage() && mem[..] == old(mem[..])[b + i := v]
    {
      ghost var m := mem[..];
      BlockApartFromFree(b);
      mem[b + i] := v;
      LiveWritesKeep(m, mem[..], blocks, freelist, Range(b, live[b]));
    }

    lemma BlockApartFromFree(b: int)
      requires Sums.Tiles(live, Free()) && b in live
      ensures 0 <= b && 1 <= live[b] && b + live[b] <= PAGE_UNITS
      ensures Range(b, live[b]) !! Free()
    {
      forall u | u in Range(b, live[b]) ensures u !in Free() {
        assert Sums.Covers(live, b, u);
      }
    }

    /** Exactly when n units of the only live block are missing, freeing it would empty the page. */
    lemma LastBlock(b: int)
      requires InPage() && b in live
      ensures units + live[b] == PAGE_UNITS <==> live == map[b := live[b]]
    {
      var rest := live - {b};
      Sums.TotalRemove(live, b);
      forall k | k in rest ensures 1 <= rest[k] {
        assert k in live && live[k] == rest[k];
      }
      Sums.TotalZero(rest);
      Sums.OnlyKey(live, b);
    }
  }

  /** A block of at most a page fits an empty page at any alignment: BUG_ON(!b) cannot fire. */
  lemma EmptyPageFits(n: int, align: int)
    requires 1 <= n <= PAGE_UNITS && ValidAlign(align)
    ensures !NoFit(Range(0, PAGE_UNITS), n, align)
  {
    assert Arithmetic.Times(0, align) == 0;
    assert AlignedUnit(0, align) && FreeRun(Range(0, PAGE_UNITS), 0, n);
  }
}
