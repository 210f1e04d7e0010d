/**
 kmalloc and kfree.  A small allocation is a slob block whose first bytes hold the size
 that was asked for; the client gets the rest.  Seen from the clients the heap is a
 collection of disjoint private areas.
 */
module Kmalloc {
  import Arithmetic
  import opened Geometry
  import opened FreeList
  import opened Encoding
  import opened Sums
  import opened SlobPage
  import opened SlobHeap

  /** A pointer as a client sees it: NULL, ZERO_SIZE_PTR, or a unit of some page. */
  datatype Address = Null | ZeroSizePtr | At(ptr: Ptr)

  // ---------------------------------------------------------------- the size header

  function Signed(x: int): (v: SlobIndex)
    requires 0 <= x < 0x10000
  {
    if x < 0x8000 then x else x - 0x10000
  }

  function Unsigned(v: SlobIndex): (x: int)
    ensures 0 <= x < 0x10000
  {
    if v < 0 then v + 0x10000 else v
  }

  /** The unsigned 32-bit word in units a and a + 1, low half first. */
  ghost function Header(m: seq<SlobIndex>, a: int): int
    requires 0 <= a && a + 2 <= |m|
  {
    Unsigned(m[a]) + 0x10000 * Unsigned(m[a + 1])
  }

  lemma HeaderRoundTrip(m: seq<SlobIndex>, a: int, size: int)
    requires 0 <= a && a + 2 <= |m| && 0 <= size < 0x1_0000_0000
    ensures Header(m[a := Signed(size % 0x10000)][a + 1 := Signed(size / 0x10000)], a) == size
  {
  }

  /** The header is as long as the alignment, which is a whole number of units. */
  ghost predicate MinAlign(align: int) {
    4 <= align < PAGE_SIZE && ValidAlign(align)
  }

  lemma MinAlignIs(align: int)
    requires MinAlign(align)
    ensures 4 <= align < PAGE_SIZE && ValidAlign(align)
  {
  }

  lemma MinAlignEven(align: int)
    requires MinAlign(align)
    ensures align % SLOB_UNIT == 0
  {
    Arithmetic.MultipleIsMod(PAGE_SIZE, align);
    if align % 2 == 1 {
      OddDivisor(align, PAGE_SIZE / align, PAGE_SIZE);
    }
  }

  /** Unit a of a page begins a live block that holds size bytes behind a header of align bytes. */
  ghost predicate AreaAt(m: seq<SlobIndex>, live: map<int, int>, a: int, size: int, align: int) {
    && |m| == PAGE_UNITS && 0 <= a && a in live && live[a] == SlobUnits(size + align)
    && 2 <= live[a] && a + live[a] <= PAGE_UNITS && Header(m, a) == size
  }

  ghost function BlockAt(m: seq<SlobIndex>, live: map<int, int>, a: int): seq<SlobIndex> {
    if a in live && 0 <= a <= a + live[a] <= |m| then m[a..a + live[a]] else []
  }

  /** An area survives an allocation on its page: only free units are written. */
  lemma AreaKeptByAlloc(m: seq<SlobIndex>, m': seq<SlobIndex>, live: map<int, int>, free: set<int>,
                        b: int, n: int, a: int, size: int, align: int)
    requires AreaAt(m, live, a, size, align) && Tiles(live, free) && WritesOnly(m, m', free) && b !in live
    ensures a != b && AreaAt(m', live[b := n], a, size, align)
    ensures BlockAt(m', live[b := n], a) == BlockAt(m, live, a)
  {
    BlockKept(m, m', live, free, free, a);
    HeaderOfBlock(m, m', a, live[a]);
  }

  lemma HeaderOfBlock(m: seq<SlobIndex>, m': seq<SlobIndex>, a: int, n: int)
    requires 0 <= a && 2 <= n && a + n <= |m| == |m'| && m[a..a + n] == m'[a..a + n]
    ensures Header(m, a) == Header(m', a)
  {
    assert m[a..a + n][0] == m'[a..a + n][0] && m[a..a + n][1] == m'[a..a + n][1];
  }

  lemma AlignedBehindHeader(b: int, align: int)
    requires MinAlign(align) && AlignedUnit(b, align)
    ensures AlignedUnit(b + align / SLOB_UNIT, align)
  {
    MinAlignEven(align);
    Arithmetic.MultipleIsMod(SLOB_UNIT * b, align);
    Arithmetic.MultipleIsMod(SLOB_UNIT * b + align, align);
    var k := SLOB_UNIT * b / align;
    assert SLOB_UNIT * b + align == (k + 1) * align;
    Arithmetic.MultipleMod(k + 1, align);
  }

  /** A block keeps its contents when only free units of its page are written. */
  lemma BlockKept(m: seq<SlobIndex>, m': seq<SlobIndex>, live: map<int, int>, free: set<int>, s: set<int>, a: int)
    requires Tiles(live, free) && a in live && |m| == PAGE_UNITS && WritesOnly(m, m', s) && s <= free
    ensures 0 <= a && a + live[a] <= PAGE_UNITS == |m'|
    ensures m[a..a + live[a]] == m'[a..a + live[a]]
  {
    forall u | a <= u < a + live[a] ensures m[u] == m'[u] {
      assert Covers(live, a, u);
    }
  }

  /** A block keeps its contents when only units of another block are written. */
  lemma OtherBlockKept(m: seq<SlobIndex>, m': seq<SlobIndex>, live: map<int, int>, free: set<int>, a: int, b: int)
    requires Tiles(live, free) && a in live && b in live && a != b
    requires |m| == PAGE_UNITS && WritesOnly(m, m', Range(b, live[b]))
    ensures 0 <= a && a + live[a] <= PAGE_UNITS == |m'|
    ensures m[a..a + live[a]] == m'[a..a + live[a]]
  {
  }

  /** Another block of the page keeps its area when units of block b are written. */
  lemma AreaKeptByWrite(m: seq<SlobIndex>, m': seq<SlobIndex>, live: map<int, int>, free: set<int>,
                        b: int, a: int, size: int, align: int)
    requires AreaAt(m, live, a, size, align) && Tiles(live, free) && b in live && a != b
    requires WritesOnly(m, m', Range(b, live[b]))
    ensures AreaAt(m', live, a, size, align) && BlockAt(m', live, a) == BlockAt(m, live, a)
  {
    OtherBlockKept(m, m', live, free, a, b);
    HeaderOfBlock(m, m', a, live[a]);
  }

  /** Another block of the page keeps its area when block b is freed. */
  lemma AreaKeptByFree(m: seq<SlobIndex>, m': seq<SlobIndex>, live: map<int, int>, free: set<int>,
                       b: int, a: int, size: int, align: int)
    requires AreaAt(m, live, a, size, align) && Tiles(live, free) && b in live && a != b
    requires WritesOnly(m, m', free + Range(b, live[b]))
    ensures AreaAt(m', live - {b}, a, size, align) && BlockAt(m', live - {b}, a) == BlockAt(m, live, a)
  {
    forall u | a <= u < a + live[a] ensures m[u] == m'[u] {
      assert Covers(live, a, u);
    }
    assert m[a..a + live[a]] == m'[a..a + live[a]];
    HeaderOfBlock(m, m', a, live[a]);
  }

  lemma NotTheOnlyBlock(m: seq<SlobIndex>, live: map<int, int>, b: int, a: int, size: int, align: int)
    requires AreaAt(m, live, a, size, align) && b in live && a != b
    ensures live.Keys != {b} && live != map[b := live[b]]
  {
    assert a in live && a !in map[b := live[b]];
  }

  /** Writing unit k of a block, behind the header, changes only that unit of that block. */
  lemma AreaWritten(m: seq<SlobIndex>, live: map<int, int>, a: int, size: int, align: int, k: int, v: SlobIndex)
    requires AreaAt(m, live, a, size, align) && 2 <= k < live[a]
    ensures 0 <= a + k < |m| && AreaAt(m[a + k := v], live, a, size, align)
    ensures k < |BlockAt(m, live, a)| && BlockAt(m[a + k := v], live, a) == BlockAt(m, live, a)[k := v]
    ensures WritesOnly(m, m[a + k := v], Range(a, live[a]))
  {
  }

  ghost function WithHeader(m: seq<SlobIndex>, b: int, size: int): seq<SlobIndex>
    requires 0 <= b && b + 2 <= |m| && 0 <= size < 0x1_0000_0000
  {
    m[b := Signed(size % 0x10000)][b + 1 := Signed(size / 0x10000)]
  }

  /** The low half of the size comes first. */
  lemma HeaderHalves(m: seq<SlobIndex>, b: int, size: int)
    requires 0 <= b && b + 2 <= |m| && 0 <= size < 0x1_0000_0000
    ensures |WithHeader(m, b, size)| == |m|
    ensures (WithHeader(m, b, size)[b] - size) % 65536 == 0
    ensures (WithHeader(m, b, size)[b + 1] - size / 65536) % 65536 == 0
  {
  }

  /** After the header is stored the block holds an area of size bytes, cleared if the block was. */
  lemma AreaWithHeader(m: seq<SlobIndex>, live: map<int, int>, b: int, size: int, align: int)
    requires MinAlign(align) && 1 <= size && size + align < PAGE_SIZE && |m| == PAGE_UNITS
    requires b in live && live[b] == SlobUnits(size + align) && 0 <= b && b + live[b] <= PAGE_UNITS
    ensures 2 <= live[b] && AreaAt(WithHeader(m, b, size), live, b, size, align)
    ensures live[b] == SlobUnits(size) + align / SLOB_UNIT
    ensures var block := BlockAt(WithHeader(m, b, size), live, b);
            |block| == live[b] && block[align / SLOB_UNIT..] == m[b + align / SLOB_UNIT..b + live[b]]
    ensures WritesOnly(m, WithHeader(m, b, size), Range(b, live[b]))
  {
    MinAlignEven(align);
    HeaderRoundTrip(m, b, size);
  }

  /** The bytes of a cleared block behind the header are zero. */
  lemma ClearedArea(m: seq<SlobIndex>, b: int, size: int, align: int)
    requires MinAlign(align) && 1 <= size && 0 <= b && b + SlobUnits(size + align) <= |m|
    requires Cleared(m, b, size + align)
    ensures SlobUnits(size + align) == SlobUnits(size) + align / SLOB_UNIT
    ensures Cleared(m[b + align / SLOB_UNIT..b + SlobUnits(size + align)], 0, size)
  {
    MinAlignEven(align);
  }

  /** The area behind the header, whatever the memory m held before the header was stored. */
  lemma AreaOfNewBlock(m: seq<SlobIndex>, live: map<int, int>, b: int, size: int, align: int, zero: bool)
    requires MinAlign(align) && 1 <= size && size + align < PAGE_SIZE && |m| == PAGE_UNITS
    requires b in live && live[b] == SlobUnits(size + align) && 0 <= b && b + live[b] <= PAGE_UNITS
    requires zero ==> Cleared(m, b, size + align)
    ensures b + 2 <= PAGE_UNITS && AreaAt(WithHeader(m, b, size), live, b, size, align)
    ensures var block := BlockAt(WithHeader(m, b, size), live, b);
            && 0 <= align / SLOB_UNIT <= |block| && |block[align / SLOB_UNIT..]| == SlobUnits(size)
            && (zero ==> Cleared(block[align / SLOB_UNIT..], 0, size))
  {
    hide Cleared, WithHeader, BlockAt, AreaAt;
    AreaWithHeader(m, live, b, size, align);
    if zero {
      ClearedArea(m, b, size, align);
    }
  }

  lemma OnlyBlock(live: map<int, int>, a: int)
    requires a in live
    ensures live.Keys == {a} <==> live == map[a := live[a]]
  {
  }

  lemma HeaderUnits(align: int)
    requires MinAlign(align)
    ensures 2 <= align / SLOB_UNIT
  {
  }

  lemma IndexInBlock(m: seq<SlobIndex>, live: map<int, int>, a: int, size: int, align: int, k: int)
    requires AreaAt(m, live, a, size, align) && 0 <= k < |BlockAt(m, live, a)|
    ensures a in live && k < live[a]
  {
  }

  // ---------------------------------------------------------------- large areas

  /** PAGE_SIZE << order */
  function Span(order: int): (bytes: int)
    requires 0 <= order
    ensures PAGE_SIZE <= bytes
  {
    if order == 0 then PAGE_SIZE else 2 * Span(order - 1)
  }

  /** get_order: how often bytes must be doubled to hold size. */
  function OrderFrom(size: int, bytes: int): (order: int)
    requires 1 <= bytes
    ensures 0 <= order
    decreases size - bytes
  {
    if size <= bytes then 0 else 1 + OrderFrom(size, 2 * bytes)
  }

  function GetOrder(size: int): int {
    OrderFrom(size, PAGE_SIZE)
  }

  lemma {:induction false} OrderFits(size: int, done: int)
    requires 0 <= done && (done > 0 ==> Span(done - 1) < size)
    ensures var order := done + OrderFrom(size, Span(done));
            size <= Span(order) && (order > 0 ==> Span(order - 1) < size)
    decreases size - Span(done)
  {
    if size > Span(done) {
      OrderFits(size, done + 1);
    }
  }

  /** PAGE_SIZE << order in numbers: 4096 * 2^order. */
  lemma {:induction false} SpanIs(order: int)
    requires 0 <= order
    ensures Span(order) == 4096 * Arithmetic.Power(2, order) && Span(order) % 4096 == 0
    decreases order
  {
    Arithmetic.MultipleMod(Arithmetic.Power(2, order), 4096);
    if order > 0 {
      SpanIs(order - 1);
    }
  }

  lemma SpanSum(a: int, b: int)
    requires 0 <= a && 0 <= b
    ensures Span(0) == 4096 && Span(1) == 8192 && 4096 * Span(a + b) == Span(a) * Span(b)
  {
    hide Span, Arithmetic.Power;
    SpanIs(a);
    SpanIs(b);
    SpanIs(a + b);
    SpanIs(0);
    SpanIs(1);
    Arithmetic.PowerSum(2, a, b);
    var x, y := Arithmetic.Power(2, a), Arithmetic.Power(2, b);
    assert (4096 * x) * (4096 * y) == 4096 * (4096 * (x * y));
  }

  /** The pages of a large area hold it, and half as many would not. */
  ghost predicate Spans(order: int, size: int) {
    && 0 <= order
    && var bytes := 4096 * Arithmetic.Power(2, order);
       size <= bytes && (bytes > 4096 ==> bytes < 2 * size)
  }

  lemma OrderSpans(size: int)
    ensures Spans(GetOrder(size), size)
  {
    hide Span, OrderFrom;
    var order := GetOrder(size);
    SpanStarts();
    OrderFits(size, 0);
    SpanIs(order);
    if order > 0 {
      SpanIs(order - 1);
      Arithmetic.PowerSum(2, 1, order - 1);
    }
  }

  lemma SpanStarts()
    ensures Span(0) == PAGE_SIZE
  {
  }

  class Kmem {
    const heap: Heap
    /** max(ARCH_KMALLOC_MINALIGN, ARCH_SLAB_MINALIGN), in bytes. */
    const align: int
    /** The pointers handed out for small areas and the sizes asked for. */
    ghost var sizes: map<Ptr, int>
    /** The first pages of the large areas handed out, and the sizes asked for. */
    ghost var big: map<Page, int>

    /** The unit where the block behind pointer q begins: the header. */
    ghost function Start(q: Ptr): int {
      q.off - align / SLOB_UNIT
    }

    /** Pointer q lies behind the header of a live block, which records the size asked for. */
    ghost predicate AreaOk(q: Ptr, size: int)
      reads heap`held, q.page`live, q.page.mem
    {
      && q.page in heap.held && 1 <= size && size + align < PAGE_SIZE
      && AreaAt(q.page.mem[..], q.page.live, Start(q), size, align)
    }

    /** The contents of the block behind q, header included. */
    ghost function Block(q: Ptr): seq<SlobIndex>
      reads q.page`live, q.page.mem
    {
      BlockAt(q.page.mem[..], q.page.live, Start(q))
    }

    /** The contents of the area that the client got at q. */
    ghost function Area(q: Ptr): seq<SlobIndex>
      reads q.page`live, q.page.mem
    {
      if 0 <= align / SLOB_UNIT <= |Block(q)| then Block(q)[align / SLOB_UNIT..] else []
    }

    ghost predicate AreasOk()
      reads this`sizes, heap`held
      reads (set q | q in sizes :: q.page)`live, (set q | q in sizes :: q.page.mem)
    {
      forall q :: q in sizes ==> AreaOk(q, sizes[q])
    }

    ghost predicate Valid()
      reads this`sizes, this`big, heap, heap.nodes`next, heap.nodes`prev, heap.held
      reads (set p | p in heap.held :: p.mem), (set p | p in heap.held :: p.list)`entry
      reads heap.small`entry, heap.medium`entry, heap.large`entry
      reads (set q | q in sizes :: q.page)`live, (set q | q in sizes :: q.page.mem), big.Keys`slab, big.Keys`order
    {
      MinAlign(align) && heap.Valid() && AreasOk() && BigApart()
    }

    /** The live blocks of the held pages. */
    ghost function LiveBlocks(): set<Ptr>
      reads heap`held, heap.held`live
    {
      set p, b | p in heap.held && b in p.live :: Ptr(p, b)
    }

    /** The pointer behind the header of block b. */
    ghost function Behind(b: Ptr): Ptr {
      Ptr(b.page, b.off + align / SLOB_UNIT)
    }

    /** The live blocks of the heap are the blocks of the areas, and of extra; no empty page is held. */
    ghost predicate AccountedWith(extra: Option<Ptr>)
      reads this`sizes, heap`held, heap.held`live
    {
      heap.NoEmptyPage() && forall b :: b in LiveBlocks() ==> Behind(b) in sizes || extra == Some(Behind(b))
    }

    /** Every live block of the heap is the block of an area, and no empty page is held. */
    ghost predicate Accounted()
      reads this`sizes, heap`held, heap.held`live
    {
      AccountedWith(None)
    }

    /** The blocks of two areas, headers included, do not overlap, and no area overlaps free units. */
    lemma AreasDisjoint(q: Ptr, r: Ptr)
      requires Valid() && q in sizes && r in sizes
      ensures 0 <= Start(q) <= q.off && q.off + |Area(q)| <= PAGE_UNITS && |Area(q)| == SlobUnits(sizes[q])
      ensures Range(Start(q), q.off + |Area(q)| - Start(q)) !! q.page.Free()
      ensures q != r && q.page == r.page ==> q.off + |Area(q)| <= Start(r) || r.off + |Area(r)| <= Start(q)
    {
      hide Heap.Valid;
      MinAlignEven(align);
      heap.HeldTiles(q.page);
      assert AreaOk(q, sizes[q]) && AreaOk(r, sizes[r]);
      q.page.BlockApartFromFree(Start(q));
    }

    lemma HeldForArea(p: Page)
      requires Accounted() && p in heap.held
      ensures exists q :: q in sizes && q.page == p
    {
      assert p.live != map[];
      var b := SomeKey(p.live);
      assert Ptr(p, b) in LiveBlocks() && Behind(Ptr(p, b)) in sizes;
    }

    /** When every area has been freed no page is held: nothing leaks. */
    lemma NothingLeaks()
      requires Valid() && Accounted() && sizes == map[]
      ensures heap.held == {} && heap.pages == 0
    {
      hide Heap.ListsOk, Heap.PagesOk, Heap.FlagsOk;
      if heap.held != {} {
        var p :| p in heap.held;
        HeldForArea(p);
      }
    }

    constructor (align: int)
      requires MinAlign(align)
      ensures Valid() && Accounted() && sizes == map[] && big == map[] && heap.held == {} && this.align == align
      ensures fresh(heap) && fresh(heap.nodes)
    {
      heap := new Heap();
      this.align := align;
      sizes, big := map[], map[];
    }

    /** Gets a block for size bytes and a header; no area changes. */
    method GetBlock(size: int, zero: bool, oom: bool) returns (r: Option<Ptr>)
      requires Valid() && 1 <= size && size + align < PAGE_SIZE
      modifies heap, heap.nodes`next, heap.nodes`prev
      modifies heap.held`slobFree, heap.held`freelist, heap.held`units, heap.held`blocks, heap.held`live
      modifies (set p | p in heap.held :: p.mem)
      ensures heap.Valid() && AreasOk() && fresh(heap.nodes - old(heap.nodes))
      ensures fresh(heap.held - old(heap.held)) && old(heap.held) <= heap.held
      ensures forall q :: q in sizes ==> Block(q) == old(Block(q))
      ensures old(heap.NoEmptyPage()) ==> heap.NoEmptyPage()
      ensures LiveBlocks() <= old(LiveBlocks()) + if r.Some? then {r.value} else {}
      ensures r.None? <==> oom && old(heap.MustGrow(size + align, align))
      ensures r.Some? ==> NewArea(r.value, size, zero)
      ensures forall p :: p in heap.held - old(heap.held) ==> fresh(p.mem)
    {
      hide Heap.Valid, Tiles, WritesOnly, UnitsOf, Page.Free, AreaAt, BlockAt, Heap.MustGrow, SlobUnits, Cleared;
      hide LowestFit, Heap.IsChosen, Heap.Relisted, Range, Heap.NoEmptyPage, AlignedUnit, Heap.List;
      hide MinAlign, ClassOf, ValidAlign, GetOrder, BigApart;
      MinAlignIs(align);
      forall p | p in heap.held ensures Tiles(p.live, p.Free()) {
        heap.HeldTiles(p);
      }
      ghost var j;
      r, j := heap.SlobAlloc(size + align, zero, align, oom);
      forall q | q in sizes
        ensures AreaOk(q, sizes[q]) && Block(q) == old(Block(q))
        ensures r.Some? ==> q.page != r.value.page || Start(q) != r.value.off
      {
        assert old(AreaOk(q, sizes[q]));
        if r.Some? && q.page == r.value.page {
          AreaKeptByAlloc(old(q.page.mem[..]), q.page.mem[..], old(q.page.live), old(q.page.Free()),
                          r.value.off, SlobUnits(size + align), Start(q), sizes[q], align);
        } else {
          assert q.page.mem[..] == old(q.page.mem[..]) && q.page.live == old(q.page.live);
        }
      }
    }

    /** Block b was obtained for an area of size bytes; no area begins there yet. */
    ghost predicate NewArea(b: Ptr, size: int, zero: bool)
      reads this`sizes, heap`held, b.page`live, b.page.mem
    {
      && b.page in heap.held && b.off in b.page.live && b.page.live[b.off] == SlobUnits(size + align)
      && AlignedUnit(b.off, align)
      && (forall q :: q in sizes ==> q.page != b.page || Start(q) != b.off)
      && (zero ==> && 0 <= b.off && 0 <= size + align && b.off + SlobUnits(size + align) <= b.page.mem.Length
                   && Cleared(b.page.mem[..], b.off, size + align))
    }

    /** *m = size: stores the header of the new block b; no area changes. */
    method PutHeader(b: Ptr, size: int)
      requires MinAlign(align) && heap.Valid() && AreasOk() && NewArea(b, size, false)
      requires 1 <= size && size + align < PAGE_SIZE
      modifies b.page.mem
      ensures heap.Valid() && AreasOk()
      ensures forall q :: q in sizes ==> Block(q) == old(Block(q))
      ensures old(|b.page.mem[..]| == PAGE_UNITS && 0 <= b.off && b.off + 2 <= PAGE_UNITS) &&
              b.page.mem[..] == WithHeader(old(b.page.mem[..]), b.off, size)
    {
      hide Heap.Valid, Tiles, WritesOnly, UnitsOf, Page.Free, AreaAt, BlockAt, SlobUnits, Signed, Range;
      forall p | p in heap.held ensures Tiles(p.live, p.Free()) {
        heap.HeldTiles(p);
      }
      heap.HeldTiles(b.page);
      AreaWithHeader(b.page.mem[..], b.page.live, b.off, size, align);
      heap.StoreUnit(b.page, b.off, 0, Signed(size % 0x10000));
      heap.StoreUnit(b.page, b.off, 1, Signed(size / 0x10000));
      forall q | q in sizes ensures AreaOk(q, sizes[q]) && Block(q) == old(Block(q)) {
        assert old(AreaOk(q, sizes[q]));
        if q.page == b.page {
          AreaKeptByWrite(old(q.page.mem[..]), q.page.mem[..], q.page.live, q.page.Free(),
                          b.off, Start(q), sizes[q], align);
        } else {
          assert q.page.mem[..] == old(q.page.mem[..]);
        }
      }
    }

    /** Area q holds size bytes, all zero if asked for. */
    ghost predicate Fresh(q: Ptr, size: int, zero: bool)
      reads q.page`live, q.page.mem
    {
      && |Area(q)| == SlobUnits(size) && AlignedUnit(q.off, align)
      && (zero && 0 <= size ==> Cleared(Area(q), 0, size))
    }

    /** Stores the header of the new block b; q points behind it. */
    method SetUpArea(b: Ptr, size: int, zero: bool) returns (q: Ptr)
      requires MinAlign(align) && heap.Valid() && AreasOk() && NewArea(b, size, zero)
      requires 1 <= size && size + align < PAGE_SIZE
      modifies b.page.mem
      ensures heap.Valid() && AreasOk()
      ensures forall r :: r in sizes ==> Block(r) == old(Block(r))
      ensures q == Ptr(b.page, b.off + align / SLOB_UNIT)
      ensures q !in sizes && AreaOk(q, size) && Fresh(q, size, zero)
    {
      hide Heap.Valid, AreaAt, BlockAt, AlignedUnit, SlobUnits, Cleared, MinAlign, Range, WithHeader, Tiles, UnitsOf;
      heap.HeldTiles(b.page);
      AreaOfNewBlock(b.page.mem[..], b.page.live, b.off, size, align, zero);
      AlignedBehindHeader(b.off, align);
      PutHeader(b, size);
      q := Ptr(b.page, b.off + align / SLOB_UNIT);
      assert Start(q) == b.off;
    }

    /** Gets a block and stores the header; q will point behind the header. */
    method MakeArea(size: int, zero: bool, oom: bool) returns (r: Option<Ptr>)
      requires Valid() && 1 <= size && size + align < PAGE_SIZE
      modifies heap, heap.nodes`next, heap.nodes`prev
      modifies heap.held`slobFree, heap.held`freelist, heap.held`units, heap.held`blocks, heap.held`live
      modifies (set p | p in heap.held :: p.mem)
      ensures heap.Valid() && AreasOk() && fresh(heap.nodes - old(heap.nodes))
      ensures fresh(heap.held - old(heap.held)) && old(heap.held) <= heap.held
      ensures forall q :: q in sizes ==> Block(q) == old(Block(q))
      ensures forall p :: p in heap.held - old(heap.held) ==> fresh(p.mem)
      ensures old(Accounted()) ==> AccountedWith(r)
      ensures r.None? <==> oom && old(heap.MustGrow(size + align, align))
      ensures r.Some? ==> r.value !in sizes && AreaOk(r.value, size) && Fresh(r.value, size, zero)
    {
      hide Heap.Valid, AreaAt, BlockAt, AlignedUnit, SlobUnits, Cleared, Heap.MustGrow, MinAlign, Fresh, ValidAlign;
      hide Heap.NoEmptyPage, BigApart, AreasOk, LiveBlocks, AreaOk, Block, GetOrder;
      var b := GetBlock(size, zero, oom);
      if b.None? {
        return None;
      }
      var q := SetUpArea(b.value, size, zero);
      r := Some(q);
    }

    /** Large areas record their order, and neither they nor their memory are part of the slob heap. */
    ghost predicate BigApart()
      reads this`big, heap`held, big.Keys`slab, big.Keys`order
    {
      && (forall p :: p in big ==> !p.slab && p.order == GetOrder(big[p]))
      && (forall p, s :: p in big && s in heap.held ==> p != s && p.mem != s.mem)
    }

    ghost method Record(q: Ptr, size: int)
      requires MinAlign(align) && heap.Valid() && AreasOk() && BigApart() && AreaOk(q, size)
      modifies this`sizes
      ensures Valid() && sizes == old(sizes)[q := size]
      ensures old(AccountedWith(Some(q))) ==> Accounted()
    {
      hide Heap.Valid, AreaAt, MinAlign, Heap.NoEmptyPage, GetOrder;
      sizes := sizes[q := size];
    }

    /** The small case of kmalloc. */
    method KmallocSmall(size: int, zero: bool, oom: bool) returns (r: Address)
      requires Valid() && 1 <= size && size + align < PAGE_SIZE
      modifies this`sizes, heap, heap.nodes`next, heap.nodes`prev
      modifies heap.held`slobFree, heap.held`freelist, heap.held`units, heap.held`blocks, heap.held`live
      modifies (set p | p in heap.held :: p.mem)
      ensures Valid() && fresh(heap.nodes - old(heap.nodes)) && fresh(heap.held - old(heap.held))
      ensures old(heap.held) <= heap.held && forall p :: p in heap.held - old(heap.held) ==> fresh(p.mem)
      ensures r.Null? <==> oom && old(heap.MustGrow(size + align, align))
      ensures r.Null? ==> sizes == old(sizes)
      ensures !r.Null? ==> r.At? && r.ptr !in old(sizes) && sizes == old(sizes)[r.ptr := size]
      ensures !r.Null? ==> r.ptr.page in heap.held && Fresh(r.ptr, size, zero)
      ensures old(Accounted()) ==> Accounted()
      ensures forall q :: q in old(sizes) ==> Area(q) == old(Area(q))
    {
      hide Heap.Valid, AreasOk, BlockAt, Fresh, SlobUnits, Heap.MustGrow, MinAlign, AccountedWith, GetOrder;
      var q := MakeArea(size, zero, oom);
      forall p | p in sizes ensures Area(p) == old(Area(p)) {
        assert Block(p) == old(Block(p));
      }
      if q.None? {
        return Null;
      }
      Record(q.value, size);
      r := At(q.value);
    }

    /** The large case of kmalloc: fresh pages, of which the first records the order. */
    method KmallocLarge(size: int) returns (r: Address)
      requires Valid()
      modifies this`big
      ensures Valid() && r.At? && fresh(r.ptr.page) && fresh(r.ptr.page.mem) && r.ptr.off == 0
      ensures big == old(big)[r.ptr.page := size] && Spans(r.ptr.page.order, size)
    {
      hide Heap.Valid, AreaAt, GetOrder, MinAlign, Spans;
      OrderSpans(size);
      var page := new Page();
      page.order := GetOrder(size);
      big := big[page := size];
      r := At(Ptr(page, 0));
    }

    /** kmalloc: large areas are pages that the slob heap never sees, as many as get_order asks for. */
    method Kmalloc(size: int, zero: bool, oom: bool) returns (r: Address)
      requires Valid() && 0 <= size
      modifies this`sizes, this`big, heap, heap.nodes`next, heap.nodes`prev
      modifies heap.held`slobFree, heap.held`freelist, heap.held`units, heap.held`blocks, heap.held`live
      modifies (set p | p in heap.held :: p.mem)
      ensures Valid() && fresh(heap.nodes - old(heap.nodes)) && fresh(heap.held - old(heap.held))
      ensures old(heap.held) <= heap.held && forall p :: p in heap.held - old(heap.held) ==> fresh(p.mem)
      ensures r == ZeroSizePtr <==> size == 0
      ensures r == Null <==>
                size != 0 && oom && (size + align < 4096 ==> old(heap.MustGrow(size + align, align)))
      ensures r.At? && size + align < 4096 ==>
                && r.ptr !in old(sizes) && sizes == old(sizes)[r.ptr := size] && big == old(big)
                && r.ptr.page in heap.held && Fresh(r.ptr, size, zero)
      ensures r.At? && size + align >= 4096 ==>
                && fresh(r.ptr.page) && fresh(r.ptr.page.mem) && r.ptr.off == 0
                && big == old(big)[r.ptr.page := size] && sizes == old(sizes) && Spans(r.ptr.page.order, size)
      ensures !r.At? ==> sizes == old(sizes) && big == old(big)
      ensures old(Accounted()) ==> Accounted()
      ensures forall q :: q in old(sizes) ==> Area(q) == old(Area(q))
    {
      hide Heap.Valid, AreasOk, BlockAt, Fresh, Heap.MustGrow, BigApart, AccountedWith, Spans;
      if size < PAGE_SIZE - align {
        if size == 0 {
          return ZeroSizePtr;
        }
        r := KmallocSmall(size, zero, oom);
      } else {
        if oom {
          return Null;
        }
        r := KmallocLarge(size);
      }
    }

    /** The live blocks of the heap are the blocks of the areas other than q; no empty page is held. */
    ghost predicate AccountedWithout(q: Ptr)
      reads this`sizes, heap`held, heap.held`live
    {
      heap.NoEmptyPage() && forall b :: b in LiveBlocks() ==> Behind(b) in sizes && Behind(b) != q
    }

    /** Strikes out the pointer q, whose block has been freed. */
    ghost method Forget(q: Ptr)
      requires MinAlign(align) && heap.Valid() && BigApart() && forall p :: p in sizes && p != q ==> AreaOk(p, sizes[p])
      modifies this`sizes
      ensures Valid() && sizes == old(sizes) - {q}
      ensures old(AccountedWithout(q)) ==> Accounted()
    {
      hide Heap.Valid, AreaAt, MinAlign, Heap.NoEmptyPage, GetOrder;
      sizes := sizes - {q};
    }

    /** slob_free on the block behind area q; no other area changes. */
    method FreeBlock(q: Ptr)
      requires Valid() && q in sizes
      modifies heap, heap.nodes`next, heap.nodes`prev, q.page, q.page.mem
      ensures heap.Valid() && heap.nodes <= old(heap.nodes)
      ensures heap.held == old(heap.held) - if old(q.page.live.Keys == {Start(q)}) then {q.page} else {}
      ensures q.page in heap.held ==> q.page.live == old(q.page.live) - {Start(q)}
      ensures q.page !in heap.held ==> !q.page.slab
      ensures old(Accounted()) ==> AccountedWithout(q)
      ensures forall p :: p in sizes && p != q ==> AreaOk(p, sizes[p]) && Block(p) == old(Block(p))
    {
      hide Heap.Valid, Tiles, WritesOnly, UnitsOf, Page.Free, AreaAt, BlockAt, SlobUnits, Range, Heap.List, RemovedFrom;
      hide ClassOf, BigApart, Heap.NoEmptyPage, ValidAlign;
      forall p | p in heap.held ensures Tiles(p.live, p.Free()) {
        heap.HeldTiles(p);
      }
      heap.HeldTiles(q.page);
      assert AreaOk(q, sizes[q]);
      var size := ReadHeader(q);
      var a := q.off - align / SLOB_UNIT;
      OnlyBlock(q.page.live, a);
      heap.SlobFree(q.page, a, size + align);
      forall p | p in sizes && p != q ensures AreaOk(p, sizes[p]) && Block(p) == old(Block(p)) {
        assert old(AreaOk(p, sizes[p]));
        if p.page == q.page {
          NotTheOnlyBlock(old(p.page.mem[..]), old(p.page.live), a, Start(p), sizes[p], align);
          AreaKeptByFree(old(p.page.mem[..]), p.page.mem[..], old(p.page.live), old(p.page.Free()),
                         a, Start(p), sizes[p], align);
        } else {
          assert p.page.mem[..] == old(p.page.mem[..]) && p.page.live == old(p.page.live);
        }
      }
    }

    /** The small case of kfree: slob_free gets back exactly the block that slob_alloc gave. */
    method KfreeSmall(q: Ptr)
      requires Valid() && q in sizes
      modifies this`sizes, heap, heap.nodes`next, heap.nodes`prev, q.page, q.page.mem
      ensures Valid() && sizes == old(sizes) - {q} && heap.nodes <= old(heap.nodes)
      ensures heap.held == old(heap.held) - if old(q.page.live.Keys == {Start(q)}) then {q.page} else {}
      ensures q.page in heap.held ==> q.page.live == old(q.page.live) - {Start(q)}
      ensures q.page !in heap.held ==> !q.page.slab
      ensures old(Accounted()) ==> Accounted()
      ensures forall p :: p in sizes ==> Area(p) == old(Area(p))
    {
      hide Heap.Valid, AreaOk, BlockAt, MinAlign, AccountedWith, AccountedWithout, GetOrder;
      SmallOrBig(q);
      FreeBlock(q);
      Forget(q);
    }

    /** *m: the size stored in front of area q. */
    method ReadHeader(q: Ptr) returns (size: int)
      requires MinAlign(align) && heap.Valid() && q in sizes && AreaOk(q, sizes[q])
      ensures size == sizes[q] && Start(q) in q.page.live && q.page.live[Start(q)] == SlobUnits(size + align)
    {
      var a := q.off - align / SLOB_UNIT;
      size := Unsigned(q.page.mem[a]) + 0x10000 * Unsigned(q.page.mem[a + 1]);
    }

    /** kfree on any pointer that kmalloc returned: small areas are told from whole pages by the page flag. */
    method Kfree(block: Address)
      requires Valid()
      requires block.At? ==> block.ptr in sizes || (block.ptr.page in big && block.ptr.off == 0)
      modifies this`sizes, this`big, heap, heap.nodes`next, heap.nodes`prev
      modifies if block.At? then {block.ptr.page} else {}, if block.At? then {block.ptr.page.mem} else {}
      ensures Valid()
      ensures heap.nodes <= old(heap.nodes) && heap.held <= old(heap.held)
      ensures block.At? && block.ptr in old(sizes) ==> sizes == old(sizes) - {block.ptr} && big == old(big)
      ensures block.At? && block.ptr !in old(sizes) ==> sizes == old(sizes) && big == old(big) - {block.ptr.page}
      ensures !block.At? ==> sizes == old(sizes) && big == old(big) && heap.held == old(heap.held)
      ensures block.At? ==> heap.held >= old(heap.held) - {block.ptr.page}
      ensures block.At? && block.ptr.page !in heap.held ==> !block.ptr.page.slab
      ensures old(Accounted()) ==> Accounted()
      ensures forall q :: q in sizes ==> Area(q) == old(Area(q))
    {
      hide Heap.Valid, AreaAt, BlockAt;
      if !block.At? {
        return;
      }
      SmallOrBig(block.ptr);
      var sp := block.ptr.page;
      if sp.slab {
        KfreeSmall(block.ptr);
      } else {
        big := big - {sp};
      }
    }

    lemma SmallOrBig(q: Ptr)
      requires Valid() && (q in sizes || q.page in big)
      ensures q.page.slab <==> q in sizes
    {
      hide Heap.Valid;
      if q in sizes {
        heap.HeldTiles(q.page);
      }
    }

    /** A client writes unit i of its area q. */
    method Write(q: Ptr, i: int, v: SlobIndex)
      requires Valid() && q in sizes && 0 <= i < |Area(q)|
      modifies q.page.mem
      ensures Valid() && Area(q) == old(Area(q))[i := v]
      ensures old(Accounted()) ==> Accounted()
      ensures forall p :: p in sizes && p != q ==> Area(p) == old(Area(p))
    {
      hide Heap.Valid, Tiles, WritesOnly, UnitsOf, Page.Free, SlobUnits, Range, AreaAt, BlockAt, MinAlign;
      forall p | p in heap.held ensures Tiles(p.live, p.Free()) {
        heap.HeldTiles(p);
      }
      heap.HeldTiles(q.page);
      HeaderUnits(align);
      var a, k := q.off - align / SLOB_UNIT, align / SLOB_UNIT + i;
      IndexInBlock(q.page.mem[..], q.page.live, a, sizes[q], align, k);
      AreaWritten(q.page.mem[..], q.page.live, a, sizes[q], align, k, v);
      heap.StoreUnit(q.page, a, k, v);
      forall p | p in sizes && p != q ensures AreaOk(p, sizes[p]) && Block(p) == old(Block(p)) {
        assert old(AreaOk(p, sizes[p]));
        if p.page == q.page {
          AreaKeptByWrite(old(p.page.mem[..]), p.page.mem[..], p.page.live, p.page.Free(),
                          a, Start(p), sizes[p], align);
        } else {
          assert p.page.mem[..] == old(p.page.mem[..]);
        }
      }
    }

    /**
     ksize: the usable bytes behind a pointer.  Those of a small area are exactly its units; a
     large one has the least power of two of pages that holds it.
     */
    method Ksize(block: Address) returns (bytes: int)
      requires Valid() && block != Null
      requires block.At? ==> block.ptr in sizes || (block.ptr.page in big && block.ptr.off == 0)
      ensures block == ZeroSizePtr ==> bytes == 0
      ensures block.At? && block.ptr in sizes ==>
                sizes[block.ptr] <= bytes < sizes[block.ptr] + SLOB_UNIT && bytes == SLOB_UNIT * |Area(block.ptr)|
      ensures block.At? && block.ptr !in sizes ==>
                && bytes % 4096 == 0 && big[block.ptr.page] <= bytes
                && (bytes > 4096 ==> bytes < 2 * big[block.ptr.page])
                && 0 <= block.ptr.page.order && bytes == 4096 * Arithmetic.Power(2, block.ptr.page.order)
    {
      hide Heap.Valid, AreaAt, BlockAt, Span, OrderFrom, Arithmetic.Power, GetOrder;
      if block == ZeroSizePtr {
        return 0;
      }
      SmallOrBig(block.ptr);
      var sp := block.ptr.page;
      if !sp.slab {
        OrderSpans(big[sp]);
        SpanIs(sp.order);
        return Span(sp.order);
      }
      bytes := KsizeSmall(block.ptr);
    }

    /** ksize of a small area. */
    method KsizeSmall(q: Ptr) returns (bytes: int)
      requires Valid() && q in sizes
      ensures sizes[q] <= bytes < sizes[q] + SLOB_UNIT && bytes == SLOB_UNIT * |Area(q)|
    {
      hide Heap.Valid;
      MinAlignEven(align);
      assert AreaOk(q, sizes[q]);
      var size := ReadHeader(q);
      bytes := SlobUnits(size) * SLOB_UNIT;
    }
  }
}
