/**
 Runs of the allocator from an empty heap that end in the two lists on which the promise of a
 best fit fails.  All blocks are quarters of a page.
 */
module BestFitRuns {
  import BestFit
  import PageChoice
  import opened Geometry
  import opened FreeList
  import Sums
  import opened SlobPage
  import opened SlobHeap

  /** The bytes and the units of a quarter of a page. */
  const QUARTER: int := 1024
  const QUARTER_UNITS: int := 512

  /** The first units of the quarters. */
  const ALL: set<int> := {0, 512, 1024, 1536}

  /** The live blocks of page p are the quarters that begin at the units of q. */
  ghost predicate Quarters(live: map<int, int>, q: set<int>) {
    live.Keys == q && forall b :: b in q ==> live[b] == QUARTER_UNITS
  }

  ghost predicate Has(q: set<int>, b: int, u: int) {
    b in q && b <= u < b + QUARTER_UNITS
  }

  ghost predicate InQuarter(q: set<int>, u: int) {
    exists b :: Has(q, b, u)
  }

  lemma {:induction false} TotalQuarters(live: map<int, int>, q: set<int>)
    requires Quarters(live, q)
    ensures Sums.Total(live) == QUARTER_UNITS * |q|
    decreases live
  {
    if live == map[] {
      assert q == {};
    } else {
      var b := Sums.SomeKey(live);
      Sums.TotalRemove(live, b);
      TotalQuarters(live - {b}, q - {b});
    }
  }

  /** The free units of a page of quarters, and their number. */
  lemma QuartersLeave(h: Heap, p: Page, q: set<int>)
    requires h.Valid() && p in h.held && Quarters(p.live, q)
    ensures forall u :: u in p.Free() <==> 0 <= u < PAGE_UNITS && !InQuarter(q, u)
    ensures p.units == PAGE_UNITS - QUARTER_UNITS * |q|
  {
    hide Heap.ListsOk, Heap.FlagsOk;
    h.HeldPage(p);
    TotalQuarters(p.live, q);
    FreeOutside(p.live, p.blocks, q);
  }

  lemma FreeOutside(live: map<int, int>, blocks: seq<Block>, q: set<int>)
    requires Quarters(live, q) && Canonical(blocks) && Sums.Tiles(live, UnitsOf(blocks))
    ensures forall u :: u in UnitsOf(blocks) <==> 0 <= u < PAGE_UNITS && !InQuarter(q, u)
  {
    UnitsBounded(blocks, 0, PAGE_UNITS);
    forall u | 0 <= u < PAGE_UNITS ensures u in UnitsOf(blocks) <==> !InQuarter(q, u) {
      Sums.TilesExactlyOne(live, UnitsOf(blocks), u);
      if b :| Has(q, b, u) {
        assert Sums.Covers(live, b, u);
      }
      if b :| Sums.Covers(live, b, u) {
        assert Has(q, b, u);
      }
    }
  }

  /** The first k quarters. */
  ghost function First(k: int): set<int>
    requires 0 <= k <= 4
  {
    if k == 0 then {} else First(k - 1) + {QUARTER_UNITS * (k - 1)}
  }

  lemma {:induction false} FirstIs(k: int)
    requires 0 <= k <= 4
    ensures |First(k)| == k
    ensures forall b :: b in First(k) ==> 0 <= b < QUARTER_UNITS * k
    ensures forall u :: 0 <= u < QUARTER_UNITS * k ==> InQuarter(First(k), u)
    ensures forall u :: QUARTER_UNITS * k <= u ==> !InQuarter(First(k), u)
    decreases k
  {
    if k > 0 {
      FirstIs(k - 1);
      forall u | 0 <= u < QUARTER_UNITS * k ensures InQuarter(First(k), u) {
        if u < QUARTER_UNITS * (k - 1) {
          assert InQuarter(First(k - 1), u);
          var b :| Has(First(k - 1), b, u);
          assert Has(First(k), b, u);
        } else {
          assert Has(First(k), QUARTER_UNITS * (k - 1), u);
        }
      }
    }
  }

  /** With the first k quarters live, the next one is the lowest fit for a quarter. */
  lemma NextQuarter(free: set<int>, k: int, b: int)
    requires 0 <= k < 4 && forall u :: u in free <==> QUARTER_UNITS * k <= u < PAGE_UNITS
    ensures !NoFit(free, QUARTER_UNITS, 0)
    ensures LowestFit(free, QUARTER_UNITS, 0, b) ==> b == QUARTER_UNITS * k
  {
    assert FreeRun(free, QUARTER_UNITS * k, QUARTER_UNITS);
    if LowestFit(free, QUARTER_UNITS, 0, b) {
      assert b in free;
    }
  }

  // ---------------------------------------------------------------- filling a page

  lemma OnlyPageFits(h: Heap, p: Page, k: int)
    requires h.Valid() && h.List(2) == [p] && p in h.held && 0 <= k < 4 && Quarters(p.live, First(k))
    ensures !h.MustGrow(QUARTER, 0)
  {
    hide Heap.Valid, NoFit, LowestFit;
    QuartersLeave(h, p, First(k));
    FirstIs(k);
    NextQuarter(p.Free(), k, 0);
    BestFit.HeapGrowsIff(h, QUARTER, 0);
    assert h.List(2)[0] == p;
  }

  /** Allocates the next quarter of page p, the only page of its list. */
  method AllocQuarter(h: Heap, p: Page, ghost k: int)
    requires h.Valid() && h.NoEmptyPage() && |h.lists| == 3 && h.lists[2] == [p] && p in h.held
    requires 1 <= k < 4 && Quarters(p.live, First(k))
    modifies h, h.nodes`next, h.nodes`prev
    modifies h.held, set q | q in h.held :: q.mem
    ensures h.Valid() && h.NoEmptyPage() && h.held == old(h.held) && fresh(h.nodes - old(h.nodes))
    ensures Quarters(p.live, First(k + 1))
    ensures h.lists == old(h.lists)[2 := if k < 3 then [p] else []]
    ensures forall q :: q in h.held && q != p ==> q.live == old(q.live)
  {
    hide Heap.Valid, Heap.NoEmptyPage, NoFit, LowestFit, AlignedUnit, Range;
    OnlyPageFits(h, p, k);
    QuartersLeave(h, p, First(k));
    FirstIs(k);
    ghost var free := p.Free();
    var r, j := h.SlobAlloc(QUARTER, false, 0, false);
    NextQuarter(free, k, r.value.off);
    FirstIs(k + 1);
    QuartersLeave(h, p, First(k + 1));
    OnlyPageAfter(p);
  }

  lemma OnlyPageAfter(p: Page)
    ensures ListAfter([p], 0, true) == [] && ListAfter([p], 0, false) == [p]
  {
  }

  /** Fills a page that the heap gets for this, with four blocks of a quarter each. */
  method FillPage(h: Heap) returns (p: Page)
    requires h.Valid() && h.NoEmptyPage() && |h.lists| == 3 && h.lists[2] == []
    modifies h, h.nodes`next, h.nodes`prev
    modifies h.held, set q | q in h.held :: q.mem
    ensures h.Valid() && h.NoEmptyPage() && fresh(h.nodes - old(h.nodes))
    ensures fresh(p) && fresh(p.mem) && p !in old(h.held) && h.held == old(h.held) + {p}
    ensures Quarters(p.live, First(4)) && h.lists == old(h.lists)
    ensures forall q :: q in old(h.held) ==> q.live == old(q.live)
  {
    hide Heap.Valid, Heap.NoEmptyPage, NoFit, LowestFit, AlignedUnit, Range, Quarters, First;
    EmptyListGrows(h);
    ghost var lists := h.lists;
    var r, j := h.SlobAlloc(QUARTER, false, 0, false);
    p := r.value.page;
    FirstQuarter(p, r.value.off);
    OneQuarterLeaves(h, p);
    AllocQuarter(h, p, 1);
    AllocQuarter(h, p, 2);
    AllocQuarter(h, p, 3);
    assert h.lists == lists;
  }

  lemma EmptyListGrows(h: Heap)
    requires |h.lists| == 3 && h.lists[2] == []
    ensures h.MustGrow(QUARTER, 0)
  {
    hide NoFit;
    BestFit.HeapGrowsIff(h, QUARTER, 0);
  }

  /** The first block of a new page begins at its first unit. */
  lemma FirstQuarter(p: Page, b: int)
    requires LowestFit(Range(0, PAGE_UNITS), QUARTER_UNITS, 0, b) && p.live == map[b := QUARTER_UNITS]
    ensures Quarters(p.live, First(1))
  {
    NextQuarter(Range(0, PAGE_UNITS), 0, b);
    assert First(1) == First(0) + {0} == {0};
  }

  lemma OneQuarterLeaves(h: Heap, p: Page)
    requires h.Valid() && p in h.held && Quarters(p.live, First(1))
    ensures p.units == PAGE_UNITS - QUARTER_UNITS
  {
    hide Heap.Valid;
    FirstIs(1);
    QuartersLeave(h, p, First(1));
  }

  // ---------------------------------------------------------------- the two lists

  /** Frees quarter b of page p; another block stays, so the page is kept. */
  method FreeQuarter(h: Heap, p: Page, b: int, ghost q: set<int>, ghost q': set<int>)
    requires h.Valid() && h.NoEmptyPage() && |h.lists| == 3 && p in h.held
    requires Quarters(p.live, q) && b in q && q' == q - {b} && q' != {}
    modifies h, h.nodes`next, h.nodes`prev, p, p.mem
    ensures h.Valid() && h.NoEmptyPage() && h.held == old(h.held) && h.nodes <= old(h.nodes)
    ensures Quarters(p.live, q')
    ensures h.lists == if |q| == 4 then old(h.lists)[2 := [p] + old(h.lists)[2]] else old(h.lists)
  {
    hide Heap.Valid, Heap.NoEmptyPage, Range, Page.Free;
    QuartersLeave(h, p, q);
    assert q != {b};
    MoreThanOne(p.live, q, b);
    FewQuarters(h, p, q);
    h.SlobFree(p, b, QUARTER);
  }

  lemma MoreThanOne(live: map<int, int>, q: set<int>, b: int)
    requires Quarters(live, q) && b in q && q != {b}
    ensures live != map[b := live[b]]
  {
  }

  lemma FewQuarters(h: Heap, p: Page, q: set<int>)
    requires h.Valid() && p in h.held && Quarters(p.live, q)
    ensures |q| <= 4 && (p.units > 0 <==> |q| < 4)
  {
    hide Heap.Valid;
    QuartersLeave(h, p, q);
    NotNegative(h, p);
  }

  lemma NotNegative(h: Heap, p: Page)
    requires h.Valid() && p in h.held
    ensures 0 <= p.units
  {
    hide Heap.ListsOk, Heap.FlagsOk;
    h.HeldPage(p);
  }

  /** Two fresh full pages of a new heap. */
  method TwoFullPages() returns (h: Heap, p: Page, q: Page)
    ensures fresh(h) && fresh(h.nodes) && fresh(p) && fresh(q) && fresh(p.mem) && fresh(q.mem)
    ensures h.Valid() && h.NoEmptyPage() && h.lists == [[], [], []] && h.held == {p, q} && p != q
    ensures Quarters(p.live, ALL) && Quarters(q.live, ALL)
  {
    hide Heap.Valid, Heap.NoEmptyPage, Quarters;
    h := new Heap();
    p := FillPage(h);
    q := FillPage(h);
    AllFour();
  }

  lemma AllFour()
    ensures First(4) == ALL
  {
    assert First(0) == {} && First(1) == {0} && First(2) == {0, 512} && First(3) == {0, 512, 1024};
  }

  lemma LaterQuartersOnly(q: set<int>, u: int)
    requires forall b :: b in q ==> u < b
    ensures !InQuarter(q, u)
  {
  }

  /** Quarters 1 and 3 live: as many free units as half a page has, but not in one piece. */
  lemma Scattered(h: Heap, p: Page)
    requires h.Valid() && p in h.held && Quarters(p.live, {512, 1536})
    ensures p.units == 1024 && NoFit(p.Free(), 1024, 0)
  {
    hide Heap.Valid;
    var q := {512, 1536};
    QuartersLeave(h, p, q);
    var free := p.Free();
    assert Has(q, 512, 1023) && Has(q, 1536, 2047);
    assert 1023 !in free && 2047 !in free;
    forall v | 0 <= v ensures !FreeRun(free, v, 1024) {
      assert v < PAGE_UNITS || v !in free;
    }
  }

  /** No live quarter begins in the first half: half a page is free from the start. */
  lemma FreeInFront(h: Heap, p: Page, q: set<int>)
    requires h.Valid() && p in h.held && Quarters(p.live, q) && forall b :: b in q ==> 1024 <= b
    ensures p.units == PAGE_UNITS - QUARTER_UNITS * |q| && !NoFit(p.Free(), 1024, 0)
  {
    hide Heap.Valid, InQuarter;
    QuartersLeave(h, p, q);
    forall u | 0 <= u < 1024 ensures u in p.Free() {
      LaterQuartersOnly(q, u);
    }
    assert FreeRun(p.Free(), 0, 1024);
  }

  /** The two pages hold these quarters, and are on the list for half a page in this order. */
  ghost predicate TwoPages(h: Heap, p: Page, ps: set<int>, q: Page, qs: set<int>, list: seq<Page>)
    reads h`held, h`lists, p`live, q`live
  {
    && p in h.held && q in h.held && p != q && Quarters(p.live, ps) && Quarters(q.live, qs)
    && |h.lists| == 3 && h.lists[2] == list
  }

  /** A run that leaves quarters 1 and 3 of the first page live, and the last quarter of the second. */
  method ScatteredFirst() returns (h: Heap, p: Page, q: Page)
    ensures h.Valid() && h.NoEmptyPage() && TwoPages(h, p, {512, 1536}, q, {1536}, [p, q])
  {
    hide Heap.Valid, Heap.NoEmptyPage, Quarters;
    h, p, q := TwoFullPages();
    FreeQuarter(h, q, 0, ALL, {512, 1024, 1536});
    FreeQuarter(h, q, 512, {512, 1024, 1536}, {1024, 1536});
    FreeQuarter(h, q, 1024, {1024, 1536}, {1536});
    FreeQuarter(h, p, 0, ALL, {512, 1024, 1536});
    FreeQuarter(h, p, 1024, {512, 1024, 1536}, {512, 1536});
  }

  /** A run that leaves the last quarter of the first page live, and the last two of the second. */
  method LargerFirst() returns (h: Heap, p: Page, q: Page)
    ensures h.Valid() && h.NoEmptyPage() && TwoPages(h, p, {1024, 1536}, q, {1536}, [q, p])
  {
    hide Heap.Valid, Heap.NoEmptyPage, Quarters;
    h, p, q := TwoFullPages();
    FreeQuarter(h, p, 0, ALL, {512, 1024, 1536});
    FreeQuarter(h, p, 512, {512, 1024, 1536}, {1024, 1536});
    FreeQuarter(h, q, 0, ALL, {512, 1024, 1536});
    FreeQuarter(h, q, 512, {512, 1024, 1536}, {1024, 1536});
    FreeQuarter(h, q, 1024, {1024, 1536}, {1536});
  }

  /** The second page fits half a page, the first does not, and slob_alloc needs a new page all the same. */
  lemma SkipsAFit(h: Heap, p: Page, q: Page)
    requires h.Valid() && TwoPages(h, p, {512, 1536}, q, {1536}, [p, q])
    ensures p.units == 1024 && q.units == 1536 && NoFit(p.Free(), 1024, 0) && !NoFit(q.Free(), 1024, 0)
    ensures SlobUnits(2048) == 1024 && h.List(ClassOf(2048)) == [p, q] && h.MustGrow(2048, 0)
  {
    hide Heap.Valid, NoFit, Quarters, Heap.MustGrow, Page.Free;
    Scattered(h, p);
    FreeInFront(h, q, {1536});
    BestFit.HeapGrowsIff(h, 2048, 0);
    var ps := h.List(ClassOf(2048));
    forall i | 0 <= i < |ps| && ps[i].units >= 1024 && !NoFit(ps[i].Free(), 1024, 0)
      ensures exists k :: 0 <= k < i && k < 50 && ps[k].units >= 1024 && ps[k].units < ps[i].units
    {
      assert i == 1 && ps[0].units < ps[i].units;
    }
  }

  /** Both pages fit half a page, and slob_alloc takes the first, larger one. */
  lemma TakesTheLarger(h: Heap, p: Page, q: Page)
    requires h.Valid() && TwoPages(h, p, {1024, 1536}, q, {1536}, [q, p])
    ensures p.units == 1024 && q.units == 1536 && !NoFit(p.Free(), 1024, 0) && !NoFit(q.Free(), 1024, 0)
    ensures SlobUnits(2048) == 1024 && h.List(ClassOf(2048)) == [q, p] && h.IsChosen(ClassOf(2048), 1024, 0, 0)
  {
    hide Heap.Valid, NoFit, Quarters, Page.Free;
    FreeInFront(h, p, {1024, 1536});
    FreeInFront(h, q, {1536});
  }
}
