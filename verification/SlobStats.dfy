/** free_units and the two system calls that report slob usage. */
module SlobStats {
  import Arithmetic
  import opened Geometry
  import opened Sums
  import opened SlobPage
  import opened SlobHeap

  /** The free units of each held page. */
  ghost function FreeOf(h: Heap): map<Page, int>
    reads h`held, h.held`units
  {
    map p | p in h.held :: p.units
  }

  /** The units in live blocks of each held page. */
  ghost function LiveOf(h: Heap): map<Page, int>
    reads h`held, h.held`live
  {
    map p | p in h.held :: Total(p.live)
  }

  lemma LivePositive(p: Page)
    requires p.InPage()
    ensures 0 <= Total(p.live)
  {
    forall b | b in p.live ensures 0 <= p.live[b] {
      assert Covers(p.live, b, b) || p.live[b] >= 1;
    }
    TotalNonNegative(p.live);
  }

  lemma PageBooks(h: Heap, p: Page)
    requires h.Valid() && p in h.held
    ensures 0 <= p.units && 0 <= Total(p.live) && p.units + Total(p.live) == PAGE_UNITS
    ensures p !in h.place ==> p.units == 0
  {
    hide Heap.RingsOk;
    h.HeldPage(p);
    LivePositive(p);
  }

  lemma PageCount(h: Heap)
    requires h.Valid()
    ensures h.pages == |h.held|
  {
  }

  /** Free and live units together make up all held pages. */
  lemma UnitsConserved(h: Heap)
    requires h.Valid()
    ensures Total(FreeOf(h)) + Total(LiveOf(h)) == PAGE_UNITS * h.pages
    ensures 0 <= Total(FreeOf(h)) && 0 <= Total(LiveOf(h))
  {
    hide Heap.Valid, Total;
    var free, live := FreeOf(h), LiveOf(h);
    PageCount(h);
    assert free.Keys == h.held && live.Keys == h.held;
    forall p | p in h.held ensures free[p] + live[p] == PAGE_UNITS && 0 <= free[p] && 0 <= live[p] {
      PageBooks(h, p);
    }
    TotalComplement(free, live, PAGE_UNITS);
    Arithmetic.TimesIsProduct(|h.held|, PAGE_UNITS);
    TotalNonNegative(free);
    TotalNonNegative(live);
  }

  /** The pages on the lists, in order. */
  ghost function Listed(h: Heap): seq<Page>
    reads h`lists
  {
    h.List(0) + h.List(1) + h.List(2)
  }

  lemma ListedHeld(h: Heap, c: int)
    requires h.Valid() && 0 <= c < 3
    ensures forall i :: 0 <= i < |h.List(c)| ==> h.List(c)[i] in FreeOf(h)
  {
    hide Heap.RingsOk, Heap.PagesOk;
    forall i | 0 <= i < |h.List(c)| ensures h.List(c)[i] in FreeOf(h) {
      ListedIsHeld(h.held, h.lists, h.place, c, i);
    }
  }

  lemma ListedOnce(h: Heap)
    requires h.Valid()
    ensures forall i, j :: 0 <= i < j < |Listed(h)| ==> Listed(h)[i] != Listed(h)[j]
    ensures forall p :: p in h.place ==> p in Listed(h)
    ensures forall p :: p in Listed(h) ==> p in FreeOf(h)
  {
    hide Heap.RingsOk, Heap.HeadsOk, Heap.PagesOk, Heap.FlagsOk;
    ListsDisjoint(h.held, h.lists, h.place);
  }

  lemma ListsDisjoint(held: set<Page>, lists: seq<seq<Page>>, place: map<Page, int>)
    requires Members(held, lists, place)
    ensures var all := lists[0] + lists[1] + lists[2];
            && (forall i, j :: 0 <= i < j < |all| ==> all[i] != all[j])
            && (forall p :: p in place ==> p in all)
            && (forall p :: p in all ==> p in held)
  {
  }

  /** Pages off the lists have no free units, so the lists account for all of them. */
  lemma ListsHoldAllFree(h: Heap)
    requires h.Valid()
    ensures (forall i :: 0 <= i < |Listed(h)| ==> Listed(h)[i] in FreeOf(h)) &&
            Total(FreeOf(h)) == SumOver(Listed(h), FreeOf(h))
  {
    hide Heap.Valid, Total, SumOver, Listed;
    var m, ks := FreeOf(h), Listed(h);
    ListedOnce(h);
    SumOverIsTotal(ks, m);
    var rest := m - set k | k in ks;
    forall p | p in rest ensures rest[p] == 0 {
      PageBooks(h, p);
    }
    TotalAllZero(rest);
  }

  /** One of the three loops of free_units. */
  method ListUnits(h: Heap, c: int, before: int) returns (total: int)
    requires h.Valid() && 0 <= c < 3
    ensures (forall i :: 0 <= i < |h.List(c)| ==> h.List(c)[i] in FreeOf(h)) &&
            total == before + SumOver(h.List(c), FreeOf(h))
  {
    hide Heap.Valid, Heap.NodeFor;
    ListedHeld(h, c);
    ghost var ps := h.List(c);
    ghost var m := FreeOf(h);
    total := before;
    h.Follow(c, 0);
    var node := h.Head(c).next;
    ghost var j := 0;
    while node != h.Head(c)
      invariant 0 <= j <= |ps| && node == h.NodeFor(c, j)
      invariant h.Valid() && h.List(c) == ps && FreeOf(h) == m
      invariant total == before + SumOver(ps[..j], m)
      decreases |ps| - j
    {
      h.Follow(c, j);
      var sp := node.entry as Page;
      total := total + sp.units;
      assert ps[..j + 1][..j] == ps[..j];
      node := node.next;
      j := j + 1;
    }
    h.Follow(c, j);
    assert ps[..j] == ps;
  }

  method FreeUnits(h: Heap) returns (total: int)
    requires h.Valid()
    ensures total == Total(FreeOf(h))
  {
    hide Heap.Valid, Heap.List, FreeOf, SumOver;
    total := ListUnits(h, 0, 0);
    total := ListUnits(h, 1, total);
    total := ListUnits(h, 2, total);
    ListsHoldAllFree(h);
    SumOverConcat(h.List(0) + h.List(1), h.List(2), FreeOf(h));
    SumOverConcat(h.List(0), h.List(1), FreeOf(h));
  }

  /** sys_slob_units_used: the units of all live blocks. */
  method UnitsUsed(h: Heap) returns (used: int)
    requires h.Valid()
    ensures used == Total(LiveOf(h)) && 0 <= used <= PAGE_UNITS * h.pages
  {
    hide Heap.Valid, FreeOf, LiveOf, Total;
    var free := FreeUnits(h);
    UnitsConserved(h);
    used := PAGE_UNITS * h.pages - free;
  }

  /** sys_slob_units_free: all free units. */
  method UnitsFree(h: Heap) returns (free: int)
    requires h.Valid()
    ensures free == Total(FreeOf(h)) && free + Total(LiveOf(h)) == PAGE_UNITS * h.pages
  {
    hide Heap.Valid, FreeOf, LiveOf, Total;
    UnitsConserved(h);
    free := FreeUnits(h);
  }
}
