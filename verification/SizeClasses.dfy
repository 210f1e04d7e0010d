/**
 Blocks of different size classes never share a page, as long as every block is freed with
 the size it was asked for.  A page that was full then returns to the list it came from.
 */
module SizeClasses {
  import Encoding
  import FreeList
  import opened Geometry
  import opened SlobPage
  import opened SlobHeap
  import SlobLaws

  /** The live blocks of page p were asked for with sizes of class c. */
  ghost predicate OfClass(p: Page, live: map<int, int>, sizes: map<Ptr, int>, c: int) {
    forall b :: b in live ==>
      Ptr(p, b) in sizes && 1 <= sizes[Ptr(p, b)] && live[b] == SlobUnits(sizes[Ptr(p, b)]) &&
      ClassOf(sizes[Ptr(p, b)]) == c
  }

  ghost predicate OfOneClass(p: Page, live: map<int, int>, sizes: map<Ptr, int>) {
    OfClass(p, live, sizes, 0) || OfClass(p, live, sizes, 1) || OfClass(p, live, sizes, 2)
  }

  /** Every page holds blocks of one class; a page on a list holds blocks of the class of the list. */
  ghost predicate Segregated(h: Heap, sizes: map<Ptr, int>)
    reads h`held, h`lists, h.held`live
  {
    && |h.lists| == 3
    && (forall p :: p in h.held ==> OfOneClass(p, p.live, sizes))
    && (forall c, i :: 0 <= c < 3 && 0 <= i < |h.lists[c]| ==>
          h.lists[c][i] in h.held && OfClass(h.lists[c][i], h.lists[c][i].live, sizes, c))
  }

  lemma OtherPage(q: Page, live: map<int, int>, sizes: map<Ptr, int>, sizes': map<Ptr, int>, b: Ptr)
    requires q != b.page && sizes' - {b} == sizes - {b}
    ensures forall c :: OfClass(q, live, sizes, c) ==> OfClass(q, live, sizes', c)
  {
    forall a | a in live && Ptr(q, a) in sizes ensures Ptr(q, a) in sizes' && sizes'[Ptr(q, a)] == sizes[Ptr(q, a)] {
      assert Ptr(q, a) in sizes - {b} && Ptr(q, a) in sizes' - {b};
    }
  }

  lemma BlockAdded(p: Page, live: map<int, int>, sizes: map<Ptr, int>, b: int, size: int, c: int)
    requires OfClass(p, live, sizes, c) && b !in live && 1 <= size && ClassOf(size) == c
    ensures OfClass(p, live[b := SlobUnits(size)], sizes[Ptr(p, b) := size], c)
  {
  }

  lemma BlockRemoved(p: Page, live: map<int, int>, sizes: map<Ptr, int>, b: int)
    ensures forall c :: OfClass(p, live, sizes, c) ==> OfClass(p, live - {b}, sizes - {Ptr(p, b)}, c)
  {
  }

  lemma ClassIsUnique(p: Page, live: map<int, int>, sizes: map<Ptr, int>, b: int)
    requires OfOneClass(p, live, sizes) && b in live
    ensures Ptr(p, b) in sizes && 1 <= sizes[Ptr(p, b)] && live[b] == SlobUnits(sizes[Ptr(p, b)])
    ensures OfClass(p, live, sizes, ClassOf(sizes[Ptr(p, b)]))
  {
  }

  /** The pages on the list after are page p and pages on the list before. */
  ghost predicate FewerOr(before: seq<Page>, after: seq<Page>, p: Page) {
    forall i :: 0 <= i < |after| ==> after[i] == p || after[i] in before
  }

  lemma RelistedFewer(h: Heap, before: seq<seq<Page>>, c: int, j: int, p: Page, grown: bool)
    requires h.Relisted(before, c, j, p, grown) && |before| == 3
    ensures ListsKept(before, h.lists, c, p)
    ensures !grown ==> p in before[c]
  {
  }

  lemma RemovedFewer(before: seq<seq<Page>>, after: seq<seq<Page>>, p: Page)
    requires RemovedFrom(before, after, p)
    ensures |after| == |before|
    ensures forall d, i :: 0 <= d < |before| && 0 <= i < |after[d]| ==> after[d][i] in before[d]
  {
  }

  /** The pages on the lists are those of the other lists, and on list c page p or pages that were on it. */
  ghost predicate ListsKept(before: seq<seq<Page>>, after: seq<seq<Page>>, c: int, p: Page) {
    |before| == |after| == 3 && 0 <= c < 3 &&
    forall d :: 0 <= d < 3 ==> if d == c then FewerOr(before[d], after[d], p) else after[d] == before[d]
  }

  lemma OnOneList(held: set<Page>, lists: seq<seq<Page>>, place: map<Page, int>, c: int, d: int, p: Page)
    requires Members(held, lists, place) && 0 <= c < 3 && 0 <= d < 3 && p in lists[c] && p in lists[d]
    ensures c == d
  {
  }

  /** slob_alloc keeps the classes apart, whichever page it takes the block from. */
  method AllocSized(h: Heap, size: int, zero: bool, align: int, oom: bool, ghost sizes: map<Ptr, int>)
      returns (r: Option<Ptr>, ghost sizes': map<Ptr, int>)
    requires h.Valid() && Segregated(h, sizes) && 1 <= size <= PAGE_SIZE && ValidAlign(align)
    modifies h, h.nodes`next, h.nodes`prev
    modifies h.held, set p | p in h.held :: p.mem
    ensures h.Valid() && Segregated(h, sizes')
    ensures sizes' == if r.Some? then sizes[r.value := size] else sizes
  {
    hide Heap.Valid, Heap.Relisted, Heap.MustGrow, Heap.IsChosen, Heap.NoEmptyPage, FreeList.LowestFit, Members;
    hide Encoding.WritesOnly, Encoding.Cleared, FreeList.Range, SlobUnits, AlignedUnit, FewerOr, Page.Free, Heap.List;
    hide ClassOf, OfClass, ListsKept;
    SlobLaws.HeapMembers(h);
    ghost var before, held, place := h.lists, h.held, h.place;
    ghost var j;
    ghost var c := ClassOf(size);
    r, j := h.SlobAlloc(size, zero, align, oom);
    SlobLaws.HeapMembers(h);
    sizes' := sizes;
    if r.Some? {
      sizes' := sizes[r.value := size];
      ghost var p := r.value.page;
      assert sizes' - {r.value} == sizes - {r.value};
      RelistedFewer(h, before, c, j, p, p !in held);
      forall q | q in h.held ensures OfOneClass(q, q.live, sizes') && (q == p ==> OfClass(p, p.live, sizes', c)) {
        if q != p {
          OtherPage(q, q.live, sizes, sizes', r.value);
        } else {
          NothingOfClass(p, sizes, c);
          BlockAdded(p, if p in held then old(p.live) else map[], sizes, r.value.off, size, c);
        }
      }
      forall d, i | 0 <= d < 3 && 0 <= i < |h.lists[d]|
        ensures h.lists[d][i] in h.held && OfClass(h.lists[d][i], h.lists[d][i].live, sizes', d)
      {
        ghost var q := h.lists[d][i];
        FewerOnly(before, h.lists, c, d, i, p);
        if q != p {
          OtherPage(q, q.live, sizes, sizes', r.value);
        } else if d != c {
          OnOneList(held, before, place, c, d, p);
        }
      }
    }
  }

  lemma FewerOnly(before: seq<seq<Page>>, after: seq<seq<Page>>, c: int, d: int, i: int, p: Page)
    requires ListsKept(before, after, c, p) && 0 <= d < 3 && 0 <= i < |after[d]|
    ensures after[d][i] in before[d] || (d == c && after[d][i] == p)
  {
  }

  lemma NothingOfClass(p: Page, sizes: map<Ptr, int>, c: int)
    ensures OfClass(p, map[], sizes, c)
  {
  }

  /** Where the pages on the lists were before page p was freed into: p itself may be new on list c. */
  lemma FreedLists(before: seq<seq<Page>>, after: seq<seq<Page>>, c: int, p: Page, d: int, i: int)
    requires |before| == 3 && 0 <= c < 3
    requires after == before || RemovedFrom(before, after, p) || after == before[c := [p] + before[c]]
    requires 0 <= d < 3 && |after| == 3 && 0 <= i < |after[d]|
    ensures after[d][i] in before[d] || (d == c && after[d][i] == p)
  {
    if RemovedFrom(before, after, p) {
      RemovedFewer(before, after, p);
    }
  }

  /** slob_free keeps the classes apart when a block is freed with the size it was asked for. */
  method FreeSized(h: Heap, p: Page, b: int, size: int, ghost sizes: map<Ptr, int>)
    requires h.Valid() && Segregated(h, sizes) && p in h.held && b in p.live
    requires Ptr(p, b) in sizes && sizes[Ptr(p, b)] == size
    modifies h, h.nodes`next, h.nodes`prev, p, p.mem
    ensures h.Valid() && Segregated(h, sizes - {Ptr(p, b)})
  {
    hide Heap.Valid, Heap.NoEmptyPage, Encoding.WritesOnly, FreeList.Range, SlobUnits, Page.Free, Members;
    hide RemovedFrom, ClassOf, OfClass;
    SlobLaws.HeapMembers(h);
    ghost var before, c := h.lists, ClassOf(size);
    ghost var sizes' := sizes - {Ptr(p, b)};
    ClassIsUnique(p, p.live, sizes, b);
    BlockRemoved(p, p.live, sizes, b);
    h.SlobFree(p, b, size);
    SlobLaws.HeapMembers(h);
    assert sizes' - {Ptr(p, b)} == sizes - {Ptr(p, b)};
    forall q | q in h.held ensures OfOneClass(q, q.live, sizes') {
      if q != p {
        OtherPage(q, q.live, sizes, sizes', Ptr(p, b));
      }
    }
    forall d, i | 0 <= d < 3 && 0 <= i < |h.lists[d]|
      ensures h.lists[d][i] in h.held && OfClass(h.lists[d][i], h.lists[d][i].live, sizes', d)
    {
      ghost var q := h.lists[d][i];
      ListedIsHeld(h.held, h.lists, h.place, d, i);
      FreedLists(before, h.lists, c, p, d, i);
      if q != p {
        OtherPage(q, q.live, sizes, sizes', Ptr(p, b));
      }
    }
  }

  /** On a segregated heap all blocks of a page have sizes of one class. */
  lemma SameClass(h: Heap, sizes: map<Ptr, int>, p: Page, b: int, c: int)
    requires Segregated(h, sizes) && p in h.held && b in p.live && c in p.live
    ensures Ptr(p, b) in sizes && Ptr(p, c) in sizes && ClassOf(sizes[Ptr(p, b)]) == ClassOf(sizes[Ptr(p, c)])
  {
  }

  /** So two frees with the sizes asked for leave the same page lists in either order. */
  lemma SizedFreesCommute(h: Heap, sizes: map<Ptr, int>, p: Page, b: int, c: int,
                          after: seq<seq<Page>>, after': seq<seq<Page>>)
    requires h.Valid() && Segregated(h, sizes) && p in h.held && b in p.live && c in p.live && b != c
    requires Ptr(p, b) in sizes && Ptr(p, c) in sizes
    requires SlobLaws.ListsAfterTwo(h.lists, after, p, p.units > 0, p.live.Keys != {b, c}, ClassOf(sizes[Ptr(p, b)]))
    requires SlobLaws.ListsAfterTwo(h.lists, after', p, p.units > 0, p.live.Keys != {b, c}, ClassOf(sizes[Ptr(p, c)]))
    ensures after == after'
  {
    hide Heap.Valid, Segregated, SlobLaws.ListsAfterTwo, ClassOf;
    SameClass(h, sizes, p, b, c);
    SlobLaws.HeapFreesCommuteIff(h, p, b, sizes[Ptr(p, b)], c, sizes[Ptr(p, c)], after, after');
  }
}
