/**
 The slob heap: three circular lists of partly free pages, the counter of held pages,
 slob_alloc and slob_free.
 */
module SlobHeap {
  import opened Geometry
  import opened FreeList
  import opened Encoding
  import opened Rings
  import Sums
  import opened SlobPage
  import opened PageChoice

  const SLOB_BREAK1: int := 256
  const SLOB_BREAK2: int := 1024

  /** The list that serves blocks of the given size: small, medium or large. */
  function ClassOf(size: int): (c: int)
    ensures 0 <= c < 3
  {
    if size < SLOB_BREAK1 then 0 else if size < SLOB_BREAK2 then 1 else 2
  }

  /** Sizes below 256, below 1024, and from there on. */
  lemma ClassIs(size: int)
    ensures ClassOf(size) == 0 <==> size < 256
    ensures ClassOf(size) == 1 <==> 256 <= size < 1024
    ensures ClassOf(size) == 2 <==> 1024 <= size
  {
  }

  ghost function NodesOf(ps: seq<Page>): seq<ListHead> {
    seq(|ps|, i requires 0 <= i < |ps| => ps[i].list)
  }

  ghost predicate Known(ns: seq<ListHead>, nodes: set<ListHead>) {
    forall i :: 0 <= i < |ns| ==> ns[i] in nodes
  }

  lemma NodesWithout(ps: seq<Page>, head: ListHead, k: int)
    requires 0 <= k < |ps|
    ensures var ns := [head] + NodesOf(ps);
            [head] + NodesOf(ps[..k] + ps[k + 1..]) == ns[..k + 1] + ns[k + 2..]
  {
  }

  lemma NodesRotated(ps: seq<Page>, head: ListHead, k: int)
    requires 0 <= k < |ps|
    ensures var ns := [head] + NodesOf(ps);
            [head] + NodesOf(ps[k..] + ps[..k]) == [head] + ns[k + 1..] + ns[1..k + 1]
  {
  }

  lemma NodesWith(ps: seq<Page>, head: ListHead, p: Page)
    ensures var ns := [head] + NodesOf(ps);
            [head] + NodesOf([p] + ps) == [head, p.list] + ns[1..]
  {
  }

  lemma KnownRotated(ps: seq<Page>, head: ListHead, k: int, nodes: set<ListHead>)
    requires 0 <= k < |ps| && Known([head] + NodesOf(ps), nodes)
    ensures Known([head] + NodesOf(ps[k..] + ps[..k]), nodes)
  {
    var ns, rs := [head] + NodesOf(ps), [head] + NodesOf(ps[k..] + ps[..k]);
    forall i | 0 <= i < |rs| ensures rs[i] in nodes {
      assert rs[i] == ns[if i == 0 then 0 else if i <= |ps| - k then i + k else i - (|ps| - k)];
    }
  }

  lemma KnownWithout(ps: seq<Page>, head: ListHead, k: int, nodes: set<ListHead>)
    requires 0 <= k < |ps| && Known([head] + NodesOf(ps), nodes)
    ensures Known([head] + NodesOf(ps[..k] + ps[k + 1..]), nodes)
  {
    var ns, rs := [head] + NodesOf(ps), [head] + NodesOf(ps[..k] + ps[k + 1..]);
    forall i | 0 <= i < |rs| ensures rs[i] in nodes {
      assert rs[i] == ns[if i <= k then i else i + 1];
    }
  }

  lemma KnownMore(ns: seq<ListHead>, nodes: set<ListHead>, n: ListHead)
    requires Known(ns, nodes)
    ensures Known(ns, nodes + {n})
  {
  }

  lemma KnownLess(ns: seq<ListHead>, nodes: set<ListHead>, n: ListHead)
    requires Known(ns, nodes) && n !in ns
    ensures Known(ns, nodes - {n})
  {
  }

  /** A block, as a page and the offset of its first unit. */
  datatype Ptr = Ptr(page: Page, off: int)

  /** The list after a block was taken from page k: it starts at that page, or after it if it became full. */
  ghost function ListAfter(ps: seq<Page>, k: int, full: bool): seq<Page>
    requires 0 <= k < |ps|
  {
    (if full then ps[k + 1..] else ps[k..]) + ps[..k]
  }

  /**
   The list goes round: the next search begins at the page that served this one, or at the page after it if that
   became full, and comes to the pages before it last.
   */
  lemma ListAfterGoesRound(ps: seq<Page>, k: int, full: bool, i: int)
    requires 0 <= k < |ps|
    ensures |ListAfter(ps, k, full)| == if full then |ps| - 1 else |ps|
    ensures 0 <= i < |ListAfter(ps, k, full)| ==>
              var j := if full then k + 1 + i else k + i;
              ListAfter(ps, k, full)[i] == if j < |ps| then ps[j] else ps[j - |ps|]
  {
  }

  /** Removing page k if it is full, and rotating by k. */
  lemma ListAfterRotation(ps: seq<Page>, k: int, full: bool)
    requires 0 <= k < |ps|
    ensures var rest := if full then ps[..k] + ps[k + 1..] else ps;
            rest[k..] + rest[..k] == ListAfter(ps, k, full)
  {
  }

  /** The numbers of free units of the pages, in list order. */
  ghost function Counts(ps: seq<Page>): (us: seq<int>)
    reads ps`units
    ensures |us| == |ps| && forall i :: 0 <= i < |ps| ==> us[i] == ps[i].units
  {
    if |ps| == 0 then [] else Counts(ps[..|ps| - 1]) + [ps[|ps| - 1].units]
  }

  /** Which of the pages have an aligned run of n free units. */
  ghost function Fits(ps: seq<Page>, n: int, align: int): (fits: seq<bool>)
    reads ps`blocks
    ensures |fits| == |ps| && forall i :: 0 <= i < |ps| ==> fits[i] == !NoFit(ps[i].Free(), n, align)
  {
    if |ps| == 0 then [] else Fits(ps[..|ps| - 1], n, align) + [!NoFit(ps[|ps| - 1].Free(), n, align)]
  }

  /** The place of a page: the list it is on.  Pages without a place are full. */
  ghost predicate Members(held: set<Page>, lists: seq<seq<Page>>, place: map<Page, int>) {
    && |lists| == 3 && place.Keys <= held
    && (forall p :: p in place ==> 0 <= place[p] < 3 && p in lists[place[p]])
    && (forall c, i :: 0 <= c < 3 && 0 <= i < |lists[c]| ==> lists[c][i] in place && place[lists[c][i]] == c)
    && (forall c, i, j :: 0 <= c < 3 && 0 <= i < j < |lists[c]| ==> lists[c][i] != lists[c][j])
  }

  lemma ListedIsHeld(held: set<Page>, lists: seq<seq<Page>>, place: map<Page, int>, c: int, k: int)
    requires Members(held, lists, place) && 0 <= c < 3 && 0 <= k < |lists[c]|
    ensures lists[c][k] in held && lists[c][k] in place
    ensures forall j :: 0 <= j < |lists[c]| && lists[c][j] == lists[c][k] ==> j == k
  {
  }

  lemma PlaceOf(held: set<Page>, lists: seq<seq<Page>>, place: map<Page, int>, p: Page) returns (c: int, k: int)
    requires Members(held, lists, place) && p in place
    ensures |lists| == 3 && 0 <= c < 3 && 0 <= k < |lists[c]| && lists[c][k] == p
  {
    c := place[p];
    k :| 0 <= k < |lists[c]| && lists[c][k] == p;
  }

  /** One list lost page p and is otherwise as before; so are the other lists. */
  ghost predicate RemovedFrom(before: seq<seq<Page>>, after: seq<seq<Page>>, p: Page) {
    exists c, k :: 0 <= c < |before| && 0 <= k < |before[c]| && before[c][k] == p &&
                   after == before[c := before[c][..k] + before[c][k + 1..]]
  }

  lemma MembersRemove(held: set<Page>, lists: seq<seq<Page>>, place: map<Page, int>, c: int, k: int)
    requires Members(held, lists, place) && 0 <= c < 3 && 0 <= k < |lists[c]|
    ensures Members(held, lists[c := lists[c][..k] + lists[c][k + 1..]], place - {lists[c][k]})
  {
    var rest, place' := lists[c][..k] + lists[c][k + 1..], place - {lists[c][k]};
    forall p | p in place' ensures p in lists[c := rest][place[p]] {
      var i :| 0 <= i < |lists[place[p]]| && lists[place[p]][i] == p;
      if place[p] == c {
        assert rest[if i < k then i else i - 1] == p;
      }
    }
  }

  lemma MembersAdd(held: set<Page>, lists: seq<seq<Page>>, place: map<Page, int>, c: int, p: Page)
    requires Members(held, lists, place) && 0 <= c < 3 && p in held && p !in place
    ensures Members(held, lists[c := [p] + lists[c]], place[p := c])
  {
    var more := [p] + lists[c];
    assert more[0] == p;
    forall q | q in place ensures q in lists[c := more][place[q]] {
      var i :| 0 <= i < |lists[place[q]]| && lists[place[q]][i] == q;
      if place[q] == c {
        assert more[i + 1] == q;
      }
    }
  }

  lemma MembersGrow(held: set<Page>, lists: seq<seq<Page>>, place: map<Page, int>, p: Page)
    requires Members(held, lists, place) && p !in held
    ensures Members(held + {p}, lists, place) && p !in place
  {
  }

  lemma MembersShrink(held: set<Page>, lists: seq<seq<Page>>, place: map<Page, int>, p: Page)
    requires Members(held, lists, place) && p !in place
    ensures Members(held - {p}, lists, place)
  {
  }

  lemma MembersRotate(held: set<Page>, lists: seq<seq<Page>>, place: map<Page, int>, c: int, k: int)
    requires Members(held, lists, place) && 0 <= c < 3 && 0 <= k <= |lists[c]|
    ensures Members(held, lists[c := lists[c][k..] + lists[c][..k]], place)
  {
    var rs := lists[c][k..] + lists[c][..k];
    forall p | p in place ensures p in lists[c := rs][place[p]] {
      var i :| 0 <= i < |lists[place[p]]| && lists[place[p]][i] == p;
      if place[p] == c {
        assert rs[if i < k then i + (|rs| - k) else i - k] == p;
      }
    }
  }

  class Heap {
    const small: ListHead
    const medium: ListHead
    const large: ListHead
    var pages: int
    /** The pages held, the pages on each of the three lists in order, and the list each page is on. */
    ghost var held: set<Page>
    ghost var lists: seq<seq<Page>>
    ghost var place: map<Page, int>
    /** The list heads and the list nodes of the held pages. */
    ghost var nodes: set<ListHead>

    function Head(c: int): ListHead {
      if c == 0 then small else if c == 1 then medium else large
    }

    /** The nodes of list c: the list head and then the pages. */
    ghost function Nodes(c: int): seq<ListHead>
      requires 0 <= c < |lists|
      reads this`lists
    {
      [Head(c)] + NodesOf(lists[c])
    }

    ghost predicate NodesKnown()
      reads this`lists, this`nodes
    {
      |lists| == 3 && Known(Nodes(0), nodes) && Known(Nodes(1), nodes) && Known(Nodes(2), nodes)
    }

    /** The three lists are rings with no node in common. */
    ghost predicate RingsOk()
      reads this`lists, this`nodes, nodes`next, nodes`prev
    {
      NodesKnown() && ThreeRings(Nodes(0), Nodes(1), Nodes(2))
    }

    /** The same, seen from list c and the other two, d and e. */
    lemma RingsFrom(c: int, d: int, e: int)
      requires NodesKnown() && 0 <= c < 3 && d == (if c == 0 then 1 else 0) && e == (if c == 2 then 1 else 2)
      ensures |lists| == 3 && (RingsOk() <==> ThreeRings(Nodes(c), Nodes(d), Nodes(e)))
      ensures Known(Nodes(c), nodes) && Known(Nodes(d), nodes) && Known(Nodes(e), nodes)
    {
      assert c == 0 || c == 1 || c == 2;
    }

    lemma AllKnown(c: int, d: int, e: int)
      requires |lists| == 3 && 0 <= c < 3 && d == (if c == 0 then 1 else 0) && e == (if c == 2 then 1 else 2)
      requires Known(Nodes(c), nodes) && Known(Nodes(d), nodes) && Known(Nodes(e), nodes)
      ensures NodesKnown()
    {
      assert c == 0 || c == 1 || c == 2;
    }

    ghost predicate OffLists(n: ListHead)
      requires |lists| == 3
      reads this`lists
    {
      n !in Nodes(0) && n !in Nodes(1) && n !in Nodes(2)
    }

    ghost predicate PageOk(p: Page)
      reads p`freelist, p`units, p`blocks, p`live, p`slab, p.mem, p.list`entry
    {
      p.InPage() && p.slab && p.list.entry == p
    }

    ghost predicate PagesOk()
      reads this`held, this`nodes, held`freelist, held`units, held`blocks, held`live, held`slab
      reads (set p | p in held :: p.mem), (set p | p in held :: p.list)`entry
    {
      && (forall p :: p in held ==> PageOk(p) && p.list in nodes)
      && (forall p, q :: p in held && q in held && p != q ==> p.mem != q.mem)
    }

    ghost predicate HeadsOk()
      reads small`entry, medium`entry, large`entry
    {
      small.entry == null && medium.entry == null && large.entry == null
    }

    /** Pages are flagged when they have a place; all but x have one exactly when they are partly free. */
    ghost predicate FlagsOk(x: Page?)
      reads this`held, this`place, held`slobFree, held`units
    {
      forall p :: p in held ==> p.slobFree == (p in place) && (p != x ==> p.slobFree == (p.units > 0))
    }

    /** The rings hold exactly the pages that have a place. */
    ghost predicate ListsOk()
      reads this`held, this`lists, this`place, this`nodes, nodes`next, nodes`prev
      reads small`entry, medium`entry, large`entry
    {
      |lists| == 3 && RingsOk() && HeadsOk() && Members(held, lists, place)
    }

    ghost predicate Valid()
      reads this, nodes`next, nodes`prev, held
      reads (set p | p in held :: p.mem), (set p | p in held :: p.list)`entry
      reads small`entry, medium`entry, large`entry
    {
      |lists| == 3 && ListsOk() && PagesOk() && FlagsOk(null) && pages == |held|
    }

    /** Every held page has a live block: a page whose last block was freed is given back. */
    ghost predicate NoEmptyPage()
      reads this`held, held`live
    {
      forall p :: p in held ==> p.live != map[]
    }

    /** A block was taken from page p: page j of list c before, or a new page. */
    ghost predicate Relisted(before: seq<seq<Page>>, c: int, j: int, p: Page, grown: bool)
      reads this`lists, p`units
    {
      && 0 <= c < |before|
      && if grown then lists == before[c := (if p.units == 0 then [] else [p]) + before[c]]
         else && 0 <= j < |before[c]| && before[c][j] == p
              && lists == before[c := ListAfter(before[c], j, p.units == 0)]
    }

    constructor ()
      ensures Valid() && NoEmptyPage() && held == {} && lists == [[], [], []] && fresh(nodes)
    {
      small := new ListHead();
      medium := new ListHead();
      large := new ListHead();
      pages, held, lists, place := 0, {}, [[], [], []], map[];
      nodes := {small, medium, large};
      new;
      EmptyLists();
    }

    /** Three list heads that stand alone make three empty lists. */
    lemma EmptyLists()
      requires lists == [[], [], []] && held == {} && place == map[] && pages == 0
      requires nodes == {small, medium, large} && small != medium && small != large && medium != large
      requires forall n :: n in nodes ==> n.next == n && n.prev == n && n.entry == null
      ensures Valid() && NoEmptyPage()
    {
      hide ThreeRings, Ring;
      LoneRing(small);
      LoneRing(medium);
      LoneRing(large);
      assert Nodes(0) == [small] && Nodes(1) == [medium] && Nodes(2) == [large];
      LoneRings(small, medium, large);
      assert Members(held, lists, place);
    }

    // ---------------------------------------------------------------- the rings

    /** Records the new order of list c, whose ring has been changed. */
    ghost method SetList(c: int, d: int, e: int, ps: seq<Page>)
      requires NodesKnown() && 0 <= c < 3 && d == (if c == 0 then 1 else 0) && e == (if c == 2 then 1 else 2)
      requires Known([Head(c)] + NodesOf(ps), nodes)
      requires ThreeRings([Head(c)] + NodesOf(ps), Nodes(d), Nodes(e))
      modifies this`lists
      ensures RingsOk() && lists == old(lists)[c := ps]
    {
      hide Ring, ThreeRings, Known;
      RingsFrom(c, d, e);
      ghost var nd, ne := Nodes(d), Nodes(e);
      lists := lists[c := ps];
      assert Nodes(d) == nd && Nodes(e) == ne;
      AllKnown(c, d, e);
      RingsFrom(c, d, e);
    }

    method RemoveFromList(p: Page, ghost c: int, ghost k: int)
      requires RingsOk() && 0 <= c < 3 && 0 <= k < |lists[c]| && lists[c][k] == p
      modifies this`lists, nodes`next, nodes`prev
      ensures RingsOk()
      ensures lists == old(lists)[c := old(lists[c])[..k] + old(lists[c])[k + 1..]]
    {
      hide Ring, ThreeRings, Known;
      ghost var d, e := if c == 0 then 1 else 0, if c == 2 then 1 else 2;
      ghost var ns, nd, ne := Nodes(c), Nodes(d), Nodes(e);
      RingsFrom(c, d, e);
      NodesWithout(lists[c], Head(c), k);
      KnownWithout(lists[c], Head(c), k, nodes);
      ListDelIn(p.list, ns, k + 1, nd, ne);
      SetList(c, d, e, lists[c][..k] + lists[c][k + 1..]);
    }

    method AddToList(p: Page, c: int)
      requires RingsOk() && 0 <= c < 3 && p.list in nodes && OffLists(p.list)
      modifies this`lists, nodes`next, nodes`prev
      ensures RingsOk()
      ensures lists == old(lists)[c := [p] + old(lists[c])]
    {
      hide Ring, ThreeRings;
      ghost var d, e := if c == 0 then 1 else 0, if c == 2 then 1 else 2;
      ghost var ns, nd, ne := Nodes(c), Nodes(d), Nodes(e);
      RingsFrom(c, d, e);
      NodesWith(lists[c], Head(c), p);
      ListAddIn(p.list, Head(c), ns, nd, ne);
      SetList(c, d, e, [p] + lists[c]);
    }

    /** Moves the head of list c to the place before page k. */
    method MoveHead(c: int, pos: ListHead, ghost k: int)
      requires RingsOk() && 0 <= c < 3 && 0 <= k < |lists[c]| && pos == lists[c][k].list
      modifies this`lists, nodes`next, nodes`prev
      ensures RingsOk()
      ensures lists == old(lists)[c := old(lists[c])[k..] + old(lists[c])[..k]]
    {
      hide Ring, ThreeRings, Known;
      ghost var d, e := if c == 0 then 1 else 0, if c == 2 then 1 else 2;
      ghost var ns, nd, ne := Nodes(c), Nodes(d), Nodes(e);
      RingsFrom(c, d, e);
      NodesRotated(lists[c], Head(c), k);
      KnownRotated(lists[c], Head(c), k, nodes);
      ListMoveTailIn(Head(c), pos, ns, k + 1, nd, ne);
      SetList(c, d, e, lists[c][k..] + lists[c][..k]);
    }

    // ---------------------------------------------------------------- pages on and off the lists

    /** clear_slob_page_free: takes page p, page k of list c, off its list. */
    method ClearSlobPageFree(p: Page, ghost c: int, ghost k: int)
      requires ListsOk() && 0 <= c < 3 && 0 <= k < |lists[c]| && lists[c][k] == p
      modifies this`lists, this`place, nodes`next, nodes`prev, p`slobFree
      ensures ListsOk() && !p.slobFree && place == old(place) - {p}
      ensures lists == old(lists)[c := old(lists[c])[..k] + old(lists[c])[k + 1..]]
    {
      hide RingsOk, HeadsOk, Members;
      MembersRemove(held, lists, place, c, k);
      RemoveFromList(p, c, k);
      p.slobFree := false;
      place := place - {p};
    }

    lemma NodeIsElsewhere(p: Page)
      requires ListsOk() && p.list.entry == p && p !in place
      requires forall q :: q in held ==> q.list.entry == q
      ensures OffLists(p.list)
    {
    }

    /** set_slob_page_free: puts page p at the front of list c. */
    method SetSlobPageFree(p: Page, c: int)
      requires ListsOk() && p in held && 0 <= c < 3 && p !in place && p.list in nodes && OffLists(p.list)
      modifies this`lists, this`place, nodes`next, nodes`prev, p`slobFree
      ensures ListsOk() && p.slobFree && place == old(place)[p := c]
      ensures lists == old(lists)[c := [p] + old(lists[c])]
    {
      hide RingsOk, HeadsOk, Members;
      MembersAdd(held, lists, place, c, p);
      AddToList(p, c);
      p.slobFree := true;
      place := place[p := c];
    }

    /** Page p had the free units and live blocks given, and the lowest fitting run was taken, at b. */
    ghost predicate Taken(p: Page, free: set<int>, live: map<int, int>, n: int, align: int, b: int)
      reads p`blocks, p`live
    {
      LowestFit(free, n, align, b) && p.Free() == free - Range(b, n) && b !in live && p.live == live[b := n]
    }

    /** The part of slob_page_alloc that works inside the page. */
    method AllocInPage(p: Page, size: int, align: int) returns (r: Option<int>)
      requires Valid() && 1 <= size && ValidAlign(align) && p in held && p in place
      modifies p.mem, p`freelist, p`units, p`blocks, p`live
      ensures ListsOk() && PagesOk() && FlagsOk(p) && 0 <= p.units
      ensures r.Some? ==> Taken(p, old(p.Free()), old(p.live), SlobUnits(size), align, r.value)
      ensures r.None? ==> unchanged(p) && unchanged(p.mem) && NoFit(p.Free(), SlobUnits(size), align)
      ensures WritesOnly(old(p.mem[..]), p.mem[..], old(p.Free()))
    {
      hide Page.InPage, Page.Free, HeadsOk, Members, LowestFit, NoFit, WritesOnly;
      r := p.PageAlloc(size, align);
    }

    /**
     slob_page_alloc on page k of list c: takes the lowest fitting run of the page, and takes
     the page off its list if it became full.
     */
    method SlobPageAlloc(p: Page, size: int, align: int, ghost c: int, ghost k: int) returns (r: Option<int>)
      requires Valid() && 1 <= size && ValidAlign(align)
      requires 0 <= c < 3 && 0 <= k < |lists[c]| && lists[c][k] == p
      modifies this`lists, this`place, nodes`next, nodes`prev
      modifies p`slobFree, p.mem, p`freelist, p`units, p`blocks, p`live
      ensures Valid()
      ensures r.Some? ==> Taken(p, old(p.Free()), old(p.live), SlobUnits(size), align, r.value)
      ensures r.Some? ==> lists == if p.units > 0 then old(lists) else
                                     old(lists)[c := old(lists[c])[..k] + old(lists[c])[k + 1..]]
      ensures 0 <= p.units
      ensures r.None? ==> unchanged(this) && unchanged(p) && unchanged(p.mem)
      ensures r.None? ==> NoFit(p.Free(), SlobUnits(size), align)
      ensures WritesOnly(old(p.mem[..]), p.mem[..], old(p.Free()))
    {
      hide Page.InPage, Page.Free, RingsOk, HeadsOk, Members, PagesOk, LowestFit, NoFit, WritesOnly;
      ListedIsHeld(held, lists, place, c, k);
      r := AllocInPage(p, size, align);
      if r.None? || p.units != 0 {
        return;
      }
      ClearSlobPageFree(p, c, k);
    }

    // ---------------------------------------------------------------- the search of slob_alloc

    ghost function List(c: int): seq<Page>
      reads this`lists
    {
      if 0 <= c < |lists| then lists[c] else []
    }

    /** The node of page j of list c, and after the last page the list head. */
    ghost function NodeFor(c: int, j: int): ListHead
      reads this`lists
    {
      if 0 <= j < |List(c)| then List(c)[j].list else Head(c)
    }

    /** list_for_each_entry visits the pages in order and stops at the list head. */
    lemma Follow(c: int, j: int)
      requires Valid() && 0 <= c < 3 && 0 <= j <= |List(c)|
      ensures |lists| == 3 && Head(c).next == NodeFor(c, 0)
      ensures j < |List(c)| ==> NodeFor(c, j).next == NodeFor(c, j + 1) && NodeFor(c, j).entry == List(c)[j]
      ensures NodeFor(c, j) == Head(c) <==> j == |List(c)|
    {
      hide Page.InPage, RingsOk;
      Links(c, 0);
      Links(c, j);
      if j < |List(c)| {
        assert Nodes(c)[j + 1] == List(c)[j].list;
        Links(c, j + 1);
      }
    }

    /** The pages tried while a search for n units passes the first j pages of list c. */
    ghost function Tries(c: int, n: int, j: int): seq<int>
      reads this`lists, List(c)`units
    {
      if 0 <= j <= |List(c)| then Attempts(Counts(List(c)), n, j) else []
    }

    lemma NextTry(c: int, n: int, j: int)
      requires Valid() && 0 <= c < 3 && 0 <= j < |List(c)|
      ensures List(c)[j] in held
      ensures Tries(c, n, j + 1) ==
              Tries(c, n, j) + if List(c)[j].units >= n then [BestFor(Counts(List(c)), n, j)] else []
    {
      ListedIsHeld(held, lists, place, c, j);
    }

    /** No record among the first j pages of list c fits. */
    ghost predicate Failed(c: int, n: int, align: int, j: int)
      reads this`lists, List(c)`units, List(c)`blocks
    {
      FailsUpTo(Counts(List(c)), n, Fits(List(c), n, align), j)
    }

    lemma FailedAtStart(c: int, n: int, align: int)
      ensures Failed(c, n, align, 0) && Tries(c, n, 0) == []
    {
    }

    /** A page without enough free units is no record. */
    lemma FailedBeyondSmall(c: int, n: int, align: int, j: int)
      requires Failed(c, n, align, j) && 0 <= j < |List(c)| && List(c)[j].units < n
      ensures Failed(c, n, align, j + 1)
    {
    }

    /** Page j of list c is the first record that fits. */
    ghost predicate IsChosen(c: int, n: int, align: int, j: int)
      reads this`lists, List(c)`units, List(c)`blocks
    {
      Chosen(Counts(List(c)), n, Fits(List(c), n, align), j)
    }

    /** Following the links of list c from node i leads to page i, and from the last node to the head. */
    lemma Links(c: int, i: int)
      requires ListsOk() && PagesOk() && 0 <= c < 3 && 0 <= i <= |lists[c]|
      ensures i < |lists[c]| ==> Nodes(c)[i].next == lists[c][i].list && lists[c][i].list.entry == lists[c][i]
      ensures i < |lists[c]| ==> lists[c][i].list.prev == Nodes(c)[i] && lists[c][i].list != Head(c)
      ensures i == |lists[c]| ==> Nodes(c)[i].next == Head(c) && Head(c).prev == Nodes(c)[i]
      ensures forall j :: 0 <= j <= |lists[c]| && Nodes(c)[j] == Nodes(c)[i] ==> j == i
    {
      hide Page.InPage, Ring, Members;
      var ns := Nodes(c);
      assert Ring(ns) by {
        assert c == 0 || c == 1 || c == 2;
      }
      RingAt(ns, i);
      if i < |lists[c]| {
        ListedIsHeld(held, lists, place, c, i);
        assert ns[i + 1] == lists[c][i].list && PageOk(lists[c][i]);
      }
    }

    /**
     The scan made for page j of list c, sp: the first of the smallest roomy pages among the
     first SCAN_LIMIT positions up to j, if it is smaller than sp.  Only pages are looked at.
     */
    method BestPage(c: int, need: int, sp: Page, ghost j: int) returns (best: Page)
      requires Valid() && 0 <= c < 3 && 0 <= j < |lists[c]| && lists[c][j] == sp
      ensures best == lists[c][BestFor(Counts(lists[c]), need, j)]
    {
      hide RingsOk, HeadsOk, PagesOk, Members, FlagsOk, Counts;
      ListedIsHeld(held, lists, place, c, j);
      ghost var us := Counts(lists[c]);
      var iter := Head(c);
      best := sp;
      var i := 0;
      while i < SCAN_LIMIT
        invariant 0 <= i <= SCAN_LIMIT && i <= j && iter == Nodes(c)[i]
        invariant best == lists[c][Scan(us, need, j, i)]
      {
        Links(c, i);
        var cand := iter.next.entry as Page;
        if cand.units >= need && cand.units < best.units {
          best := cand;
        }
        if cand == sp {
          return;
        }
        iter := iter.next;
        i := i + 1;
      }
    }

    lemma OtherMemory(p: Page)
      requires PagesOk() && p in held
      ensures forall q :: q in held && q != p ==> q.mem != p.mem
    {
    }

    /** Lets the next search start at the page after node prev, node k of list c. */
    method Rotate(prev: ListHead, c: int, ghost k: int)
      requires Valid() && 0 <= c < 3 && 0 <= k <= |lists[c]| && prev == Nodes(c)[k]
      modifies this`lists, nodes`next, nodes`prev
      ensures Valid()
      ensures lists == old(lists)[c := old(lists[c])[k..] + old(lists[c])[..k]]
    {
      hide RingsOk, HeadsOk, Page.InPage, Members, FlagsOk;
      var head := Head(c);
      Links(c, k);
      Links(c, 0);
      Links(c, |lists[c]|);
      if lists[c] != [] {
        Links(c, 1);
      }
      MembersRotate(held, lists, place, c, k);
      if prev != head.prev && head.next != prev.next {
        MoveHead(c, prev.next, k);
      } else {
        ghost var ps := lists[c];
        assert k == 0 || k == |ps| by {
          assert k < |ps| ==> Nodes(c)[k + 1] == ps[k].list;
        }
        assert ps[k..] + ps[..k] == ps;
      }
    }

    /** An attempt on the page that the scan settles on can only succeed if that page is sp itself. */
    method PickBest(sp: Page, n: int, ghost align: int, c: int, ghost j: int) returns (best: Page, ghost b: int)
      requires Valid() && 0 <= c < 3 && 0 <= j < |List(c)| && List(c)[j] == sp && sp.units >= n
      requires Failed(c, n, align, j)
      ensures 0 <= b < |List(c)| && best == List(c)[b] && best in held
      ensures b == BestFor(Counts(List(c)), n, j)
      ensures !NoFit(best.Free(), n, align) <==> IsChosen(c, n, align, j)
      ensures IsChosen(c, n, align, j) ==> b == j
      ensures NoFit(best.Free(), n, align) ==> Failed(c, n, align, j + 1)
    {
      hide Page.Free, RingsOk, HeadsOk, Members, PagesOk, FlagsOk, NoFit, FailsUpTo, Chosen, BestFor;
      ghost var us, fits := Counts(lists[c]), Fits(lists[c], n, align);
      b := BestFor(us, n, j);
      SuccessIsAtCurrentPage(us, n, fits, j);
      ListedIsHeld(held, lists, place, c, b);
      best := BestPage(c, n, sp, j);
    }

    /** The attempt on the page the scan settles on, page b; prev is the node before that page. */
    method TryBest(sp: Page, size: int, align: int, c: int, ghost j: int)
        returns (r: Option<Ptr>, prev: ListHead, ghost b: int)
      requires Valid() && 1 <= size && ValidAlign(align)
      requires 0 <= c < 3 && 0 <= j < |List(c)| && List(c)[j] == sp && sp.units >= SlobUnits(size)
      requires Failed(c, SlobUnits(size), align, j)
      modifies this`lists, this`place, nodes`next, nodes`prev
      modifies held`slobFree, held`freelist, held`units, held`blocks, held`live, (set p | p in held :: p.mem)
      ensures Valid()
      ensures b == old(BestFor(Counts(List(c)), SlobUnits(size), j))
      ensures r.Some? <==> old(IsChosen(c, SlobUnits(size), align, j))
      ensures r.Some? ==> r.value.page == sp &&
                          Taken(sp, old(sp.Free()), old(sp.live), SlobUnits(size), align, r.value.off)
      ensures r.Some? ==> j <= |List(c)| && prev == Nodes(c)[j] && 0 <= sp.units
      ensures r.Some? ==> lists == if sp.units > 0 then old(lists) else
                                     old(lists)[c := old(List(c))[..j] + old(List(c))[j + 1..]]
      ensures r.None? ==> lists == old(lists) && place == old(place) && Failed(c, SlobUnits(size), align, j + 1)
      ensures forall p :: p in old(held) && (r.None? || p != sp) ==> unchanged(p) && unchanged(p.mem)
      ensures r.Some? ==> WritesOnly(old(sp.mem[..]), sp.mem[..], old(sp.Free()))
    {
      hide Page.InPage, Page.Free, ListsOk, RingsOk, HeadsOk, Members, PagesOk, FlagsOk;
      hide LowestFit, NoFit, WritesOnly, IsChosen, BestFor, Taken, Failed, Counts, Fits, SlobUnits;
      var best;
      best, b := PickBest(sp, SlobUnits(size), align, c, j);
      Links(c, b);
      prev := best.list.prev;
      OtherMemory(best);
      ghost var free, live := best.Free(), best.live;
      var t := SlobPageAlloc(best, size, align, c, b);
      if t.None? {
        r := None;
      } else {
        TakenFits(best, free, live, SlobUnits(size), align, t.value);
        r := Some(Ptr(best, t.value));
      }
    }

    lemma TakenFits(p: Page, free: set<int>, live: map<int, int>, n: int, align: int, b: int)
      requires Taken(p, free, live, n, align, b)
      ensures !NoFit(free, n, align)
    {
      LowestFitFits(free, n, align, b);
    }

    /**
     The body of the search loop for the roomy page j of list c, sp, when no record before it
     fits: an attempt on the page the scan settles on, page b, and on success the rotation.
     */
    method Attempt(sp: Page, size: int, align: int, c: int, ghost j: int) returns (r: Option<Ptr>, ghost b: int)
      requires Valid() && 1 <= size && ValidAlign(align)
      requires 0 <= c < 3 && 0 <= j < |List(c)| && List(c)[j] == sp && sp.units >= SlobUnits(size)
      requires Failed(c, SlobUnits(size), align, j)
      modifies this`lists, this`place, nodes`next, nodes`prev
      modifies held`slobFree, held`freelist, held`units, held`blocks, held`live, (set p | p in held :: p.mem)
      ensures Valid()
      ensures b == old(BestFor(Counts(List(c)), SlobUnits(size), j))
      ensures r.Some? <==> old(IsChosen(c, SlobUnits(size), align, j))
      ensures r.Some? ==> r.value.page == sp &&
                          Taken(sp, old(sp.Free()), old(sp.live), SlobUnits(size), align, r.value.off)
      ensures r.Some? ==> lists == old(lists)[c := ListAfter(old(List(c)), j, sp.units == 0)]
      ensures r.None? ==> lists == old(lists) && place == old(place) && Failed(c, SlobUnits(size), align, j + 1)
      ensures forall p :: p in old(held) && (r.None? || p != sp) ==> unchanged(p) && unchanged(p.mem)
      ensures r.Some? ==> WritesOnly(old(sp.mem[..]), sp.mem[..], old(sp.Free()))
    {
      hide Page.InPage, Page.Free, ListsOk, PagesOk, FlagsOk, WritesOnly;
      hide Failed, IsChosen, Taken, ListAfter, BestFor, Counts, Fits;
      ghost var ps := List(c);
      var prev;
      r, prev, b := TryBest(sp, size, align, c, j);
      if r.Some? {
        ListAfterRotation(ps, j, sp.units == 0);
        Rotate(prev, c, j);
      }
    }

    /** The body of the search loop for page j of list c, sp. */
    method Visit(sp: Page, size: int, align: int, c: int, ghost j: int) returns (r: Option<Ptr>, ghost more: seq<int>)
      requires Valid() && 1 <= size && ValidAlign(align)
      requires 0 <= c < 3 && 0 <= j < |List(c)| && List(c)[j] == sp && Failed(c, SlobUnits(size), align, j)
      modifies this`lists, this`place, nodes`next, nodes`prev
      modifies held`slobFree, held`freelist, held`units, held`blocks, held`live, (set p | p in held :: p.mem)
      ensures Valid()
      ensures more == old(if sp.units >= SlobUnits(size) then [BestFor(Counts(List(c)), SlobUnits(size), j)] else [])
      ensures r.Some? ==> old(IsChosen(c, SlobUnits(size), align, j)) && r.value.page == sp
      ensures r.Some? ==> Taken(sp, old(sp.Free()), old(sp.live), SlobUnits(size), align, r.value.off)
      ensures r.Some? ==> lists == old(lists)[c := ListAfter(old(List(c)), j, sp.units == 0)]
      ensures r.Some? ==> WritesOnly(old(sp.mem[..]), sp.mem[..], old(sp.Free()))
      ensures r.None? ==> lists == old(lists) && place == old(place) && Failed(c, SlobUnits(size), align, j + 1)
      ensures forall p :: p in old(held) && (r.None? || p != sp) ==> unchanged(p) && unchanged(p.mem)
    {
      hide Page.InPage, Page.Free, ListsOk, PagesOk, FlagsOk, WritesOnly;
      hide Failed, IsChosen, Taken, ListAfter, BestFor, Counts, Fits;
      if sp.units < SlobUnits(size) {
        FailedBeyondSmall(c, SlobUnits(size), align, j);
        return None, [];
      }
      ghost var b;
      r, b := Attempt(sp, size, align, c, j);
      more := [b];
    }

    /**
     The search loop of slob_alloc over list c.  It takes a block from the first record that
     fits, page j, or gives up when no record fits.  The pages tried, in order, are those of
     Attempts.
     */
    method SearchList(size: int, align: int, c: int) returns (r: Option<Ptr>, ghost j: int, ghost tried: seq<int>)
      requires Valid() && 1 <= size && ValidAlign(align) && 0 <= c < 3
      modifies this`lists, this`place, nodes`next, nodes`prev
      modifies held`slobFree, held`freelist, held`units, held`blocks, held`live, (set p | p in held :: p.mem)
      ensures Valid()
      ensures r.Some? ==> r.value.page in old(held) && Relisted(old(lists), c, j, r.value.page, false)
      ensures r.Some? ==> old(IsChosen(c, SlobUnits(size), align, j))
      ensures r.Some? ==> Taken(r.value.page, old(r.value.page.Free()), old(r.value.page.live),
                                SlobUnits(size), align, r.value.off)
      ensures r.Some? ==> WritesOnly(old(r.value.page.mem[..]), r.value.page.mem[..], old(r.value.page.Free()))
      ensures r.None? ==> lists == old(lists) && place == old(place)
      ensures r.None? ==> j == |List(c)| && Failed(c, SlobUnits(size), align, j)
      ensures forall p :: p in old(held) && (r.None? || p != r.value.page) ==> unchanged(p) && unchanged(p.mem)
      ensures tried == old(Tries(c, SlobUnits(size), if r.Some? then j + 1 else j))
    {
      hide Page.InPage, Page.Free, RingsOk, HeadsOk, Members, PagesOk, FlagsOk;
      hide WritesOnly, Failed, IsChosen, Taken, ListAfter, BestFor, Fits, SlobUnits, Tries, Counts, Valid, NodeFor;
      var n := SlobUnits(size);
      Follow(c, 0);
      FailedAtStart(c, n, align);
      var node := Head(c).next;
      j, tried := 0, [];
      while node != Head(c)
        invariant Valid() && lists == old(lists) && place == old(place)
        invariant 0 <= j <= |List(c)| && node == NodeFor(c, j)
        invariant forall p :: p in old(held) ==> unchanged(p) && unchanged(p.mem)
        invariant Failed(c, n, align, j)
        invariant tried == old(Tries(c, n, j))
        decreases |List(c)| - j
      {
        Follow(c, j);
        NextTry(c, n, j);
        var sp := node.entry as Page;
        assert sp.mem[..] == old(sp.mem[..]) && sp.Free() == old(sp.Free());
        ghost var more;
        r, more := Visit(sp, size, align, c, j);
        tried := tried + more;
        if r.Some? {
          return;
        }
        Follow(c, j);
        node := node.next;
        j := j + 1;
      }
      Follow(c, j);
      r := None;
    }

    // ---------------------------------------------------------------- growing the heap

    ghost method KnowNode(n: ListHead)
      requires ListsOk() && PagesOk() && FlagsOk(null) && n !in nodes
      modifies this`nodes
      ensures ListsOk() && PagesOk() && FlagsOk(null) && OffLists(n) && nodes == old(nodes) + {n}
    {
      hide Page.InPage, ThreeRings, Members, Known, OffLists;
      NodesOff(n);
      KnownMore(Nodes(0), nodes, n);
      KnownMore(Nodes(1), nodes, n);
      KnownMore(Nodes(2), nodes, n);
      nodes := nodes + {n};
    }

    ghost method AddHeld(sp: Page)
      requires ListsOk() && PagesOk() && FlagsOk(null)
      requires sp !in held && PageOk(sp) && !sp.slobFree && sp.list in nodes
      requires forall p :: p in held ==> p.mem != sp.mem
      modifies this`held
      ensures held == old(held) + {sp} && ListsOk() && PagesOk() && FlagsOk(sp) && sp !in place
    {
      hide Page.InPage, Members, RingsOk, PageOk, HeadsOk;
      MembersGrow(held, lists, place, sp);
      held := held + {sp};
    }

    /** Counts page sp as held; it is on no list yet. */
    method Hold(sp: Page)
      requires Valid() && sp !in held && PageOk(sp) && !sp.slobFree && sp.list !in nodes
      requires forall p :: p in held ==> p.mem != sp.mem
      modifies this`held, this`nodes, this`pages
      ensures held == old(held) + {sp} && nodes == old(nodes) + {sp.list} && pages == |held|
      ensures ListsOk() && PagesOk() && FlagsOk(sp) && sp !in place && OffLists(sp.list)
    {
      hide ListsOk, PagesOk, FlagsOk, PageOk;
      KnowNode(sp.list);
      pages := pages + 1;
      AddHeld(sp);
    }

    lemma NodesOff(n: ListHead)
      requires RingsOk() && n !in nodes
      ensures OffLists(n)
    {
    }

    /** Puts the held, partly free page sp, which is on no list, on list c. */
    method Enlist(sp: Page, c: int)
      requires ListsOk() && PagesOk() && FlagsOk(sp) && pages == |held|
      requires sp in held && sp !in place && OffLists(sp.list) && 0 <= c < 3 && 0 < sp.units
      modifies this`lists, this`place, nodes`next, nodes`prev, sp`slobFree
      ensures Valid() && lists == old(lists)[c := [sp] + old(List(c))]
    {
      hide Page.InPage, RingsOk, HeadsOk, Members, OffLists;
      SetSlobPageFree(sp, c);
    }

    /** Takes a page obtained from the page allocator into the heap, as the first page of list c. */
    method AddPage(c: int) returns (sp: Page)
      requires Valid() && 0 <= c < 3
      modifies this, nodes`next, nodes`prev
      ensures Valid()
      ensures fresh(sp) && fresh(sp.mem) && fresh(sp.list)
      ensures held == old(held) + {sp} && sp !in old(held)
      ensures lists == old(lists)[c := [sp] + old(List(c))]
      ensures nodes == old(nodes) + {sp.list}
      ensures sp.Free() == Range(0, PAGE_UNITS) && sp.live == map[] && sp.units == PAGE_UNITS
    {
      hide Page.InPage, ListsOk, PagesOk, FlagsOk, OffLists, UnitsOf;
      sp := new Page();
      sp.slab := true;
      sp.SetUp();
      Hold(sp);
      Enlist(sp, c);
    }

    /** The part of slob_alloc that gets a new page; BUG_ON(!b) cannot fire. */
    method AllocFromNewPage(size: int, align: int, c: int, ghost j: int) returns (r: Ptr)
      requires Valid() && 0 <= c < 3 && 1 <= size <= PAGE_SIZE && ValidAlign(align)
      modifies this, nodes`next, nodes`prev
      ensures Valid()
      ensures fresh(r.page) && fresh(r.page.mem) && r.page !in old(held) && held == old(held) + {r.page}
      ensures fresh(nodes - old(nodes))
      ensures Taken(r.page, Range(0, PAGE_UNITS), map[], SlobUnits(size), align, r.off)
      ensures Relisted(old(lists), c, j, r.page, true)
    {
      hide Page.InPage, Page.Free, ListsOk, PagesOk, FlagsOk, Taken, WritesOnly, NoFit;
      var sp := AddPage(c);
      EmptyPageFits(SlobUnits(size), align);
      var b := SlobPageAlloc(sp, size, align, c, 0);
      r := Ptr(sp, b.value);
    }

    /** memset(b, 0, size) on a live block of the heap. */
    method ClearBlock(p: Page, b: int, size: int)
      requires Valid() && p in held && b in p.live && 0 <= size && SlobUnits(size) <= p.live[b]
      modifies p.mem
      ensures Valid() && 0 <= b && b + SlobUnits(size) <= p.mem.Length && Cleared(p.mem[..], b, size)
      ensures WritesOnly(old(p.mem[..]), p.mem[..], Range(b, SlobUnits(size)))
    {
      hide ListsOk, FlagsOk, Cleared, WritesOnly, Range, UnitsOf, Encodes;
      p.Memset(b, size);
    }

    /** No page of the list for this size takes a block: slob_alloc then needs a new page. */
    ghost predicate MustGrow(size: int, align: int)
      reads this`lists, List(ClassOf(size))`units, List(ClassOf(size))`blocks
    {
      Failed(ClassOf(size), SlobUnits(size), align, |List(ClassOf(size))|)
    }

    lemma ChosenNeedsNoGrowth(size: int, align: int)
      ensures forall j :: IsChosen(ClassOf(size), SlobUnits(size), align, j) ==> !MustGrow(size, align)
    {
    }

    /** slob_alloc before the block is cleared. */
    method AllocBlock(size: int, align: int, oom: bool) returns (r: Option<Ptr>, ghost j: int, ghost tried: seq<int>)
      requires Valid() && 1 <= size <= PAGE_SIZE && ValidAlign(align)
      modifies this, nodes`next, nodes`prev
      modifies held`slobFree, held`freelist, held`units, held`blocks, held`live, (set p | p in held :: p.mem)
      ensures Valid() && fresh(nodes - old(nodes))
      ensures tried == old(Tries(ClassOf(size), SlobUnits(size),
                                 if MustGrow(size, align) then |List(ClassOf(size))| else j + 1))
      // the outcome: an existing page, a new page, or none
      ensures r.None? <==> oom && old(MustGrow(size, align))
      ensures r.None? ==> held == old(held) && lists == old(lists) && place == old(place)
      ensures r.Some? && old(MustGrow(size, align)) ==>
                && fresh(r.value.page) && fresh(r.value.page.mem) && r.value.page !in old(held)
                && held == old(held) + {r.value.page}
                && Taken(r.value.page, Range(0, PAGE_UNITS), map[], SlobUnits(size), align, r.value.off)
                && Relisted(old(lists), ClassOf(size), j, r.value.page, true)
      ensures r.Some? && !old(MustGrow(size, align)) ==>
                && held == old(held) && r.value.page in old(held)
                && Relisted(old(lists), ClassOf(size), j, r.value.page, false)
                && old(IsChosen(ClassOf(size), SlobUnits(size), align, j))
                && Taken(r.value.page, old(r.value.page.Free()), old(r.value.page.live),
                         SlobUnits(size), align, r.value.off)
                && WritesOnly(old(r.value.page.mem[..]), r.value.page.mem[..], old(r.value.page.Free()))
      // every other page is left alone
      ensures forall p :: p in old(held) && (r.None? || p != r.value.page) ==> unchanged(p) && unchanged(p.mem)
    {
      hide Page.InPage, Page.Free, ListsOk, PagesOk, FlagsOk, Taken, WritesOnly, Relisted, Failed, IsChosen;
      hide SlobUnits, Tries, Range, Valid;
      var c := ClassOf(size);
      ChosenNeedsNoGrowth(size, align);
      r, j, tried := SearchList(size, align, c);
      if r.None? && !oom {
        var b := AllocFromNewPage(size, align, c, j);
        r := Some(b);
      }
    }

    /** Block b of n units, suitably aligned, was added to the live blocks of page p. */
    ghost predicate NewBlock(p: Page, live: map<int, int>, n: int, align: int, b: int)
      reads p`live
    {
      AlignedUnit(b, align) && b !in live && p.live == live[b := n]
    }

    /** The block taken is aligned, and its units were free. */
    lemma TakenBlock(p: Page, free: set<int>, live: map<int, int>, n: int, align: int, b: int)
      requires Taken(p, free, live, n, align, b)
      ensures NewBlock(p, live, n, align, b) && Range(b, n) <= free && LowestFit(free, n, align, b)
      ensures b in p.live && p.live[b] == n && p.live != map[]
    {
    }

    /** slob_alloc before the block is cleared, as seen from the live blocks. */
    method AllocLive(size: int, align: int, oom: bool) returns (r: Option<Ptr>, ghost j: int)
      requires Valid() && 1 <= size <= PAGE_SIZE && ValidAlign(align)
      modifies this, nodes`next, nodes`prev
      modifies held`slobFree, held`freelist, held`units, held`blocks, held`live, (set p | p in held :: p.mem)
      ensures Valid() && fresh(nodes - old(nodes))
      ensures r.None? <==> oom && old(MustGrow(size, align))
      ensures held == old(held) + if r.Some? then {r.value.page} else {}
      ensures r.Some? ==> r.value.page !in old(held) <==> old(MustGrow(size, align))
      ensures if r.Some? then Relisted(old(lists), ClassOf(size), j, r.value.page, r.value.page !in old(held))
              else lists == old(lists)
      ensures old(NoEmptyPage()) ==> NoEmptyPage()
      ensures r.Some? && r.value.page !in old(held) ==>
                && fresh(r.value.page) && fresh(r.value.page.mem)
                && NewBlock(r.value.page, map[], SlobUnits(size), align, r.value.off)
      ensures r.Some? ==> if r.value.page in old(held) then old(IsChosen(ClassOf(size), SlobUnits(size), align, j))
                          else LowestFit(Range(0, PAGE_UNITS), SlobUnits(size), align, r.value.off)
      ensures r.Some? && r.value.page in old(held) ==>
                LowestFit(old(r.value.page.Free()), SlobUnits(size), align, r.value.off)
      ensures r.Some? && r.value.page in old(held) ==>
                && NewBlock(r.value.page, old(r.value.page.live), SlobUnits(size), align, r.value.off)
                && Range(r.value.off, SlobUnits(size)) <= old(r.value.page.Free())
      ensures forall p :: p in old(held) && (r.None? || p != r.value.page) ==> unchanged(p) && unchanged(p.mem)
      ensures r.Some? && r.value.page in old(held) ==>
                WritesOnly(old(r.value.page.mem[..]), r.value.page.mem[..], old(r.value.page.Free()))
    {
      hide Page.InPage, Page.Free, ListsOk, PagesOk, FlagsOk, Taken, WritesOnly, ListAfter, Tries, IsChosen;
      hide SlobUnits, NewBlock, Range, MustGrow, List, Relisted, LowestFit;
      ghost var tried;
      r, j, tried := AllocBlock(size, align, oom);
      if r.Some? {
        var p, b := r.value.page, r.value.off;
        if p in old(held) {
          TakenBlock(p, old(p.Free()), old(p.live), SlobUnits(size), align, b);
        } else {
          TakenBlock(p, Range(0, PAGE_UNITS), map[], SlobUnits(size), align, b);
        }
      }
    }

    lemma NewBlockIsLive(p: Page, live: map<int, int>, n: int, align: int, b: int)
      requires NewBlock(p, live, n, align, b)
      ensures b in p.live && p.live[b] == n && p.live != map[]
    {
    }

    /**
     slob_alloc.  The new block is aligned and disjoint from all live blocks; no unit that was
     live is written; and memory runs out only when a page is needed and cannot be had.
     */
    method SlobAlloc(size: int, zero: bool, align: int, oom: bool) returns (r: Option<Ptr>, ghost j: int)
      requires Valid() && 1 <= size <= PAGE_SIZE && ValidAlign(align)
      modifies this, nodes`next, nodes`prev
      modifies held`slobFree, held`freelist, held`units, held`blocks, held`live, (set p | p in held :: p.mem)
      ensures Valid() && fresh(nodes - old(nodes))
      ensures r.None? <==> oom && old(MustGrow(size, align))
      ensures held == old(held) + if r.Some? then {r.value.page} else {}
      ensures r.Some? ==> r.value.page !in old(held) <==> old(MustGrow(size, align))
      ensures if r.Some? then Relisted(old(lists), ClassOf(size), j, r.value.page, r.value.page !in old(held))
              else lists == old(lists)
      ensures old(NoEmptyPage()) ==> NoEmptyPage()
      ensures r.Some? && r.value.page !in old(held) ==>
                && fresh(r.value.page) && fresh(r.value.page.mem)
                && NewBlock(r.value.page, map[], SlobUnits(size), align, r.value.off)
      ensures r.Some? ==> if r.value.page in old(held) then old(IsChosen(ClassOf(size), SlobUnits(size), align, j))
                          else LowestFit(Range(0, PAGE_UNITS), SlobUnits(size), align, r.value.off)
      ensures r.Some? && r.value.page in old(held) ==>
                LowestFit(old(r.value.page.Free()), SlobUnits(size), align, r.value.off)
      ensures r.Some? && r.value.page in old(held) ==>
                NewBlock(r.value.page, old(r.value.page.live), SlobUnits(size), align, r.value.off)
      ensures r.Some? && zero ==>
                && 0 <= r.value.off && r.value.off + SlobUnits(size) <= r.value.page.mem.Length
                && Cleared(r.value.page.mem[..], r.value.off, size)
      ensures forall p :: p in old(held) && (r.None? || p != r.value.page) ==> unchanged(p) && unchanged(p.mem)
      ensures r.Some? && r.value.page in old(held) ==>
                WritesOnly(old(r.value.page.mem[..]), r.value.page.mem[..], old(r.value.page.Free()))
    {
      hide Page.InPage, Page.Free, ListsOk, PagesOk, FlagsOk, WritesOnly, Cleared, NewBlock, Range, MustGrow, List;
      hide Relisted, SlobUnits, LowestFit, IsChosen;
      r, j := AllocLive(size, align, oom);
      if r.Some? && zero {
        var p, b := r.value.page, r.value.off;
        if p in old(held) {
          NewBlockIsLive(p, old(p.live), SlobUnits(size), align, b);
        } else {
          NewBlockIsLive(p, map[], SlobUnits(size), align, b);
        }
        ghost var m1 := p.mem[..];
        OtherMemory(p);
        ClearBlock(p, b, size);
        if p in old(held) {
          WritesTwice(old(p.mem[..]), m1, p.mem[..], old(p.Free()), Range(b, SlobUnits(size)));
        }
      }
    }

    /** A write to one unit of a live block. */
    method StoreUnit(p: Page, b: int, i: int, v: SlobIndex)
      requires Valid() && p in held && b in p.live && 0 <= i < p.live[b]
      modifies p.mem
      ensures Valid() && 0 <= b + i < p.mem.Length && p.mem[..] == old(p.mem[..])[b + i := v]
    {
      hide ThreeRings;
      HeldTiles(p);
      p.Store(b, i, v);
    }

    lemma HeldTiles(p: Page)
      requires Valid() && p in held
      ensures p.mem.Length == PAGE_UNITS && Sums.Tiles(p.live, p.Free()) && p.slab
      ensures forall b :: b in p.live ==> 0 <= b && b + p.live[b] <= PAGE_UNITS
      ensures forall q :: q in held && q != p ==> q.mem != p.mem
    {
      hide ListsOk, FlagsOk;
      HeldPage(p);
    }

    // ---------------------------------------------------------------- slob_free

    /** Takes page p off the list it is on. */
    method Delist(p: Page)
      requires Valid() && p in held && p.slobFree
      modifies this`lists, this`place, nodes`next, nodes`prev, p`slobFree
      ensures ListsOk() && PagesOk() && FlagsOk(p) && p !in place && !p.slobFree
      ensures RemovedFrom(old(lists), lists, p)
    {
      hide Page.InPage, RingsOk, HeadsOk, Members;
      ghost var c, k := PlaceOf(held, lists, place, p);
      ClearSlobPageFree(p, c, k);
    }

    ghost method DropHeld(p: Page)
      requires ListsOk() && PagesOk() && FlagsOk(p) && p in held && p !in place
      modifies this`held
      ensures held == old(held) - {p} && ListsOk() && PagesOk() && FlagsOk(null)
    {
      hide Page.InPage, Members, RingsOk, PageOk, HeadsOk;
      MembersShrink(held, lists, place, p);
      held := held - {p};
    }

    ghost method ForgetNode(n: ListHead)
      requires ListsOk() && PagesOk() && FlagsOk(null) && OffLists(n) && forall q :: q in held ==> q.list != n
      modifies this`nodes
      ensures ListsOk() && PagesOk() && FlagsOk(null) && nodes == old(nodes) - {n}
    {
      hide Page.InPage, ThreeRings, Members, Known, PageOk;
      KnownLess(Nodes(0), nodes, n);
      KnownLess(Nodes(1), nodes, n);
      KnownLess(Nodes(2), nodes, n);
      nodes := nodes - {n};
    }

    /** Page p, which is on no list, is given back to the page allocator. */
    method Drop(p: Page)
      requires ListsOk() && PagesOk() && FlagsOk(p) && pages == |held|
      requires p in held && p !in place
      modifies this`held, this`nodes, this`pages, p`slab
      ensures Valid() && held == old(held) - {p} && nodes == old(nodes) - {p.list}
      ensures !p.slab && p.slobFree == old(p.slobFree)
    {
      hide Page.InPage, RingsOk, HeadsOk, Members, PagesOk, FlagsOk;
      OffListsHeld(p);
      Sums.CardMinus(held, {p});
      DropHeld(p);
      ForgetNode(p.list);
      p.slab := false;
      pages := pages - 1;
    }

    lemma OffListsHeld(p: Page)
      requires ListsOk() && PagesOk() && p in held && p !in place
      ensures OffLists(p.list)
      ensures forall q :: q in held && q != p ==> q.list != p.list
    {
      hide Page.InPage;
      forall q | q in held ensures q.list.entry == q {
        assert PageOk(q);
      }
      NodeIsElsewhere(p);
    }

    /** Takes page p off its list, if it is on one, and gives it back. */
    method GiveBack(p: Page)
      requires Valid() && p in held
      modifies this`lists, this`place, this`held, this`nodes, this`pages, nodes`next, nodes`prev, p`slobFree, p`slab
      ensures Valid() && held == old(held) - {p} && nodes <= old(nodes) && !p.slab && !p.slobFree
      ensures if old(p.units) > 0 then RemovedFrom(old(lists), lists, p) else lists == old(lists)
    {
      hide Page.InPage, ListsOk, PagesOk, RemovedFrom;
      if p.slobFree {
        Delist(p);
      } else {
        NotPlaced(p);
      }
      Drop(p);
    }

    lemma NotPlaced(p: Page)
      requires FlagsOk(null) && p in held && !p.slobFree
      ensures p !in place && FlagsOk(p)
    {
    }

    /** Page p had the free units and live blocks given, and its block b was freed. */
    ghost predicate Freed(p: Page, free: set<int>, live: map<int, int>, b: int)
      reads p`blocks, p`live
    {
      b in live && p.Free() == free + Range(b, live[b]) && p.live == live - {b}
    }

    lemma FreedLive(p: Page, free: set<int>, live: map<int, int>, b: int)
      requires Freed(p, free, live, b)
      ensures p.live == live - {b}
    {
    }

    /** slob_free on a page that is on a list and stays there. */
    method FreeOnListed(p: Page, b: int, n: int)
      requires Valid() && p in held && p.slobFree && b in p.live && n == p.live[b]
      modifies p.mem, p`freelist, p`units, p`blocks, p`live
      ensures Valid() && Freed(p, old(p.Free()), old(p.live), b)
      ensures WritesOnly(old(p.mem[..]), p.mem[..], p.Free())
    {
      hide Page.Free, ThreeRings, HeadsOk, Members, WritesOnly, UnitsOf, Canonical, Encodes, Sums.Tiles;
      PositiveBlock(p, b);
      p.PageFree(b, n);
    }

    lemma PositiveBlock(p: Page, b: int)
      requires p.InPage() && b in p.live
      ensures 1 <= p.live[b] && 0 <= p.units
    {
    }

    /** slob_free inside a full page. */
    method FreeInFullPage(p: Page, b: int, n: int)
      requires Valid() && p in held && !p.slobFree && b in p.live && n == p.live[b]
      modifies p.mem, p`freelist, p`units, p`blocks, p`live
      ensures ListsOk() && PagesOk() && FlagsOk(p) && p !in place && 0 < p.units
      ensures Freed(p, old(p.Free()), old(p.live), b)
      ensures WritesOnly(old(p.mem[..]), p.mem[..], p.Free())
    {
      hide Page.Free, ThreeRings, HeadsOk, Members, WritesOnly, UnitsOf, Canonical, Encodes, Sums.Tiles;
      PositiveBlock(p, b);
      p.FirstFree(b, n);
    }

    /** slob_free on a page that was full: it goes to the front of list c. */
    method FreeOnFull(p: Page, b: int, n: int, c: int)
      requires Valid() && p in held && !p.slobFree && b in p.live && n == p.live[b] && 0 <= c < 3
      modifies this`lists, this`place, nodes`next, nodes`prev
      modifies p`slobFree, p.mem, p`freelist, p`units, p`blocks, p`live
      ensures Valid() && Freed(p, old(p.Free()), old(p.live), b)
      ensures lists == old(lists)[c := [p] + old(List(c))]
      ensures WritesOnly(old(p.mem[..]), p.mem[..], p.Free())
    {
      hide Page.InPage, Page.Free, ListsOk, PagesOk, FlagsOk, WritesOnly, Freed, OffLists;
      FreeInFullPage(p, b, n);
      OffListsHeld(p);
      Enlist(p, c);
    }

    /** slob_free on a page that is kept. */
    method FreeKept(p: Page, b: int, n: int, c: int)
      requires Valid() && p in held && b in p.live && n == p.live[b] && 0 <= c < 3
      modifies this`lists, this`place, nodes`next, nodes`prev
      modifies p`slobFree, p.mem, p`freelist, p`units, p`blocks, p`live
      ensures Valid() && Freed(p, old(p.Free()), old(p.live), b)
      ensures lists == if old(p.units) > 0 then old(lists) else old(lists)[c := [p] + old(List(c))]
      ensures WritesOnly(old(p.mem[..]), p.mem[..], p.Free())
    {
      hide Page.Free, Page.InPage, ListsOk, PagesOk, WritesOnly, Freed, List;
      HeldPage(p);
      if !p.slobFree {
        PositiveBlock(p, b);
        FreeOnFull(p, b, n, c);
      } else {
        FreeOnListed(p, b, n);
      }
    }

    /**
     slob_free.  The page is given back exactly when the block was its last one; otherwise the
     block's units become free, and only free units are written.
     */
    method SlobFree(p: Page, b: int, size: int)
      requires Valid() && p in held && b in p.live && 1 <= size && p.live[b] == SlobUnits(size)
      modifies this, nodes`next, nodes`prev
      modifies p`slobFree, p`slab, p.mem, p`freelist, p`units, p`blocks, p`live
      ensures Valid() && nodes <= old(nodes)
      ensures held == old(held) - if old(p.live == map[b := p.live[b]]) then {p} else {}
      ensures p !in held ==> !p.slab && !p.slobFree
      ensures p in held ==> Freed(p, old(p.Free()), old(p.live), b)
      ensures old(NoEmptyPage()) ==> NoEmptyPage()
      ensures p in held ==> WritesOnly(old(p.mem[..]), p.mem[..], p.Free())
      ensures p in held ==> lists == if old(p.units) > 0 then old(lists) else
                                       old(lists)[ClassOf(size) := [p] + old(List(ClassOf(size)))]
      ensures p !in held ==> if old(p.units) > 0 then RemovedFrom(old(lists), lists, p) else lists == old(lists)
    {
      hide Page.Free, Page.InPage, Valid, WritesOnly, Freed, List, ClassOf, RemovedFrom, SlobUnits;
      HeldInPage(p);
      p.LastBlock(b);
      Sums.OnlyKey(p.live, b);
      var n := SlobUnits(size);
      if p.units + n == PAGE_UNITS {
        GiveBack(p);
        return;
      }
      ghost var live := p.live;
      FreeKept(p, b, n, ClassOf(size));
      FreedLive(p, old(p.Free()), live, b);
    }

    lemma HeldInPage(p: Page)
      requires Valid() && p in held
      ensures p.InPage()
    {
      hide Page.InPage, ListsOk, FlagsOk;
    }

    lemma HeldPage(p: Page)
      requires PagesOk() && p in held
      ensures p.InPage() && p.slab
    {
    }
  }
}
