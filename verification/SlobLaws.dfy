/**
 Laws of the allocator that relate several calls.  They rest on one fact: the live blocks
 of a page determine its free list, whatever the order of the calls that led there.
 */
module SlobLaws {
  import opened Geometry
  import opened FreeList
  import Encoding
  import opened Sums
  import opened PageFits
  import opened SlobPage
  import opened SlobHeap

  /** Live blocks determine the free units: whatever they do not cover. */
  lemma LiveDeterminesFree(live: map<int, int>, a: seq<Block>, b: seq<Block>)
    requires Canonical(a) && Canonical(b) && Tiles(live, UnitsOf(a)) && Tiles(live, UnitsOf(b))
    ensures UnitsOf(a) <= UnitsOf(b)
  {
    UnitsBounded(a, 0, PAGE_UNITS);
    forall u | u in UnitsOf(a) ensures u in UnitsOf(b) {
      TilesExactlyOne(live, UnitsOf(a), u);
      TilesExactlyOne(live, UnitsOf(b), u);
    }
  }

  /** Two states of a page with the same live blocks have the same free list and the same count. */
  lemma LiveDeterminesList(live: map<int, int>, a: seq<Block>, b: seq<Block>, units: int, units': int)
    requires Canonical(a) && Canonical(b)
    requires Books(live, UnitsOf(a), units) && Books(live, UnitsOf(b), units')
    ensures a == b && units == units'
  {
    LiveDeterminesFree(live, a, b);
    LiveDeterminesFree(live, b, a);
    CanonicalUnique(a, b);
  }

  /** Each unit of each held page lies in exactly one live block or in exactly one free block. */
  lemma UnitsPartitioned(h: Heap, p: Page, u: int)
    requires h.Valid() && p in h.held && 0 <= u < PAGE_UNITS
    ensures (exists b :: Covers(p.live, b, u)) <==> !exists i :: InFreeBlock(p.blocks, i, u)
    ensures forall b, c :: Covers(p.live, b, u) && Covers(p.live, c, u) ==> b == c
    ensures forall i, j :: InFreeBlock(p.blocks, i, u) && InFreeBlock(p.blocks, j, u) ==> i == j
  {
    hide Heap.ListsOk, Heap.FlagsOk, Encoding.Encodes;
    h.HeldPage(p);
    TilesExactlyOne(p.live, p.Free(), u);
    UnitInBlock(p.blocks, u);
    if i :| 0 <= i < |p.blocks| && p.blocks[i].start <= u < p.blocks[i].End() {
      assert InFreeBlock(p.blocks, i, u);
    }
  }

  ghost predicate OnList(h: Heap, p: Page, c: int, k: int)
    reads h`lists
  {
    0 <= c < |h.lists| && 0 <= k < |h.lists[c]| && h.lists[c][k] == p
  }

  /** A held page with free units is on exactly one list, once; a full page is on none; no other page is on any. */
  lemma PagesListed(h: Heap, p: Page)
    requires h.Valid()
    ensures p in h.held && p.units > 0 <==> exists c, k :: OnList(h, p, c, k)
    ensures forall c, k, d, l :: OnList(h, p, c, k) && OnList(h, p, d, l) ==> c == d && k == l
  {
    hide Heap.RingsOk, Heap.PagesOk, Heap.HeadsOk;
    if p in h.held && p.units > 0 {
      var c, k := PlaceOf(h.held, h.lists, h.place, p);
      assert OnList(h, p, c, k);
    }
    if c, k :| OnList(h, p, c, k) {
      ListedIsHeld(h.held, h.lists, h.place, c, k);
    }
  }

  ghost predicate InFreeBlock(bs: seq<Block>, i: int, u: int) {
    0 <= i < |bs| && bs[i].start <= u < bs[i].End()
  }

  // ---------------------------------------------------------------- laws of one page

  /** slob_free inside a page that is kept. */
  method FreeBlock(p: Page, b: int, n: int)
    requires p.InPage() && b in p.live && n == p.live[b]
    modifies p.mem, p`freelist, p`units, p`blocks, p`live
    ensures p.InPage() && p.live == old(p.live) - {b}
  {
    hide UnitsOf, Encoding.Encodes, Canonical, Encoding.WritesOnly;
    assert 1 <= p.live[b] && 0 <= p.units;
    if p.units == 0 {
      p.FirstFree(b, n);
    } else {
      p.PageFree(b, n);
    }
  }

  /** Two pages with the same live blocks hold the same free list, stored from the same offset. */
  lemma SameLiveSameList(p: Page, q: Page)
    requires p.InPage() && q.InPage() && p.live == q.live
    ensures p.blocks == q.blocks && p.units == q.units && p.freelist == q.freelist
  {
    hide UnitsOf, Canonical, Tiles;
    LiveDeterminesList(p.live, p.blocks, q.blocks, p.units, q.units);
  }

  /** Two frees on one page commute: q is a copy of p on which they are made in the other order. */
  method FreesCommute(p: Page, q: Page, b: int, bn: int, c: int, cn: int)
    requires p != q && p.mem != q.mem && p.InPage() && q.InPage() && p.live == q.live
    requires b in p.live && c in p.live && b != c && bn == p.live[b] && cn == p.live[c]
    modifies p.mem, p`freelist, p`units, p`blocks, p`live
    modifies q.mem, q`freelist, q`units, q`blocks, q`live
    ensures p.InPage() && q.InPage() && p.live == q.live == old(p.live) - {b, c}
    ensures p.blocks == q.blocks && p.units == q.units && p.freelist == q.freelist
  {
    hide Page.InPage;
    FreeBlock(p, b, bn);
    FreeBlock(p, c, cn);
    FreeBlock(q, c, cn);
    FreeBlock(q, b, bn);
    assert p.live == old(p.live) - {b, c};
    SameLiveSameList(p, q);
  }

  // ---------------------------------------------------------------- a law of the heap

  /** What the lists are after page p, the first page of list c, was taken off. */
  lemma RemovedFirst(held: set<Page>, before: seq<seq<Page>>, place: map<Page, int>, after: seq<seq<Page>>,
                     c: int, p: Page)
    requires Members(held, before, place) && RemovedFrom(before, after, p)
    requires 0 <= c < 3 && |before[c]| > 0 && before[c][0] == p
    ensures after == before[c := before[c][1..]]
  {
    var d, k :| 0 <= d < |before| && 0 <= k < |before[d]| && before[d][k] == p &&
                after == before[d := before[d][..k] + before[d][k + 1..]];
    assert place[before[c][0]] == c && place[before[d][k]] == d;
    assert before[c][..0] + before[c][1..] == before[c][1..];
  }

  /** What page p holds. */
  ghost function ContentsOf(p: Page): Contents
    reads p`live, p`blocks, p`units
  {
    Contents(p.live, p.blocks, p.units)
  }

  /** The lists after two frees on page p, the first of a block of class c, if the page is kept or given back. */
  ghost predicate ListsAfterTwo(before: seq<seq<Page>>, after: seq<seq<Page>>, p: Page,
                                listed: bool, kept: bool, c: int)
  {
    if !kept then if listed then RemovedFrom(before, after, p) else after == before
    else if listed then after == before
    else 0 <= c < |before| && after == before[c := [p] + before[c]]
  }

  lemma RemovedOnce(held: set<Page>, before: seq<seq<Page>>, place: map<Page, int>,
                    after: seq<seq<Page>>, after': seq<seq<Page>>, p: Page)
    requires Members(held, before, place) && RemovedFrom(before, after, p) && RemovedFrom(before, after', p)
    ensures after == after'
  {
    var c, k :| 0 <= c < |before| && 0 <= k < |before[c]| && before[c][k] == p &&
                after == before[c := before[c][..k] + before[c][k + 1..]];
    var d, l :| 0 <= d < |before| && 0 <= l < |before[d]| && before[d][l] == p &&
                after' == before[d := before[d][..l] + before[d][l + 1..]];
    assert place[before[c][k]] == c && place[before[d][l]] == d;
  }

  /**
   Two frees leave the same page lists in either order unless the page was full and is kept,
   and the sizes are of two classes.
   */
  lemma TwoFreesCommuteIff(held: set<Page>, before: seq<seq<Page>>, place: map<Page, int>,
                           after: seq<seq<Page>>, after': seq<seq<Page>>, p: Page,
                           listed: bool, kept: bool, c: int, d: int)
    requires Members(held, before, place) && 0 <= c < 3 && 0 <= d < 3
    requires ListsAfterTwo(before, after, p, listed, kept, c) && ListsAfterTwo(before, after', p, listed, kept, d)
    ensures after == after' <==> listed || !kept || c == d
  {
    if listed && !kept {
      RemovedOnce(held, before, place, after, after', p);
    }
    if !listed && kept && c != d {
      assert |after[c]| == |before[c]| + 1 && |after'[c]| == |before[c]|;
    }
  }

  lemma HeapMembers(h: Heap)
    requires h.Valid()
    ensures Members(h.held, h.lists, h.place) && |h.lists| == 3
    ensures forall p :: p in h.held ==> 0 <= p.units
  {
    hide Heap.RingsOk, Heap.FlagsOk, Members;
  }

  lemma TwoLive(live: map<int, int>, b: int, c: int)
    requires b in live && c in live && b != c
    ensures live != map[b := live[b]]
    ensures live - {b} == map[c := live[c]] <==> live.Keys == {b, c}
  {
    assert c in live && c !in map[b := live[b]];
    OnlyKey(live - {b}, c);
    if live.Keys == {b, c} {
      assert (live - {b}).Keys == {c};
    }
    if live - {b} == map[c := live[c]] {
      assert live.Keys == (live - {b}).Keys + {b};
    }
  }

  /** The count goes up by the size of the block freed. */
  lemma FreedCount(p: Page, was: Contents, b: int)
    requires Sound(was) && Sound(ContentsOf(p)) && b in was.live && p.live == was.live - {b}
    ensures p.units == was.units + was.live[b] > 0
  {
    TotalRemove(was.live, b);
  }

  /** Frees two blocks of one page: what is left on it, and what the page lists become. */
  method TwoFrees(h: Heap, p: Page, b: int, bsize: int, c: int, csize: int)
    requires h.Valid() && p in h.held && b in p.live && c in p.live && b != c && 1 <= bsize && 1 <= csize
    requires p.live[b] == SlobUnits(bsize) && p.live[c] == SlobUnits(csize)
    modifies h, h.nodes`next, h.nodes`prev, p, p.mem
    ensures h.Valid()
    ensures h.held == old(h.held) - if old(p.live.Keys == {b, c}) then {p} else {}
    ensures p in h.held ==> p.live == old(p.live) - {b, c} && Sound(ContentsOf(p))
    ensures ListsAfterTwo(old(h.lists), h.lists, p, old(p.units > 0), old(p.live.Keys != {b, c}), ClassOf(bsize))
  {
    hide Heap.Valid, Page.Free, SlobUnits, Encoding.WritesOnly, Range, Sound, Members, RemovedFrom, ClassOf;
    HeapMembers(h);
    TwoLive(p.live, b, c);
    HeldSound(h);
    ghost var before, full, was := h.lists, p.units == 0, ContentsOf(p);
    h.SlobFree(p, b, bsize);
    HeapMembers(h);
    HeldSound(h);
    FreedCount(p, was, b);
    ghost var mid, held, place := h.lists, h.held, h.place;
    h.SlobFree(p, c, csize);
    HeldSound(h);
    if p !in h.held && full {
      RemovedFirst(held, mid, place, h.lists, ClassOf(bsize), p);
      assert mid[ClassOf(bsize)][1..] == before[ClassOf(bsize)];
    }
  }

  /**
   Two frees of a heap, made in either order, leave the same page lists exactly when the page
   had free units, or is given back, or the sizes are of one class.
   */
  lemma HeapFreesCommuteIff(h: Heap, p: Page, b: int, bsize: int, c: int, csize: int,
                            after: seq<seq<Page>>, after': seq<seq<Page>>)
    requires h.Valid() && p in h.held && b in p.live && c in p.live && b != c
    requires ListsAfterTwo(h.lists, after, p, p.units > 0, p.live.Keys != {b, c}, ClassOf(bsize))
    requires ListsAfterTwo(h.lists, after', p, p.units > 0, p.live.Keys != {b, c}, ClassOf(csize))
    ensures after == after' <==> p.units > 0 || p.live.Keys == {b, c} || ClassOf(bsize) == ClassOf(csize)
  {
    hide Heap.Valid, Members, ListsAfterTwo;
    HeapMembers(h);
    TwoFreesCommuteIff(h.held, h.lists, h.place, after, after', p, p.units > 0, p.live.Keys != {b, c},
                       ClassOf(bsize), ClassOf(csize));
  }

  lemma ThreeBlocksTotal(live: map<int, int>)
    requires live == map[0 := 128, 128 := 128, 256 := 1792]
    ensures Total(live) == PAGE_UNITS
  {
    TotalRemove(live, 0);
    TotalRemove(live - {0}, 128);
    TotalRemove(live - {0} - {128}, 256);
    assert live - {0} - {128} - {256} == map[];
  }

  lemma ThreeBlocksTile(live: map<int, int>, free: set<int>)
    requires live == map[0 := 128, 128 := 128, 256 := 1792] && free == {}
    ensures Tiles(live, free)
  {
    forall u | 0 <= u < PAGE_UNITS && u !in free ensures exists a :: Covers(live, a, u) {
      assert Covers(live, 0, u) || Covers(live, 128, u) || Covers(live, 256, u);
    }
  }

  /** A full page with three live blocks, two of which can be freed by sizes of different classes. */
  lemma FreesCanDiffer() returns (full: Contents)
    ensures Sound(full) && full.units == 0 && full.live == map[0 := 128, 128 := 128, 256 := 1792]
    ensures SlobUnits(255) == SlobUnits(256) == 128 && ClassOf(255) != ClassOf(256)
  {
    hide Tiles, Total, Covers;
    full := Contents(map[0 := 128, 128 := 128, 256 := 1792], [], 0);
    ThreeBlocksTotal(full.live);
    ThreeBlocksTile(full.live, UnitsOf([]));
  }

  ghost function Turned(ps: seq<Page>, k: int): seq<Page> {
    if 0 <= k <= |ps| then ps[k..] + ps[..k] else ps
  }

  /** A page that became full is put back where it was taken from. */
  lemma RelistedFull(ps: seq<Page>, j: int)
    requires 0 <= j < |ps|
    ensures [ps[j]] + ListAfter(ps, j, true) == Turned(ps, j)
    ensures ListAfter(ps, j, false) == Turned(ps, j)
  {
  }

  /** The lists before an allocation, after it (mid), and after the block was freed again. */
  lemma KeptPageRelisted(before: seq<seq<Page>>, mid: seq<seq<Page>>, after: seq<seq<Page>>,
                         c: int, j: int, p: Page, full: bool)
    requires 0 <= c < |before| && 0 <= j < |before[c]| && before[c][j] == p
    requires mid == before[c := ListAfter(before[c], j, full)]
    requires after == if full then mid[c := [p] + mid[c]] else mid
    ensures after == before[c := Turned(before[c], j)]
  {
    RelistedFull(before[c], j);
  }

  lemma NewPageDelisted(held: set<Page>, before: seq<seq<Page>>, mid: seq<seq<Page>>, after: seq<seq<Page>>,
                        place: map<Page, int>, c: int, p: Page, full: bool)
    requires Members(held, mid, place) && |before| == 3 && 0 <= c < 3
    requires mid == before[c := (if full then [] else [p]) + before[c]]
    requires if full then after == mid else RemovedFrom(mid, after, p)
    ensures after == before[c := Turned(before[c], 0)]
  {
    if !full {
      RemovedFirst(held, mid, place, after, c, p);
      assert mid[c][1..] == before[c];
    }
    assert [] + before[c] == before[c] && Turned(before[c], 0) == before[c];
    assert before[c := before[c]] == before;
  }

  /** The lists before an allocation, after it (mid), and after the block was freed again. */
  lemma ListsRestored(held: set<Page>, before: seq<seq<Page>>, mid: seq<seq<Page>>, after: seq<seq<Page>>,
                      place: map<Page, int>, c: int, j: int, p: Page, full: bool, grown: bool)
    requires Members(held, mid, place) && |before| == 3 && 0 <= c < 3
    requires if grown then mid == before[c := (if full then [] else [p]) + before[c]]
             else 0 <= j < |before[c]| && before[c][j] == p && mid == before[c := ListAfter(before[c], j, full)]
    requires if grown then (if full then after == mid else RemovedFrom(mid, after, p))
             else after == (if full then mid[c := [p] + mid[c]] else mid)
    ensures after == before[c := Turned(before[c], if grown then 0 else j)]
  {
    if grown {
      NewPageDelisted(held, before, mid, after, place, c, p, full);
    } else {
      KeptPageRelisted(before, mid, after, c, j, p, full);
    }
  }

  lemma NothingTurned(lists: seq<seq<Page>>, c: int)
    requires 0 <= c < |lists|
    ensures lists == lists[c := Turned(lists[c], 0)]
  {
    assert Turned(lists[c], 0) == lists[c];
  }

  /** The live blocks fix the rest. */
  lemma SameContents(c: Contents, d: Contents)
    requires Sound(c) && Sound(d) && c.live == d.live
    ensures c == d
  {
    LiveDeterminesList(c.live, c.blocks, d.blocks, c.units, d.units);
  }

  lemma HeldSound(h: Heap)
    requires h.Valid()
    ensures forall p :: p in h.held ==> Sound(ContentsOf(p))
  {
    hide Heap.ListsOk, Heap.FlagsOk, Encoding.Encodes, Books, Canonical;
    forall p | p in h.held ensures Sound(ContentsOf(p)) {
      h.HeldPage(p);
    }
  }

  lemma BlockComesAndGoes(live: map<int, int>, b: int, n: int)
    requires b !in live
    ensures live[b := n] - {b} == live
    ensures live[b := n] == map[b := n] <==> live == map[]
  {
    OnlyKey(live[b := n], b);
    assert live[b := n] - {b} == live;
  }

  lemma InUse(h: Heap, p: Page)
    requires h.NoEmptyPage() && p in h.held
    ensures p.live != map[]
  {
  }

  /**
   Allocating and freeing leaves every page as it was: the same pages are held, each with the
   same live blocks, free list and count.  The only trace is where the next search starts.
   */
  method AllocThenFree(h: Heap, size: int, zero: bool, align: int, oom: bool)
      returns (r: Option<Ptr>, ghost k: int)
    requires h.Valid() && h.NoEmptyPage() && 1 <= size <= PAGE_SIZE && ValidAlign(align)
    modifies h, h.nodes`next, h.nodes`prev
    modifies h.held, set p | p in h.held :: p.mem
    ensures h.Valid() && h.NoEmptyPage() && h.held == old(h.held)
    ensures forall p :: p in h.held ==> ContentsOf(p) == old(ContentsOf(p))
    ensures |h.lists| == 3 == old(|h.lists|)
    ensures h.lists == old(h.lists)[ClassOf(size) := Turned(old(h.lists)[ClassOf(size)], k)]
  {
    hide Heap.Valid, Heap.NoEmptyPage, Heap.MustGrow, Sound, Encoding.WritesOnly, Encoding.Cleared;
    hide RemovedFrom, SlobUnits;
    hide Members, Turned, ListAfter, Page.Free, AlignedUnit, Range;
    HeldSound(h);
    HeapMembers(h);
    forall p | p in h.held ensures p.live != map[] {
      InUse(h, p);
    }
    ghost var j;
    r, j := h.SlobAlloc(size, zero, align, oom);
    HeapMembers(h);
    ghost var mid, held, place := h.lists, h.held, h.place;
    if r.None? {
      k := 0;
      NothingTurned(h.lists, ClassOf(size));
      return;
    }
    var p, b := r.value.page, r.value.off;
    BlockComesAndGoes(if p in old(h.held) then old(p.live) else map[], b, SlobUnits(size));
    ghost var full := p.units == 0;
    h.SlobFree(p, b, size);
    HeapMembers(h);
    k := if p in old(h.held) then j else 0;
    ListsRestored(held, old(h.lists), mid, h.lists, place, ClassOf(size), j, p, full, p !in old(h.held));
    HeldSound(h);
    forall q | q in h.held ensures ContentsOf(q) == old(ContentsOf(q)) {
      SameContents(ContentsOf(q), old(ContentsOf(q)));
    }
  }
}
