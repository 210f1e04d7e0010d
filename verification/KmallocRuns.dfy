/**
 Runs of kmalloc, kfree and client writes, in any order.  What the clients hold after a run is
 a function of the operations and of which requests succeeded; the allocator agrees with it.
 */
module KmallocRuns {
  import opened Geometry
  import Sums
  import opened SlobPage
  import opened SlobHeap
  import opened Kmalloc

  /** Pointers are named by the number of the operation that returned them. */
  datatype Op =
    | Malloc(size: int, zero: bool, oom: bool)
    | Free(name: int)
    | Store(name: int, at: int, value: SlobIndex)

  /** An area that has not been freed: a small one with the units written to it so far, or a large one. */
  datatype Held = Small(size: int, zero: bool, written: map<int, SlobIndex>) | Large(size: int)

  function AreaFor(size: int, zero: bool, align: int): Held {
    if size + align < PAGE_SIZE then Small(size, zero, map[]) else Large(size)
  }

  /** What the clients hold after operation n; ok says whether a request succeeded. */
  function After(held: map<int, Held>, n: int, op: Op, ok: bool, align: int): map<int, Held> {
    match op
    case Malloc(size, zero, _) =>
      if size == 0 || !ok then held
      else held[n := AreaFor(size, zero, align)]
    case Free(name) => held - {name}
    case Store(name, at, value) =>
      if CanStore(held, name, at)
      then held[name := Noted(held[name], at, value)]
      else held
  }

  /** Clients write only inside small areas that they hold. */
  predicate CanStore(held: map<int, Held>, name: int, at: int) {
    name in held && held[name].Small? && 0 <= at < SlobUnits(held[name].size)
  }

  ghost function HeldAfter(ops: seq<Op>, ok: seq<bool>, align: int): (held: map<int, Held>)
    requires |ops| == |ok|
    ensures forall name :: name in held ==> 0 <= name < |ops|
  {
    if |ops| == 0 then map[] else
      var last := |ops| - 1;
      After(HeldAfter(ops[..last], ok[..last], align), last, ops[last], ok[last], align)
  }

  ghost predicate FreedSince(ops: seq<Op>, n: int) {
    exists m :: 0 <= m < |ops| && n < m && ops[m] == Free(n)
  }

  /** What is held after a run: the areas whose request succeeded and that no later operation freed. */
  lemma {:induction false} HeldIff(ops: seq<Op>, ok: seq<bool>, align: int, n: int)
    requires |ops| == |ok|
    ensures var held := HeldAfter(ops, ok, align);
            && (n in held <==>
                  0 <= n < |ops| && ops[n].Malloc? && ops[n].size != 0 && ok[n] && !FreedSince(ops, n))
            && (n in held ==> if ops[n].size + align < 4096
                              then held[n].Small? && held[n].size == ops[n].size && held[n].zero == ops[n].zero
                              else held[n] == Large(ops[n].size))
    decreases |ops|
  {
    if |ops| > 0 {
      var last := |ops| - 1;
      HeldIff(ops[..last], ok[..last], align, n);
      if 0 <= n < |ops| {
        FreedByLast(ops, n);
      }
    }
  }

  lemma FreedByLast(ops: seq<Op>, n: int)
    requires 0 <= n < |ops|
    ensures var last := |ops| - 1;
            FreedSince(ops, n) <==> n < last && (FreedSince(ops[..last], n) || ops[last] == Free(n))
  {
    var last := |ops| - 1;
    if FreedSince(ops[..last], n) {
      var m :| n < m < last && ops[..last][m] == Free(n);
      assert ops[m] == Free(n);
    }
    if FreedSince(ops, n) {
      var m :| n < m < |ops| && ops[m] == Free(n);
      assert m < last ==> ops[..last][m] == Free(n);
    }
  }

  ghost predicate StoresAt(op: Op, n: int, u: int) {
    op.Store? && op.name == n && op.at == u
  }

  /** The last write to unit u of area n is operation m. */
  ghost predicate LastStore(ops: seq<Op>, n: int, u: int, m: int) {
    0 <= m < |ops| && n < m && StoresAt(ops[m], n, u) && forall k :: m < k < |ops| ==> !StoresAt(ops[k], n, u)
  }

  /** A small area that is held records, for each of its units written to, the last value written. */
  lemma {:induction false} WrittenIff(ops: seq<Op>, ok: seq<bool>, align: int, n: int, u: int, v: SlobIndex)
    requires |ops| == |ok| && n in HeldAfter(ops, ok, align) && HeldAfter(ops, ok, align)[n].Small?
    ensures var a := HeldAfter(ops, ok, align)[n];
            u in a.written && a.written[u] == v <==>
            0 <= u < SlobUnits(a.size) && 0 <= n && exists m :: LastStore(ops, n, u, m) && ops[m].value == v
    decreases |ops|
  {
    hide SlobUnits, AreaFor;
    HeldIff(ops, ok, align, n);
    var last := |ops| - 1;
    if n < last {
      HeldIff(ops[..last], ok[..last], align, n);
      FreedByLast(ops, n);
      WrittenIff(ops[..last], ok[..last], align, n, u, v);
      LastStoreByLast(ops, n, u, v);
    } else {
      assert n == last;
      NewAreaUnwritten(ops, ok, align);
    }
  }

  lemma NewAreaUnwritten(ops: seq<Op>, ok: seq<bool>, align: int)
    requires |ops| == |ok| > 0 && |ops| - 1 in HeldAfter(ops, ok, align)
    requires HeldAfter(ops, ok, align)[|ops| - 1].Small?
    ensures HeldAfter(ops, ok, align)[|ops| - 1].written == map[]
  {
  }

  lemma LastStoreByLast(ops: seq<Op>, n: int, u: int, v: SlobIndex)
    requires 0 <= n < |ops| - 1
    ensures var last := |ops| - 1;
            (exists m :: LastStore(ops, n, u, m) && ops[m].value == v) <==>
            if StoresAt(ops[last], n, u) then ops[last].value == v
            else exists m :: LastStore(ops[..last], n, u, m) && ops[..last][m].value == v
  {
    var last := |ops| - 1;
    if StoresAt(ops[last], n, u) {
      assert LastStore(ops, n, u, last);
    } else {
      forall m ensures LastStore(ops, n, u, m) <==> LastStore(ops[..last], n, u, m) {
        if LastStore(ops, n, u, m) {
          assert m != last;
          assert forall k :: m < k < last ==> ops[..last][k] == ops[k];
        }
        if LastStore(ops[..last], n, u, m) {
          assert forall k :: m < k < last ==> ops[..last][k] == ops[k];
        }
      }
      if m :| LastStore(ops, n, u, m) && ops[m].value == v {
        assert LastStore(ops[..last], n, u, m) && ops[..last][m].value == v;
      }
      if m :| LastStore(ops[..last], n, u, m) && ops[..last][m].value == v {
        assert LastStore(ops, n, u, m) && ops[m].value == v;
      }
    }
  }

  lemma HeldStep(ops: seq<Op>, ok: seq<bool>, done: bool, align: int)
    requires |ok| < |ops|
    ensures var n := |ok|;
            HeldAfter(ops[..n + 1], ok + [done], align) ==
            After(HeldAfter(ops[..n], ok, align), n, ops[n], done, align)
  {
    hide After;
    var n := |ok|;
    assert ops[..n + 1][..n] == ops[..n] && (ok + [done])[..n] == ok;
  }

  /** The area holds what was written to it, and zero bytes elsewhere if it was cleared. */
  ghost predicate HoldsLast(area: seq<SlobIndex>, a: Held)
    requires a.Small?
  {
    && |area| == SlobUnits(a.size)
    && (forall u :: u in a.written ==> 0 <= u < |area| && area[u] == a.written[u])
    && (a.zero ==> forall u :: 0 <= u < a.size / SLOB_UNIT && u < |area| && u !in a.written ==> area[u] == 0)
    && (a.zero && a.size % SLOB_UNIT == 1 ==>
          var last := a.size / SLOB_UNIT;
          0 <= last < |area| && (last !in a.written ==> area[last] % 0x100 == 0))
  }

  /** What the allocator has handed out: sizes of small areas, contents of small areas, sizes of large ones. */
  datatype Handed = Handed(sizes: map<Ptr, int>, areas: map<Ptr, seq<SlobIndex>>, big: map<Page, int>)

  /** Pointer q is that of the held area a. */
  ghost predicate Backed(h: Handed, q: Ptr, a: Held) {
    match a
    case Small(size, _, _) => q in h.sizes && q in h.areas && h.sizes[q] == size && HoldsLast(h.areas[q], a)
    case Large(size) => q.off == 0 && q.page in h.big && h.big[q.page] == size
  }

  /** Small pointers do not lie in large areas. */
  ghost predicate Separate(h: Handed) {
    h.areas.Keys == h.sizes.Keys && forall q :: q in h.sizes ==> q.page !in h.big
  }

  /** Every area handed out has a name. */
  ghost predicate AllNamed(h: Handed, at: map<int, Ptr>, held: map<int, Held>) {
    && at.Keys == held.Keys
    && (forall q :: q in h.sizes ==> exists n :: n in at && at[n] == q && held[n].Small?)
    && (forall p :: p in h.big ==> exists n :: n in at && at[n].page == p && held[n].Large?)
  }

  ghost predicate AllBacked(h: Handed, at: map<int, Ptr>, held: map<int, Held>) {
    && at.Keys == held.Keys
    && (forall n :: n in at ==> Backed(h, at[n], held[n]))
    && (forall n, m :: n in at && m in at && at[n] == at[m] ==> n == m)
  }

  /** The areas handed out are exactly the areas held, each at its own pointer. */
  ghost predicate Agrees(h: Handed, at: map<int, Ptr>, held: map<int, Held>) {
    Separate(h) && AllBacked(h, at, held) && AllNamed(h, at, held)
  }

  /** Pointer q, newly handed out, gets a name. */
  lemma NamedAdded(h: Handed, h': Handed, at: map<int, Ptr>, held: map<int, Held>, n: int, q: Ptr, a: Held)
    requires AllNamed(h, at, held) && n !in held
    requires if a.Small? then h'.sizes.Keys == h.sizes.Keys + {q} && h'.big == h.big
             else h'.sizes == h.sizes && h'.big.Keys == h.big.Keys + {q.page}
    ensures AllNamed(h', at[n := q], held[n := a])
  {
    var at', held' := at[n := q], held[n := a];
    assert n in at' && at'[n] == q;
    forall r | r in h'.sizes ensures exists m :: m in at' && at'[m] == r && held'[m].Small? {
      if r in h.sizes {
        var m :| m in at && at[m] == r && held[m].Small?;
        assert at'[m] == r;
      }
    }
    forall p | p in h'.big ensures exists m :: m in at' && at'[m].page == p && held'[m].Large? {
      if p in h.big {
        var m :| m in at && at[m].page == p && held[m].Large?;
        assert at'[m].page == p;
      }
    }
  }

  /** Nothing that was handed out before changes. */
  ghost predicate Extends(h: Handed, h': Handed) {
    && (forall r :: r in h.sizes && r in h.areas ==>
          r in h'.sizes && r in h'.areas && h'.sizes[r] == h.sizes[r] && h'.areas[r] == h.areas[r])
    && (forall p :: p in h.big ==> p in h'.big && h'.big[p] == h.big[p])
  }

  lemma Added(h: Handed, h': Handed, at: map<int, Ptr>, held: map<int, Held>, n: int, q: Ptr, a: Held)
    requires Agrees(h, at, held) && n !in held && Separate(h') && Extends(h, h') && Backed(h', q, a)
    requires q !in h.sizes && q.page !in h.big
    requires if a.Small? then h'.sizes.Keys == h.sizes.Keys + {q} && h'.big == h.big
             else h'.sizes == h.sizes && h'.big.Keys == h.big.Keys + {q.page}
    ensures Agrees(h', at[n := q], held[n := a])
  {
    hide HoldsLast, AllNamed;
    NamedAdded(h, h', at, held, n, q, a);
    forall m | m in at ensures Backed(h', at[m], held[m]) && at[m] != q {
      assert Backed(h, at[m], held[m]);
    }
  }

  /** The areas handed out, without the one that the held area a has at q. */
  ghost function Without(h: Handed, q: Ptr, a: Held): Handed {
    if a.Small? then Handed(h.sizes - {q}, h.areas - {q}, h.big) else h.(big := h.big - {q.page})
  }

  lemma NamedRemoved(h: Handed, at: map<int, Ptr>, held: map<int, Held>, name: int)
    requires AllNamed(h, at, held) && name in held
    ensures AllNamed(Without(h, at[name], held[name]), at - {name}, held - {name})
  {
    var at', held', h' := at - {name}, held - {name}, Without(h, at[name], held[name]);
    forall r | r in h'.sizes ensures exists m :: m in at' && at'[m] == r && held'[m].Small? {
      var m :| m in at && at[m] == r && held[m].Small?;
      assert m != name && at'[m] == r;
    }
    forall p | p in h'.big ensures exists m :: m in at' && at'[m].page == p && held'[m].Large? {
      var m :| m in at && at[m].page == p && held[m].Large?;
      assert m != name && at'[m].page == p;
    }
  }

  lemma Removed(h: Handed, at: map<int, Ptr>, held: map<int, Held>, name: int)
    requires Agrees(h, at, held) && name in held
    ensures Agrees(Without(h, at[name], held[name]), at - {name}, held - {name})
  {
    hide HoldsLast, AllNamed;
    NamedRemoved(h, at, held, name);
    var h' := Without(h, at[name], held[name]);
    forall m | m in at && m != name ensures Backed(h', at[m], held[m]) {
      assert Backed(h, at[m], held[m]) && Backed(h, at[name], held[name]) && at[m] != at[name];
    }
  }

  function Noted(a: Held, u: int, v: SlobIndex): (b: Held)
    requires a.Small?
    ensures b.Small? && b.size == a.size
  {
    a.(written := a.written[u := v])
  }

  lemma StillHoldsLast(area: seq<SlobIndex>, a: Held, u: int, v: SlobIndex)
    requires a.Small? && HoldsLast(area, a) && 0 <= u < |area|
    ensures HoldsLast(area[u := v], Noted(a, u, v))
  {
  }

  lemma Written(h: Handed, h': Handed, at: map<int, Ptr>, held: map<int, Held>, name: int, u: int, v: SlobIndex)
    requires Agrees(h, at, held) && CanStore(held, name, u) && Separate(h')
    requires h'.sizes == h.sizes && h'.big == h.big
    requires forall r :: r in h.sizes && r != at[name] ==> h'.areas[r] == h.areas[r]
    requires at[name] in h.sizes && u < |h.areas[at[name]]| && h'.areas[at[name]] == h.areas[at[name]][u := v]
    ensures Agrees(h', at, held[name := Noted(held[name], u, v)])
  {
    hide HoldsLast, Noted;
    var held' := held[name := Noted(held[name], u, v)];
    forall m | m in at ensures Backed(h', at[m], held'[m]) {
      assert Backed(h, at[m], held[m]);
      if m == name {
        StillHoldsLast(h.areas[at[m]], held[m], u, v);
      }
    }
    NamedNoted(h, h', at, held, name, held'[name]);
  }

  lemma NamedNoted(h: Handed, h': Handed, at: map<int, Ptr>, held: map<int, Held>, name: int, a: Held)
    requires AllNamed(h, at, held) && name in held && held[name].Small? && a.Small?
    requires h'.sizes == h.sizes && h'.big == h.big
    ensures AllNamed(h', at, held[name := a])
  {
    var held' := held[name := a];
    forall r | r in h'.sizes ensures exists m :: m in at && at[m] == r && held'[m].Small? {
      var m :| m in at && at[m] == r && held[m].Small?;
      assert held'[m].Small?;
    }
    forall p | p in h'.big ensures exists m :: m in at && at[m].page == p && held'[m].Large? {
      var m :| m in at && at[m].page == p && held[m].Large?;
      assert held'[m].Large?;
    }
  }

  // ---------------------------------------------------------------- the operations

  ghost function Areas(k: Kmem): (areas: map<Ptr, seq<SlobIndex>>)
    reads k`sizes, (set q | q in k.sizes :: q.page)`live, set q | q in k.sizes :: q.page.mem
    ensures areas.Keys == k.sizes.Keys && forall q :: q in k.sizes ==> areas[q] == k.Area(q)
  {
    map q | q in k.sizes :: k.Area(q)
  }

  /** What the allocator has handed out. */
  ghost function HandedOut(k: Kmem): Handed
    reads k`sizes, k`big, (set q | q in k.sizes :: q.page)`live, set q | q in k.sizes :: q.page.mem
  {
    Handed(k.sizes, Areas(k), k.big)
  }

  /** The pages that the allocator may write to. */
  ghost function Pages(k: Kmem): set<Page>
    reads k`big, k.heap`held
  {
    k.heap.held + k.big.Keys
  }

  /** Small pointers lie in held pages, large ones do not. */
  lemma SmallApart(k: Kmem)
    requires k.Valid()
    ensures Separate(HandedOut(k))
    ensures forall q :: q in k.sizes ==> q.page in k.heap.held
  {
    hide Heap.Valid, GetOrder;
    forall q | q in k.sizes ensures q.page in k.heap.held {
      assert k.AreaOk(q, k.sizes[q]);
    }
  }

  lemma FreshArea(k: Kmem, q: Ptr, size: int, zero: bool)
    requires k.Fresh(q, size, zero) && 0 <= size
    ensures HoldsLast(k.Area(q), Small(size, zero, map[]))
  {
    hide Kmem.Area;
  }

  /** Area a was handed out at q, and nothing else changed. */
  ghost predicate Gained(h: Handed, h': Handed, q: Ptr, a: Held) {
    && Extends(h, h') && Separate(h') && q !in h.sizes && q.page !in h.big && Backed(h', q, a)
    && if a.Small? then h'.sizes.Keys == h.sizes.Keys + {q} && h'.big == h.big
       else h'.sizes == h.sizes && h'.big.Keys == h.big.Keys + {q.page}
  }

  lemma GainedSmall(h: Handed, h': Handed, q: Ptr, a: Held)
    requires Separate(h) && Separate(h') && q !in h.sizes && a.Small? && q in h'.areas && HoldsLast(h'.areas[q], a)
    requires h'.sizes == h.sizes[q := a.size] && h'.big == h.big
    requires forall r :: r in h.sizes ==> r in h'.areas && h'.areas[r] == h.areas[r]
    ensures Gained(h, h', q, a)
  {
    hide HoldsLast;
  }

  lemma GainedLarge(h: Handed, h': Handed, q: Ptr, size: int)
    requires Separate(h) && Separate(h') && q !in h.sizes && q.page !in h.big && q.off == 0
    requires h'.big == h.big[q.page := size] && h'.sizes == h.sizes
    requires forall r :: r in h.sizes ==> r in h'.areas && h'.areas[r] == h.areas[r]
    ensures Gained(h, h', q, Large(size))
  {
  }

  /** kmalloc, as seen from what has been handed out. */
  method Request(k: Kmem, size: int, zero: bool, oom: bool) returns (r: Address)
    requires k.Valid() && k.Accounted() && 0 <= size
    modifies k`sizes, k`big, k.heap, k.heap.nodes`next, k.heap.nodes`prev
    modifies Pages(k), set p | p in Pages(k) :: p.mem
    ensures k.Valid() && k.Accounted()
    ensures r.Null? ==> oom
    ensures r.ZeroSizePtr? <==> size == 0
    ensures !r.At? ==> HandedOut(k) == old(HandedOut(k))
    ensures r.At? ==> Gained(old(HandedOut(k)), HandedOut(k), r.ptr, AreaFor(size, zero, k.align))
    ensures fresh(k.heap.nodes - old(k.heap.nodes)) && fresh(Pages(k) - old(Pages(k))) && old(Pages(k)) <= Pages(k)
    ensures forall p :: p in Pages(k) - old(Pages(k)) ==> fresh(p.mem)
  {
    hide Kmem.Valid, Kmem.AccountedWith, Kmem.Area, Kmem.Fresh, Heap.MustGrow, HandedOut, Gained, Extends, Separate;
    ghost var h := HandedOut(k);
    HandedOutIs(k);
    r := k.Kmalloc(size, zero, oom);
    if r.At? {
      RequestMet(k, h, r.ptr, size, zero);
    } else {
      NothingChanged(k, h);
    }
  }

  lemma HandedOutIs(k: Kmem)
    requires k.Valid()
    ensures var h := HandedOut(k);
            && Separate(h) && h.sizes == k.sizes && h.big == k.big
            && forall q :: q in k.sizes ==> q in h.areas && h.areas[q] == k.Area(q)
  {
    hide Kmem.Valid, Kmem.Area;
    SmallApart(k);
  }

  lemma NothingChanged(k: Kmem, h: Handed)
    requires k.Valid() && Separate(h) && k.sizes == h.sizes && k.big == h.big
    requires forall q :: q in h.sizes ==> q in h.areas && k.Area(q) == h.areas[q]
    ensures HandedOut(k) == h
  {
    hide Kmem.Valid, Kmem.Area;
  }

  lemma RequestMet(k: Kmem, h: Handed, q: Ptr, size: int, zero: bool)
    requires k.Valid() && Separate(h) && 0 <= size && q !in h.sizes
    requires forall r :: r in h.sizes ==> r in h.areas && k.Area(r) == h.areas[r]
    requires if size + k.align < PAGE_SIZE
             then k.sizes == h.sizes[q := size] && k.big == h.big && k.Fresh(q, size, zero)
             else k.sizes == h.sizes && q.page !in h.big && q.off == 0 && k.big == h.big[q.page := size]
    ensures Gained(h, HandedOut(k), q, AreaFor(size, zero, k.align))
  {
    hide Kmem.Valid, Kmem.Area, Kmem.Fresh, Gained, HoldsLast;
    SmallApart(k);
    if size + k.align < PAGE_SIZE {
      FreshArea(k, q, size, zero);
      GainedSmall(h, HandedOut(k), q, AreaFor(size, zero, k.align));
    } else {
      GainedLarge(h, HandedOut(k), q, size);
    }
  }

  method DoMalloc(k: Kmem, at: map<int, Ptr>, n: int, size: int, zero: bool, oom: bool, ghost held: map<int, Held>)
      returns (at': map<int, Ptr>, ok: bool)
    requires k.Valid() && k.Accounted() && Agrees(HandedOut(k), at, held) && n !in held && 0 <= size
    modifies k`sizes, k`big, k.heap, k.heap.nodes`next, k.heap.nodes`prev
    modifies Pages(k), set p | p in Pages(k) :: p.mem
    ensures k.Valid() && k.Accounted()
    ensures Agrees(HandedOut(k), at', After(held, n, Malloc(size, zero, oom), ok, k.align))
    ensures !oom ==> ok
    ensures forall m :: m in at' && m != n ==> m in at && at'[m] == at[m]
    ensures fresh(k.heap.nodes - old(k.heap.nodes)) && fresh(Pages(k) - old(Pages(k))) && old(Pages(k)) <= Pages(k)
    ensures forall p :: p in Pages(k) - old(Pages(k)) ==> fresh(p.mem)
  {
    hide Kmem.Valid, Kmem.AccountedWith, HandedOut, Agrees, Backed, Extends, Separate;
    ghost var h := HandedOut(k);
    var r := Request(k, size, zero, oom);
    ok := r != Null;
    at' := at;
    if r.At? {
      at' := at[n := r.ptr];
      Added(h, HandedOut(k), at, held, n, r.ptr, AreaFor(size, zero, k.align));
    }
  }

  lemma HeldIsHandedOut(h: Handed, at: map<int, Ptr>, held: map<int, Held>, name: int)
    requires Agrees(h, at, held) && name in at
    ensures name in held && Separate(h)
    ensures held[name].Small? ==> at[name] in h.sizes && at[name] in h.areas && at[name].page !in h.big
    ensures held[name].Small? ==> |h.areas[at[name]]| == SlobUnits(held[name].size)
    ensures held[name].Large? ==> at[name].off == 0 && at[name].page in h.big && at[name] !in h.sizes
  {
    assert Backed(h, at[name], held[name]);
  }

  method DoFree(k: Kmem, at: map<int, Ptr>, name: int, ghost held: map<int, Held>) returns (at': map<int, Ptr>)
    requires k.Valid() && k.Accounted() && Agrees(HandedOut(k), at, held)
    modifies k`sizes, k`big, k.heap, k.heap.nodes`next, k.heap.nodes`prev
    modifies Pages(k), set p | p in Pages(k) :: p.mem
    ensures k.Valid() && k.Accounted() && Agrees(HandedOut(k), at', held - {name})
    ensures k.heap.nodes <= old(k.heap.nodes) && Pages(k) <= old(Pages(k))
    ensures at' == at - {name} && forall p :: p in old(Pages(k)) - Pages(k) ==> !p.slab
  {
    hide Kmem.Valid, Kmem.AccountedWith, Kmem.Area, Agrees, HoldsLast, SlobUnits;
    at' := at - {name};
    if name !in at {
      assert at' == at;
      NotHeld(HandedOut(k), at, held, name);
      return;
    }
    HeldIsHandedOut(HandedOut(k), at, held, name);
    Removed(HandedOut(k), at, held, name);
    SmallApart(k);
    k.Kfree(At(at[name]));
    assert HandedOut(k) == Without(old(HandedOut(k)), at[name], held[name]);
  }

  lemma NotHeld(h: Handed, at: map<int, Ptr>, held: map<int, Held>, name: int)
    requires Agrees(h, at, held) && name !in at
    ensures held - {name} == held
  {
  }

  /** A client write inside a small area that is held. */
  method DoStore(k: Kmem, at: map<int, Ptr>, name: int, u: int, v: SlobIndex, ghost held: map<int, Held>)
    requires k.Valid() && k.Accounted() && Agrees(HandedOut(k), at, held) && CanStore(held, name, u)
    modifies set p | p in Pages(k) :: p.mem
    ensures k.Valid() && k.Accounted()
    ensures Agrees(HandedOut(k), at, held[name := Noted(held[name], u, v)]) && Pages(k) == old(Pages(k))
  {
    hide Kmem.Valid, Kmem.AccountedWith, Kmem.Area, Agrees, HoldsLast, SlobUnits, Noted;
    SameNames(HandedOut(k), at, held);
    HeldIsHandedOut(HandedOut(k), at, held, name);
    SmallApart(k);
    k.Write(at[name], u, v);
    SmallApart(k);
    Written(old(HandedOut(k)), HandedOut(k), at, held, name, u, v);
  }

  lemma SameNames(h: Handed, at: map<int, Ptr>, held: map<int, Held>)
    requires Agrees(h, at, held)
    ensures at.Keys == held.Keys
  {
  }

  /** One operation; Run passes over writes outside the small areas held. */
  method Step(k: Kmem, at: map<int, Ptr>, held: map<int, Held>, n: int, op: Op)
      returns (at': map<int, Ptr>, ok: bool)
    requires k.Valid() && k.Accounted() && Agrees(HandedOut(k), at, held) && n !in held
    requires op.Malloc? ==> 0 <= op.size
    modifies k`sizes, k`big, k.heap, k.heap.nodes`next, k.heap.nodes`prev
    modifies Pages(k), set p | p in Pages(k) :: p.mem
    ensures k.Valid() && k.Accounted() && Agrees(HandedOut(k), at', After(held, n, op, ok, k.align))
    ensures op.Malloc? && !op.oom ==> ok
    ensures forall m :: m in at' && m != n ==> m in at && at'[m] == at[m]
    ensures forall p :: p in old(Pages(k)) - Pages(k) ==> !p.slab
    ensures fresh(k.heap.nodes - old(k.heap.nodes)) && fresh(Pages(k) - old(Pages(k)))
    ensures forall p :: p in Pages(k) - old(Pages(k)) ==> fresh(p.mem)
  {
    hide Kmem.Valid, Kmem.AccountedWith, HandedOut, Agrees, CanStore, Noted;
    match op {
      case Malloc(size, zero, oom) =>
        at', ok := DoMalloc(k, at, n, size, zero, oom, held);
      case Free(name) =>
        ok := true;
        at' := DoFree(k, at, name, held);
      case Store(name, u, v) =>
        at', ok := at, true;
        if CanStore(held, name, u) {
          SameNames(HandedOut(k), at, held);
          DoStore(k, at, name, u, v, held);
        }
    }
  }

  /** Among the pages that the allocator may write to, the page flag tells the held ones. */
  lemma FlagsTell(k: Kmem, p: Page)
    requires k.Valid() && p in Pages(k)
    ensures p.slab <==> p in k.heap.held
  {
    hide Heap.Valid, GetOrder;
    if p in k.heap.held {
      k.heap.HeldTiles(p);
    }
  }

  /** A named pointer lies in one of these pages. */
  lemma NamedPage(k: Kmem, at: map<int, Ptr>, held: map<int, Held>, n: int)
    requires k.Valid() && Agrees(HandedOut(k), at, held) && n in at
    ensures at[n].page in Pages(k)
  {
    hide Kmem.Valid, Agrees;
    HandedOutIs(k);
    HeldIsHandedOut(HandedOut(k), at, held, n);
    SmallApart(k);
  }

  /** The request of operation n succeeded. */
  ghost predicate Granted(ops: seq<Op>, ok: seq<bool>, n: int) {
    0 <= n < |ok| <= |ops| && ops[n].Malloc? && ops[n].size != 0 && ok[n]
  }

  /** The pointers handed out so far, freed or not: which pages of theirs are held, the page flag tells. */
  ghost predicate Told(k: Kmem, homes: map<int, Ptr>)
    reads k.heap`held, (set n | n in homes :: homes[n].page)`slab
  {
    forall n :: n in homes ==> (homes[n].page.slab <==> homes[n].page in k.heap.held)
  }

  lemma OutsideUnflagged(k: Kmem, homes: map<int, Ptr>)
    requires Told(k, homes)
    ensures forall n :: n in homes && homes[n].page !in Pages(k) ==> !homes[n].page.slab
  {
  }

  /** After an operation: pages that it gave back, or that were given back before, have lost the flag. */
  lemma StillTold(k: Kmem, homes: map<int, Ptr>, before: set<Page>)
    requires k.Valid() && forall p :: p in before - Pages(k) ==> !p.slab
    requires forall n :: n in homes && homes[n].page !in before ==> homes[n].page in Pages(k) || !homes[n].page.slab
    ensures Told(k, homes)
  {
    hide Kmem.Valid;
    forall n | n in homes ensures homes[n].page.slab <==> homes[n].page in k.heap.held {
      if homes[n].page in Pages(k) {
        FlagsTell(k, homes[n].page);
      }
    }
  }

  lemma ToldMore(k: Kmem, homes: map<int, Ptr>, at: map<int, Ptr>, held: map<int, Held>, n: int)
    requires k.Valid() && Agrees(HandedOut(k), at, held) && Told(k, homes) && n in at
    ensures Told(k, homes[n := at[n]])
  {
    hide Kmem.Valid, Agrees;
    NamedPage(k, at, held, n);
    FlagsTell(k, at[n].page);
  }

  lemma GrantedMore(ops: seq<Op>, ok: seq<bool>, done: bool, held: map<int, Held>, align: int)
    requires |ok| < |ops| && |ok| !in held
    ensures forall m :: m != |ok| ==> (Granted(ops, ok + [done], m) <==> Granted(ops, ok, m))
    ensures Granted(ops, ok + [done], |ok|) <==> |ok| in After(held, |ok|, ops[|ok|], done, align)
    ensures !Granted(ops, ok, |ok|)
  {
  }

  lemma NothingHandedOut(k: Kmem, at: map<int, Ptr>, held: map<int, Held>)
    requires k.Valid() && k.Accounted() && Agrees(HandedOut(k), at, held)
    requires forall n :: n in held ==> held[n].Large?
    ensures k.heap.held == {} && k.heap.pages == 0
  {
    hide Kmem.Valid, Kmem.AccountedWith, Agrees;
    if k.sizes != map[] {
      var q := Sums.SomeKey(k.sizes);
      SmallIsNamed(HandedOut(k), at, held, q);
    }
    k.NothingLeaks();
  }

  lemma SmallIsNamed(h: Handed, at: map<int, Ptr>, held: map<int, Held>, q: Ptr)
    requires Agrees(h, at, held) && q in h.sizes
    ensures exists n :: n in held && held[n].Small?
  {
    var n :| n in at && at[n] == q && held[n].Small?;
    assert n in held;
  }

  /**
   Any sequence of kmalloc, kfree and client writes, from an empty heap.  Afterwards the areas
   handed out are exactly those that were asked for and not freed, and each small one holds
   what was last written to it; when none of these is left, no page is held.  Of the pages that
   areas were ever handed out on, freed since or not, the page flag tells which are held.
   */
  method Run(ops: seq<Op>, align: int)
      returns (k: Kmem, at: map<int, Ptr>, ok: seq<bool>, ghost homes: map<int, Ptr>)
    requires MinAlign(align) && forall i :: 0 <= i < |ops| && ops[i].Malloc? ==> 0 <= ops[i].size
    ensures k.Valid() && k.Accounted() && k.align == align && |ok| == |ops|
    ensures Agrees(HandedOut(k), at, HeldAfter(ops, ok, align))
    ensures forall i :: 0 <= i < |ops| && ops[i].Malloc? && !ops[i].oom ==> ok[i]
    ensures (forall n :: n in HeldAfter(ops, ok, align) ==> HeldAfter(ops, ok, align)[n].Large?) ==>
              k.heap.held == {} && k.heap.pages == 0
    ensures (forall n :: n in homes <==> Granted(ops, ok, n)) && forall n :: n in at ==> n in homes && homes[n] == at[n]
    ensures Told(k, homes)
  {
    hide Kmem.Valid, Kmem.AccountedWith, HandedOut, Agrees, After, MinAlign, HeldAfter, Pages, Told;
    k := new Kmem(align);
    at, ok, homes := map[], [], map[];
    var held: map<int, Held> := map[];
    NothingYet(k);
    NothingHeld(align);
    hide Granted;
    var n := 0;
    assert ops[..n] == [];
    while n < |ops|
      invariant 0 <= n <= |ops| && |ok| == n && held == HeldAfter(ops[..n], ok, align)
      invariant k.Valid() && k.Accounted() && k.align == align && Agrees(HandedOut(k), at, held)
      invariant forall i :: 0 <= i < n && ops[i].Malloc? && !ops[i].oom ==> ok[i]
      invariant fresh(k) && fresh(k.heap) && fresh(k.heap.nodes)
      invariant forall p :: p in Pages(k) ==> fresh(p) && fresh(p.mem)
      invariant forall m :: m in homes <==> Granted(ops, ok, m)
      invariant forall m :: m in at ==> m in homes && homes[m] == at[m]
      invariant Told(k, homes)
    {
      var done;
      ghost var before := Pages(k);
      OutsideUnflagged(k, homes);
      at, done := Step(k, at, held, n, ops[n]);
      forall p | p in Pages(k) ensures fresh(p) && fresh(p.mem) {
        assert p !in before ==> p in Pages(k) - before;
      }
      StillTold(k, homes, before);
      HeldStep(ops, ok, done, align);
      GrantedMore(ops, ok, done, held, align);
      held := After(held, n, ops[n], done, align);
      SameNames(HandedOut(k), at, held);
      if n in at {
        ToldMore(k, homes, at, held, n);
        homes := homes[n := at[n]];
      }
      ok := ok + [done];
      n := n + 1;
    }
    assert ops[..n] == ops;
    if forall m :: m in held ==> held[m].Large? {
      NothingHandedOut(k, at, held);
    }
  }

  lemma NothingHeld(align: int)
    ensures HeldAfter([], [], align) == map[]
  {
  }

  lemma NothingYet(k: Kmem)
    requires k.sizes == map[] && k.big == map[] && k.heap.held == {}
    ensures Agrees(HandedOut(k), map[], map[]) && Pages(k) == {} && Told(k, map[])
  {
  }
}
