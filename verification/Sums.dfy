/** Totals over finite maps and tilings of a page by live blocks and free units. */
module Sums {
  import Arithmetic
  import opened Geometry
  import opened FreeList

  /** The sum of the values of a map. */
  ghost function Total<K>(m: map<K, int>): int {
    if m == map[] then 0 else
      var k :| k in m;
      m[k] + Total(m - {k})
  }

  /** The sum does not depend on the order in which keys are taken. */
  lemma {:induction false} TotalRemove<K>(m: map<K, int>, k: K)
    requires k in m
    ensures Total(m) == m[k] + Total(m - {k})
    decreases m
  {
    var c :| c in m && Total(m) == m[c] + Total(m - {c});
    if c != k {
      TotalRemove(m - {c}, k);
      TotalRemove(m - {k}, c);
      assert m - {c} - {k} == m - {k} - {c};
    }
  }

  lemma TotalInsert<K>(m: map<K, int>, k: K, v: int)
    requires k !in m
    ensures Total(m[k := v]) == Total(m) + v
  {
    TotalRemove(m[k := v], k);
    assert m[k := v] - {k} == m;
  }

  lemma {:induction false} TotalNonNegative<K>(m: map<K, int>)
    requires forall k :: k in m ==> 0 <= m[k]
    ensures 0 <= Total(m)
    decreases m
  {
    if m != map[] {
      var k :| k in m;
      TotalRemove(m, k);
      TotalNonNegative(m - {k});
    }
  }

  lemma TotalBoundsEach<K>(m: map<K, int>, k: K)
    requires k in m && forall j :: j in m ==> 0 <= m[j]
    ensures m[k] <= Total(m)
  {
    TotalRemove(m, k);
    TotalNonNegative(m - {k});
  }

  lemma {:induction false} TotalAllZero<K>(m: map<K, int>)
    requires forall k :: k in m ==> m[k] == 0
    ensures Total(m) == 0
    decreases m
  {
    if m != map[] {
      var k :| k in m;
      TotalRemove(m, k);
      TotalAllZero(m - {k});
    }
  }

  lemma TotalEmpty<K>()
    ensures Total<K>(map[]) == 0
  {
  }

  /** If the values of two maps add up to u at every key, their totals add up to u per key. */
  lemma {:induction false} TotalComplement<K>(m: map<K, int>, m': map<K, int>, u: int)
    requires m.Keys == m'.Keys && forall k :: k in m ==> m[k] + m'[k] == u
    ensures Total(m) + Total(m') == Arithmetic.Times(|m.Keys|, u)
    decreases m
  {
    hide Total;
    if m == map[] {
      assert m' == map[];
      TotalEmpty<K>();
    } else {
      var k :| k in m;
      var rest, rest' := m - {k}, m' - {k};
      TotalRemove(m, k);
      TotalRemove(m', k);
      assert rest.Keys == rest'.Keys;
      TotalComplement(rest, rest', u);
      assert m.Keys == rest.Keys + {k};
    }
  }

  /** The sum of the values at the keys listed. */
  ghost function SumOver<K>(ks: seq<K>, m: map<K, int>): int
    requires forall i :: 0 <= i < |ks| ==> ks[i] in m
  {
    if |ks| == 0 then 0 else SumOver(ks[..|ks| - 1], m) + m[ks[|ks| - 1]]
  }

  /** Keys listed once each contribute their part of the total. */
  lemma {:induction false} SumOverIsTotal<K>(ks: seq<K>, m: map<K, int>)
    requires forall i :: 0 <= i < |ks| ==> ks[i] in m
    requires forall i, j :: 0 <= i < j < |ks| ==> ks[i] != ks[j]
    ensures Total(m) == SumOver(ks, m) + Total(m - set k | k in ks)
  {
    if |ks| == 0 {
      assert m - (set k | k in ks) == m;
    } else {
      var k, rest := ks[|ks| - 1], ks[..|ks| - 1];
      SumOverIsTotal(rest, m);
      var m' := m - set j | j in rest;
      assert k in m';
      TotalRemove(m', k);
      assert ks == rest + [k];
      assert m' - {k} == m - set j | j in ks;
    }
  }

  lemma {:induction false} SumOverConcat<K>(a: seq<K>, b: seq<K>, m: map<K, int>)
    requires forall i :: 0 <= i < |a| ==> a[i] in m
    requires forall i :: 0 <= i < |b| ==> b[i] in m
    ensures SumOver(a + b, m) == SumOver(a, m) + SumOver(b, m)
  {
    if |b| == 0 {
      assert a + b == a;
    } else {
      assert (a + b)[..|a + b| - 1] == a + b[..|b| - 1];
      SumOverConcat(a, b[..|b| - 1], m);
    }
  }

  lemma SomeKey<K, V>(m: map<K, V>) returns (k: K)
    requires m != map[]
    ensures k in m
  {
    k :| k in m;
  }

  lemma OnlyKey<K, V>(m: map<K, V>, k: K)
    requires k in m
    ensures m == map[k := m[k]] <==> m - {k} == map[]
  {
    if m - {k} == map[] {
      assert forall j :: j in m ==> j == k by {
        forall j | j in m ensures j == k {
          assert j != k ==> j in m - {k};
        }
      }
    }
  }

  /** Positive values sum to zero only over the empty map. */
  lemma TotalZero<K>(m: map<K, int>)
    requires forall k :: k in m ==> 1 <= m[k]
    ensures Total(m) == 0 <==> m == map[]
  {
    if m != map[] {
      var k :| k in m;
      TotalBoundsEach(m, k);
    }
  }

  lemma CardMinus<T>(s: set<T>, r: set<T>)
    requires r <= s
    ensures |s - r| == |s| - |r|
  {
    assert s == (s - r) + r;
  }

  lemma CardPlus<T>(s: set<T>, r: set<T>)
    requires s !! r
    ensures |s + r| == |s| + |r|
  {
  }

  // ---------------------------------------------------------------- tilings

  ghost predicate Covers(live: map<int, int>, a: int, u: int)
  {
    a in live && a <= u < a + live[a]
  }

  /** Every unit of the page is free or in exactly one live block, and never both. */
  ghost predicate Tiles(live: map<int, int>, free: set<int>) {
    && (forall a :: a in live ==> 0 <= a && 1 <= live[a] && a + live[a] <= PAGE_UNITS)
    && (forall a, b :: a in live && b in live && a < b ==> a + live[a] <= b)
    && (forall a, u :: Covers(live, a, u) ==> u !in free)
    && (forall u :: 0 <= u < PAGE_UNITS && u !in free ==> exists a :: Covers(live, a, u))
  }

  lemma TilesExactlyOne(live: map<int, int>, free: set<int>, u: int)
    requires Tiles(live, free) && 0 <= u < PAGE_UNITS
    ensures u in free <==> !exists a :: Covers(live, a, u)
    ensures forall a, b :: Covers(live, a, u) && Covers(live, b, u) ==> a == b
  {
  }

  lemma TilesAlloc(live: map<int, int>, free: set<int>, a: int, n: int)
    requires Tiles(live, free) && 0 <= a && 1 <= n && a + n <= PAGE_UNITS
    requires FreeRun(free, a, n)
    ensures a !in live
    ensures Tiles(live[a := n], free - Range(a, n))
  {
    var live', free' := live[a := n], free - Range(a, n);
    assert a in free;
    forall b | b in live ensures b != a && (b < a ==> b + live[b] <= a) && (a < b ==> a + n <= b) {
      assert Covers(live, b, b);
      if b <= a < b + live[b] {
        assert Covers(live, b, a);
      }
      assert a < b < a + n ==> b in free;
    }
    forall b, u | Covers(live', b, u) ensures u !in free' {
      assert b != a ==> Covers(live, b, u);
    }
    forall u | 0 <= u < PAGE_UNITS && u !in free' ensures exists b :: Covers(live', b, u) {
      if u in free {
        assert Covers(live', a, u);
      } else {
        var b :| Covers(live, b, u);
        assert Covers(live', b, u);
      }
    }
  }

  lemma TilesFree(live: map<int, int>, free: set<int>, a: int)
    requires Tiles(live, free) && a in live
    ensures forall u :: a <= u < a + live[a] ==> u !in free
    ensures Tiles(live - {a}, free + Range(a, live[a]))
  {
    var live', free' := live - {a}, free + Range(a, live[a]);
    forall u | a <= u < a + live[a] ensures u !in free {
      assert Covers(live, a, u);
    }
    forall b, u | Covers(live', b, u) ensures u !in free' {
      assert Covers(live, b, u);
      assert b != a;
    }
    forall u | 0 <= u < PAGE_UNITS && u !in free' ensures exists b :: Covers(live', b, u) {
      var b :| Covers(live, b, u);
      assert Covers(live', b, u);
    }
  }

  // ---------------------------------------------------------------- the books of one page

  /** Live blocks and free units tile the page, and their sizes add up to it. */
  ghost predicate Books(live: map<int, int>, free: set<int>, units: int) {
    Tiles(live, free) && units == |free| && units + Total(live) == PAGE_UNITS
  }

  lemma BooksAfterTake(live: map<int, int>, free: set<int>, units: int, b: int, n: int)
    requires Books(live, free, units) && 0 <= b && 1 <= n && b + n <= PAGE_UNITS && FreeRun(free, b, n)
    ensures b !in live && Books(live[b := n], free - Range(b, n), units - n)
  {
    TilesAlloc(live, free, b, n);
    RangeSize(b, n);
    CardMinus(free, Range(b, n));
    TotalInsert(live, b, n);
  }

  lemma BooksAfterReturn(live: map<int, int>, free: set<int>, units: int, b: int)
    requires Books(live, free, units) && b in live
    ensures free !! Range(b, live[b])
    ensures Books(live - {b}, free + Range(b, live[b]), units + live[b])
  {
    TilesFree(live, free, b);
    RangeSize(b, live[b]);
    CardPlus(free, Range(b, live[b]));
    TotalRemove(live, b);
  }
}
