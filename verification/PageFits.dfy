/**
 Which numbers of free units leave open whether a page has an aligned run of n of them.  A
 page can miss such a run as long as enough units are live to break up every aligned run.
 */
module PageFits {
  import Arithmetic
  import opened Geometry
  import opened FreeList
  import opened Sums

  /** What a page holds. */
  datatype Contents = Contents(live: map<int, int>, blocks: seq<Block>, units: int)

  ghost predicate Sound(c: Contents) {
    Canonical(c.blocks) && Books(c.live, UnitsOf(c.blocks), c.units)
  }

  /** A page with u free units can have an aligned run of n of them. */
  ghost predicate CanFit(u: int, n: int, align: int) {
    exists c :: Sound(c) && c.units == u && !NoFit(UnitsOf(c.blocks), n, align)
  }

  /** A page with u free units can be without one. */
  ghost predicate CanMiss(u: int, n: int, align: int) {
    exists c :: Sound(c) && c.units == u && NoFit(UnitsOf(c.blocks), n, align)
  }

  // ---------------------------------------------------------------- every set of units is some page's free units

  lemma {:induction false} ListOf(free: set<int>, hi: int) returns (bs: seq<Block>)
    requires 0 <= hi <= PAGE_UNITS && free <= Range(0, hi)
    ensures Canonical(bs) && UnitsOf(bs) == free
    decreases hi
  {
    if hi == 0 {
      bs := [];
    } else {
      var b := hi - 1;
      bs := ListOf(free - {b}, b);
      if b in free {
        if bs != [] {
          BlocksFree(bs, |bs| - 1);
          assert bs[|bs| - 1].start in UnitsOf(bs);
        }
        InsertionPoint(bs, |bs|, b, 1);
        InsertedCanonical(bs, |bs|, b, 1);
        InsertedUnits(bs, |bs|, b, 1);
        bs := Inserted(bs, |bs|, b, 1);
        assert free == (free - {b}) + Range(b, 1);
      } else {
        assert free == free - {b};
      }
    }
  }

  /** The units that are not free, each a live block of its own. */
  ghost function Singles(free: set<int>): (live: map<int, int>)
    ensures live.Keys == Range(0, PAGE_UNITS) - free
    ensures forall u :: u in live <==> 0 <= u < PAGE_UNITS && u !in free
    ensures forall u :: u in live ==> live[u] == 1
  {
    map u | u in Range(0, PAGE_UNITS) - free :: 1
  }

  lemma {:induction false} TotalOnes(m: map<int, int>)
    requires forall k :: k in m ==> m[k] == 1
    ensures Total(m) == |m.Keys|
    decreases m
  {
    if m == map[] {
      assert m.Keys == {};
    } else {
      var k := SomeKey(m);
      TotalRemove(m, k);
      TotalOnes(m - {k});
      assert m.Keys == (m - {k}).Keys + {k};
    }
  }

  lemma SinglesTile(free: set<int>)
    requires free <= Range(0, PAGE_UNITS)
    ensures Tiles(Singles(free), free)
  {
    hide Singles, Range;
    forall a, u | Covers(Singles(free), a, u) ensures u !in free {
      assert u == a;
    }
    forall u | 0 <= u < PAGE_UNITS && u !in free ensures exists a :: Covers(Singles(free), a, u) {
      assert Covers(Singles(free), u, u);
    }
  }

  /** Any set of units of a page can be its free units. */
  lemma PageWith(free: set<int>) returns (c: Contents)
    requires free <= Range(0, PAGE_UNITS)
    ensures Sound(c) && UnitsOf(c.blocks) == free && c.units == |free|
  {
    var bs := ListOf(free, PAGE_UNITS);
    SinglesTile(free);
    TotalOnes(Singles(free));
    RangeSize(0, PAGE_UNITS);
    CardMinus(Range(0, PAGE_UNITS), free);
    c := Contents(Singles(free), bs, |free|);
  }

  lemma SomeElement<T>(s: set<T>) returns (x: T)
    requires s != {}
    ensures x in s
  {
    x :| x in s;
  }

  lemma {:induction false} SubsetOfSize(s: set<int>, u: int) returns (t: set<int>)
    requires 0 <= u <= |s|
    ensures t <= s && |t| == u
    decreases |s|
  {
    if u == |s| {
      t := s;
    } else {
      var x := SomeElement(s);
      t := SubsetOfSize(s - {x}, u);
    }
  }

  lemma SoundUnits(c: Contents)
    requires Sound(c)
    ensures UnitsOf(c.blocks) <= Range(0, PAGE_UNITS) && c.units == |UnitsOf(c.blocks)| && 0 <= c.units <= PAGE_UNITS
  {
    UnitsBounded(c.blocks, 0, PAGE_UNITS);
    RangeSize(0, PAGE_UNITS);
    CardMinus(Range(0, PAGE_UNITS), UnitsOf(c.blocks));
  }

  // ---------------------------------------------------------------- counts at which a page can fit

  /** Every run of n units needs n free units, and a page that is free up to unit u has one. */
  lemma CanFitIff(u: int, n: int, align: int)
    requires 1 <= n && ValidAlign(align)
    ensures CanFit(u, n, align) <==> n <= u <= PAGE_UNITS
  {
    if CanFit(u, n, align) {
      var c :| Sound(c) && c.units == u && !NoFit(UnitsOf(c.blocks), n, align);
      var v :| 0 <= v && AlignedUnit(v, align) && FreeRun(UnitsOf(c.blocks), v, n);
      SoundUnits(c);
      RangeSize(v, n);
      CardMinus(UnitsOf(c.blocks), Range(v, n));
    }
    if n <= u <= PAGE_UNITS {
      var c := PageWith(Range(0, u));
      RangeSize(0, u);
      ZeroAligned(align);
      assert FreeRun(UnitsOf(c.blocks), 0, n);
    }
  }

  lemma ZeroAligned(align: int)
    ensures AlignedUnit(0, align)
  {
    assert Arithmetic.Times(0, align) == 0;
  }

  lemma SomeOutcome(u: int, n: int, align: int)
    requires 0 <= u <= PAGE_UNITS
    ensures CanFit(u, n, align) || CanMiss(u, n, align)
  {
    RangeSize(0, u);
    var c := PageWith(Range(0, u));
  }

  // ---------------------------------------------------------------- counts at which a page can miss

  /** The least number of live units that break up every run of n units that begins s apart from unit lo on. */
  ghost function Breakers(lo: int, n: int, s: int): (count: int)
    requires 1 <= n <= s
    ensures 0 <= count
    decreases PAGE_UNITS - lo
  {
    if lo + n > PAGE_UNITS then 0 else 1 + Breakers(lo + s, n, s)
  }

  lemma {:induction false} BreakersInAll(lo: int, n: int, s: int)
    requires 1 <= n <= s
    ensures Breakers(lo, n, s) == if lo + n > PAGE_UNITS then 0 else (PAGE_UNITS - n - lo) / s + 1
    decreases PAGE_UNITS - lo
  {
    if lo + n <= PAGE_UNITS {
      BreakersInAll(lo + s, n, s);
      Arithmetic.DivStep(PAGE_UNITS - n - lo, s);
    }
  }

  /** The last units of these runs. */
  ghost function BreakersAt(lo: int, n: int, s: int): set<int>
    requires 1 <= n <= s
    decreases PAGE_UNITS - lo
  {
    if lo + n > PAGE_UNITS then {} else {lo + n - 1} + BreakersAt(lo + s, n, s)
  }

  lemma {:induction false} BreakersCounted(lo: int, n: int, s: int)
    requires 1 <= n <= s && 0 <= lo
    ensures |BreakersAt(lo, n, s)| == Breakers(lo, n, s)
    ensures forall u :: u in BreakersAt(lo, n, s) ==> lo <= u < PAGE_UNITS
    decreases PAGE_UNITS - lo
  {
    if lo + n <= PAGE_UNITS {
      BreakersCounted(lo + s, n, s);
    }
  }

  /** The distance from one aligned unit to the first one that is at least n units on. */
  function Stride(n: int, align: int): int
    requires 0 <= align
  {
    AlignedFrom(n, align)
  }

  /** The greatest number of free units with which a page can miss a run. */
  ghost function MostMissing(n: int, align: int): int
    requires 1 <= n <= PAGE_UNITS && ValidAlign(align)
  {
    AlignedFromIsLeast(n, align, 0);
    PAGE_UNITS - Breakers(0, n, Stride(n, align))
  }

  /** For unaligned requests this is every n-th unit live. */
  lemma MostMissingIs(n: int, align: int)
    requires 1 <= n <= PAGE_UNITS && ValidAlign(align)
    ensures 1 <= Stride(n, align) && MostMissing(n, align) == PAGE_UNITS - 1 - (PAGE_UNITS - n) / Stride(n, align)
    ensures align == 0 ==> Stride(n, align) == n
  {
    AlignedFromIsLeast(n, align, 0);
    BreakersInAll(0, n, Stride(n, align));
  }

  lemma AlignedSum(a: int, b: int, align: int)
    requires AlignedUnit(a, align) && AlignedUnit(b, align)
    ensures AlignedUnit(a + b, align) && AlignedUnit(a - b, align)
  {
    if align != 0 {
      Arithmetic.MultipleSum(SLOB_UNIT * a, SLOB_UNIT * b, align);
      assert SLOB_UNIT * (a + b) == SLOB_UNIT * a + SLOB_UNIT * b;
      assert SLOB_UNIT * (a - b) == SLOB_UNIT * a - SLOB_UNIT * b;
    }
  }

  /** A live unit below hi adds to the live units from hi on. */
  lemma OneMoreLive(free: set<int>, lo: int, hi: int, u: int)
    requires lo <= u < hi && u < PAGE_UNITS && u !in free
    ensures 1 + |Range(hi, PAGE_UNITS - hi) - free| <= |Range(lo, PAGE_UNITS - lo) - free|
  {
    var rest, all := Range(hi, PAGE_UNITS - hi) - free, Range(lo, PAGE_UNITS - lo) - free;
    assert rest + {u} <= all && u !in rest;
    CardMinus(all, rest + {u});
  }

  /** A page without a fit has a live unit in each of these runs. */
  lemma {:induction false} MissNeedsBreakers(free: set<int>, lo: int, n: int, align: int)
    requires 1 <= n <= PAGE_UNITS && ValidAlign(align) && 0 <= lo && AlignedUnit(lo, align)
    requires NoFit(free, n, align)
    ensures n <= Stride(n, align) && Breakers(lo, n, Stride(n, align)) <= |Range(lo, PAGE_UNITS - lo) - free|
    decreases PAGE_UNITS - lo
  {
    hide AlignedUnit, Range;
    AlignedFromIsLeast(n, align, 0);
    var s := Stride(n, align);
    if lo + n <= PAGE_UNITS {
      AlignedSum(lo, s, align);
      MissNeedsBreakers(free, lo + s, n, align);
      assert !FreeRun(free, lo, n);
      var u :| lo <= u < lo + n && u !in free;
      OneMoreLive(free, lo, lo + s, u);
    }
  }

  /** Every aligned run from unit lo on ends in, or passes over, one of the breakers. */
  lemma {:induction false} RunIsBroken(lo: int, v: int, n: int, align: int)
    requires 1 <= n <= PAGE_UNITS && ValidAlign(align) && n <= Stride(n, align)
    requires AlignedUnit(lo, align) && AlignedUnit(v, align) && lo <= v && v + n <= PAGE_UNITS
    ensures exists u :: v <= u < v + n && u in BreakersAt(lo, n, Stride(n, align))
    decreases v - lo
  {
    AlignedFromIsLeast(n, align, v - lo);
    AlignedSum(v, lo, align);
    var s := Stride(n, align);
    if v < lo + s {
      assert lo + n - 1 in BreakersAt(lo, n, s);
      assert v - lo < n;
    } else {
      AlignedSum(lo, s, align);
      RunIsBroken(lo + s, v, n, align);
      var u :| v <= u < v + n && u in BreakersAt(lo + s, n, s);
      assert u in BreakersAt(lo, n, s);
    }
  }

  lemma BrokenMisses(free: set<int>, n: int, align: int)
    requires 1 <= n <= PAGE_UNITS && ValidAlign(align) && n <= Stride(n, align)
    requires free <= Range(0, PAGE_UNITS) - BreakersAt(0, n, Stride(n, align))
    ensures NoFit(free, n, align)
  {
    ZeroAligned(align);
    forall v | 0 <= v && AlignedUnit(v, align) ensures !FreeRun(free, v, n) {
      if v + n <= PAGE_UNITS {
        RunIsBroken(0, v, n, align);
      } else {
        assert v + n - 1 !in free;
      }
    }
  }

  lemma MissIsBounded(u: int, n: int, align: int)
    requires 1 <= n <= PAGE_UNITS && ValidAlign(align) && CanMiss(u, n, align)
    ensures 0 <= u <= MostMissing(n, align)
  {
    hide Breakers, Range, UnitsOf, Stride, NoFit, Tiles;
    var c :| Sound(c) && c.units == u && NoFit(UnitsOf(c.blocks), n, align);
    RangeSize(0, PAGE_UNITS);
    ZeroAligned(align);
    SoundUnits(c);
    MissNeedsBreakers(UnitsOf(c.blocks), 0, n, align);
    CardMinus(Range(0, PAGE_UNITS), UnitsOf(c.blocks));
  }

  lemma MissExists(u: int, n: int, align: int)
    requires 1 <= n <= PAGE_UNITS && ValidAlign(align) && 0 <= u <= MostMissing(n, align)
    ensures CanMiss(u, n, align)
  {
    hide Breakers, BreakersAt, Range, Stride, NoFit;
    StrideFits(n, align);
    var s := Stride(n, align);
    RangeSize(0, PAGE_UNITS);
    BreakersCounted(0, n, s);
    CardMinus(Range(0, PAGE_UNITS), BreakersAt(0, n, s));
    var free := SubsetOfSize(Range(0, PAGE_UNITS) - BreakersAt(0, n, s), u);
    BrokenMisses(free, n, align);
    var c := PageWith(free);
  }

  lemma StrideFits(n: int, align: int)
    requires 1 <= n <= PAGE_UNITS && ValidAlign(align)
    ensures n <= Stride(n, align)
  {
    AlignedFromIsLeast(n, align, 0);
  }

  /** A page can miss a run exactly with so many free units that enough live ones are left to break up all runs. */
  lemma CanMissIff(u: int, n: int, align: int)
    requires 1 <= n <= PAGE_UNITS && ValidAlign(align)
    ensures CanMiss(u, n, align) <==> 0 <= u <= MostMissing(n, align)
  {
    hide CanMiss, MostMissing;
    if CanMiss(u, n, align) {
      MissIsBounded(u, n, align);
    }
    if 0 <= u <= MostMissing(n, align) {
      MissExists(u, n, align);
    }
  }
}
