/** Page geometry, the width of a slob unit and address alignment. */
module Geometry {
  import Arithmetic

  const PAGE_SIZE: int := 4096
  const SLOB_UNIT: int := 2

  /** SLOB_UNITS(PAGE_SIZE): the number of slob units in a page. */
  const PAGE_UNITS: int := 2048

  /** The signed 16-bit unit that the allocator stores sizes and offsets in. */
  type SlobIndex = x: int | -0x8000 <= x < 0x8000

  /** DIV_ROUND_UP(size, SLOB_UNIT) */
  function SlobUnits(size: int): int {
    (size + SLOB_UNIT - 1) / SLOB_UNIT
  }

  /** No alignment, or a power of two no larger than a page, that is, a divisor of PAGE_SIZE. */
  ghost predicate ValidAlign(align: int) {
    align == 0 || (0 < align && Arithmetic.Multiple(PAGE_SIZE, align))
  }

  ghost predicate AlignedUnit(unit: int, align: int) {
    align == 0 || Arithmetic.Multiple(SLOB_UNIT * unit, align)
  }

  /** The sizes in numbers: units of two bytes, 2048 to a page, and as few of them as hold size bytes. */
  lemma UnitsHold(size: int)
    ensures size <= 2 * SlobUnits(size) <= size + 1
    ensures PAGE_SIZE == 4096 && PAGE_UNITS == SlobUnits(4096) == 2048
  {
  }

  lemma AlignmentIff(align: int, unit: int)
    ensures ValidAlign(align) <==> align == 0 || (0 < align && 4096 % align == 0)
    ensures 0 <= align ==> (AlignedUnit(unit, align) <==> align == 0 || (2 * unit) % align == 0)
  {
    if 0 < align {
      Arithmetic.MultipleIsMod(PAGE_SIZE, align);
      Arithmetic.MultipleIsMod(SLOB_UNIT * unit, align);
    }
  }

  /** ALIGN(x, align): x + align - 1 with its low bits cleared, a multiple of align. */
  function Align(x: int, align: int): int
    requires 0 < align
  {
    var top := x + align - 1;
    top - top % align
  }

  /** The first aligned unit at or after unit cur. */
  function AlignedFrom(cur: int, align: int): int
    requires 0 <= align
  {
    if align == 0 then cur else Align(SLOB_UNIT * cur, align) / SLOB_UNIT
  }

  /** The distance in units from unit cur to the first aligned unit at or after it. */
  function AlignDelta(cur: int, align: int): int
    requires 0 <= align
  {
    AlignedFrom(cur, align) - cur
  }

  /** Rounding gives the least multiple of align that is not below x. */
  lemma AlignIsLeast(x: int, align: int, y: int)
    requires 0 < align
    ensures x <= Align(x, align) < x + align && Align(x, align) % align == 0
    ensures x <= y && y % align == 0 ==> Align(x, align) <= y
  {
    var q := (x + align - 1) / align;
    assert Align(x, align) == q * align;
    Arithmetic.MultipleMod(q, align);
    Arithmetic.MulStep(y / align, q, align);
  }

  /** The first aligned unit at or after cur lies within the page, because pages are aligned. */
  lemma AlignedFromIsLeast(cur: int, align: int, v: int)
    requires ValidAlign(align) && 0 <= cur <= PAGE_UNITS
    ensures cur <= AlignedFrom(cur, align) <= PAGE_UNITS
    ensures AlignedUnit(AlignedFrom(cur, align), align)
    ensures cur <= v && AlignedUnit(v, align) ==> AlignedFrom(cur, align) <= v
  {
    if align != 0 {
      Arithmetic.MultipleIsMod(PAGE_SIZE, align);
      var a := AlignFacts(SLOB_UNIT * cur, align, SLOB_UNIT * v);
      Arithmetic.MultipleIsMod(SLOB_UNIT * v, align);
      HalfAligned(cur, align, a, v);
    }
  }

  lemma AlignFacts(x: int, align: int, y: int) returns (a: int)
    requires 0 < align && PAGE_SIZE % align == 0 && x <= PAGE_SIZE && x % SLOB_UNIT == 0
    ensures a == Align(x, align)
    ensures x <= a <= PAGE_SIZE && a % SLOB_UNIT == 0 && a % align == 0
    ensures x <= y && y % align == 0 ==> a <= y
  {
    a := Align(x, align);
    AlignIsLeast(x, align, y);
    AlignWithinPage(x, align);
    AlignEven(x, align);
  }

  lemma AlignWithinPage(x: int, align: int)
    requires 0 < align && PAGE_SIZE % align == 0 && x <= PAGE_SIZE
    ensures Align(x, align) <= PAGE_SIZE
  {
    AlignIsLeast(x, align, PAGE_SIZE);
  }

  lemma HalfAligned(cur: int, align: int, a: int, v: int)
    requires 0 < align && SLOB_UNIT * cur <= a <= PAGE_SIZE && a % SLOB_UNIT == 0 && a % align == 0
    requires SLOB_UNIT * cur <= SLOB_UNIT * v && (SLOB_UNIT * v) % align == 0 ==> a <= SLOB_UNIT * v
    ensures cur <= a / SLOB_UNIT <= PAGE_UNITS && AlignedUnit(a / SLOB_UNIT, align)
    ensures cur <= v && AlignedUnit(v, align) ==> a / SLOB_UNIT <= v
  {
    assert SLOB_UNIT * (a / SLOB_UNIT) == a;
    Arithmetic.MultipleIsMod(a, align);
    Arithmetic.MultipleIsMod(SLOB_UNIT * v, align);
  }

  lemma AlignEven(x: int, align: int)
    requires 0 < align && PAGE_SIZE % align == 0 && x % SLOB_UNIT == 0
    ensures Align(x, align) % SLOB_UNIT == 0
  {
    if align % 2 == 1 {
      AlignOdd(x, align);
    } else {
      AlignIsLeast(x, align, x);
      EvenMultiple(Align(x, align), align);
    }
  }

  lemma EvenMultiple(a: int, align: int)
    requires 0 < align && a % align == 0 && align % 2 == 0
    ensures a % 2 == 0
  {
    var q, h := a / align, align / 2;
    assert a == q * align == q * h * 2;
    Arithmetic.MultipleMod(q * h, 2);
  }

  lemma AlignOdd(x: int, align: int)
    requires 0 < align && PAGE_SIZE % align == 0 && align % 2 == 1
    ensures Align(x, align) == x
  {
    OddDivisor(align, PAGE_SIZE / align, PAGE_SIZE);
  }

  /** The only odd divisor of a power of two is 1, so a proper alignment keeps unit boundaries. */
  lemma {:induction false} OddDivisor(a: int, k: int, p: int)
    requires a > 0 && a % 2 == 1 && a * k == p
    requires p in {1, 2, 4, 8, 16, 32, 64, 128, 256, 512, 1024, 2048, 4096}
    ensures a == 1
    decreases p
  {
    if p == 1 {
      UnitFactors(a, k);
    } else {
      EvenCofactor(a, k);
      assert a * k == 2 * (a * (k / 2));
      OddDivisor(a, k / 2, p / 2);
    }
  }

  lemma UnitFactors(a: int, k: int)
    requires a > 0 && a * k == 1
    ensures a == 1
  {
    assert k * a == a * k;
    Arithmetic.MulStep(0, k, a);
    if k > 0 {
      Arithmetic.MulAtLeast(k, a);
    }
  }

  lemma EvenCofactor(a: int, k: int)
    requires a % 2 == 1 && (a * k) % 2 == 0
    ensures k % 2 == 0
  {
    var h := a / 2;
    assert a * k == 2 * (h * k) + k;
  }
}
