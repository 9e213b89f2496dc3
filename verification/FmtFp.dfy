/**
The handmade floating-point numbers of src/include/spdlog/fmt/bundled/format-inl.h:353-451: normalization, the
half-way boundaries of a double, the rounded 64 x 64 bit product, and the scaled bounds with which Grisu starts.
*/
module FmtFp {
  import opened Bits
  import opened FmtItoa

  const TWO32 := 0x1_0000_0000
  const TWO64 := 0x1_0000_0000_0000_0000
  const DOUBLE_SIGNIFICAND_SIZE := 52
  const IMPLICIT_BIT := 0x10_0000_0000_0000
  const MIN_EXPONENT := -1074 // of a subnormal double, and of the smallest normal one

  /** The number `f * 2^e`. */
  datatype Fp = Fp(f: nat, e: int)

  /** `f` in units of `2^e`, for an `e` no larger than the number's own exponent. */
  ghost function InUnits(x: Fp, e: int): nat
    requires e <= x.e
  {
    x.f * Pow2(x.e - e)
  }

  ghost predicate Normalized(x: Fp) {
    TWO64 / 2 <= x.f < TWO64
  }

  // ---- the product ----

  /** `x.f * y.f / 2^64`, rounded to nearest, halves up. */
  function RoundedProduct(a: nat, b: nat): nat {
    (a * b + TWO64 / 2) / TWO64
  }

  lemma Limbs(x: nat, y: nat)
    requires x < TWO64 && y < TWO64
    ensures var a, b, c, d := x / TWO32, x % TWO32, y / TWO32, y % TWO32;
            && a < TWO32 && b < TWO32 && c < TWO32 && d < TWO32
            && x * y == a * c * TWO64 + (a * d + b * c) * TWO32 + b * d
  {
    var a, b, c, d := x / TWO32, x % TWO32, y / TWO32, y % TWO32;
    assert x == a * TWO32 + b && y == c * TWO32 + d;
    Expand(a, b, c, d, TWO32);
  }

  lemma Expand(a: nat, b: nat, c: nat, d: nat, w: nat)
    ensures (a * w + b) * (c * w + d) == a * c * (w * w) + (a * d + b * c) * w + b * d
  {
    assert (a * w + b) * (c * w + d) == a * w * (c * w + d) + b * (c * w + d);
    assert a * w * (c * w + d) == a * w * (c * w) + a * w * d == a * c * (w * w) + a * d * w;
    assert b * (c * w + d) == b * c * w + b * d;
  }

  lemma ProductBound(a: nat, b: nat)
    requires a < TWO32 && b < TWO32
    ensures a * b <= (TWO32 - 1) * (TWO32 - 1)
  {
    AtMost(a, TWO32 - 1, b);
    AtMost(b, TWO32 - 1, TWO32 - 1);
  }

  /** The sum of the partial products is the rounded product. */
  lemma MiddleSum(ac: nat, ad: nat, bc: nat, bd: nat)
    ensures var mid := bd / TWO32 + ad % TWO32 + bc % TWO32 + 0x8000_0000;
            ac + ad / TWO32 + bc / TWO32 + mid / TWO32 ==
            (ac * TWO64 + (ad + bc) * TWO32 + bd + TWO64 / 2) / TWO64
  {
    var mid := bd / TWO32 + ad % TWO32 + bc % TWO32 + 0x8000_0000;
    var high := ac + ad / TWO32 + bc / TWO32 + mid / TWO32;
    var low := mid % TWO32 * TWO32 + bd % TWO32;
    var total := ac * TWO64 + (ad + bc) * TWO32 + bd + TWO64 / 2;
    assert total == high * TWO64 + low && low < TWO64;
    DivModUnique(total, TWO64, high, low);
  }

  lemma ProductRoundsBelow(x: nat, y: nat)
    requires x < TWO64 && y < TWO64
    ensures RoundedProduct(x, y) < TWO64
  {
    AtMost(x, TWO64 - 1, y);
    AtMost(y, TWO64 - 1, TWO64 - 1);
  }

  function Product(a: nat, b: nat): nat {
    a * b
  }

  /** `a * b` for 32-bit halves: the product fits in 64 bits. */
  method HalfProduct(a: uint64, b: uint64) returns (r: uint64)
    requires a < 0x1_0000_0000 && b < 0x1_0000_0000
    ensures r as nat == Product(a as nat, b as nat)
  {
    hide Product;
    HalfProductFits(a as nat, b as nat);
    r := Product(a as nat, b as nat) as uint64;
  }

  lemma HalfProductFits(a: nat, b: nat)
    requires a < TWO32 && b < TWO32
    ensures Product(a, b) < TWO64
  {
    ProductBound(a, b);
  }

  ghost function Middle(ad: nat, bc: nat, bd: nat): nat {
    bd / TWO32 + ad % TWO32 + bc % TWO32 + 0x8000_0000
  }

  ghost function High(ac: nat, ad: nat, bc: nat, bd: nat): nat {
    ac + ad / TWO32 + bc / TWO32 + Middle(ad, bc, bd) / TWO32
  }

  /** `operator*` (format-inl.h:442-451): 64-bit arithmetic without overflow that rounds to nearest. */
  method Multiply(x: Fp, y: Fp) returns (r: Fp)
    requires x.f < TWO64 && y.f < TWO64
    ensures r.f == RoundedProduct(x.f, y.f) < TWO64 && r.e == x.e + y.e + 64
  {
    hide Middle, High, RoundedProduct;
    Limbs(x.f, y.f);
    var xf, yf := x.f as uint64, y.f as uint64;
    var a, b := xf / 0x1_0000_0000, xf % 0x1_0000_0000;
    var c, d := yf / 0x1_0000_0000, yf % 0x1_0000_0000;
    var ac := HalfProduct(a, c);
    var bc := HalfProduct(b, c);
    var ad := HalfProduct(a, d);
    var bd := HalfProduct(b, d);
    HighIsRounded(x.f, y.f, ac as nat, ad as nat, bc as nat, bd as nat);
    var f := AddHigh(ac, ad, bc, bd);
    r := Fp(f as nat, x.e + y.e + 64);
  }

  lemma HighIsRounded(x: nat, y: nat, ac: nat, ad: nat, bc: nat, bd: nat)
    requires x < TWO64 && y < TWO64 && x * y == ac * TWO64 + (ad + bc) * TWO32 + bd
    ensures High(ac, ad, bc, bd) == RoundedProduct(x, y) < TWO64
  {
    MiddleSum(ac, ad, bc, bd);
    ProductRoundsBelow(x, y);
  }

  method AddHigh(ac: uint64, ad: uint64, bc: uint64, bd: uint64) returns (r: uint64)
    requires High(ac as nat, ad as nat, bc as nat, bd as nat) < TWO64
    ensures r as nat == High(ac as nat, ad as nat, bc as nat, bd as nat)
  {
    var mid: uint64 := bd / 0x1_0000_0000 + ad % 0x1_0000_0000 + bc % 0x1_0000_0000 + 0x8000_0000;
    assert mid as nat == Middle(ad as nat, bc as nat, bd as nat);
    r := ac + ad / 0x1_0000_0000 + bc / 0x1_0000_0000 + mid / 0x1_0000_0000;
  }

  // ---- normalization ----

  /** The number of doublings that bring `f` to at least `bit`. */
  ghost predicate BelowBit(f: nat, bit: nat) {
    0 < f < 2 * bit
  }

  /**
  `normalize<SHIFT>` (format-inl.h:401-412): the leading one moves to bit 63 and the value stays. Doubles and their
  boundaries are below `2^(53 + SHIFT)`; for zero the loop does not end.
  */
  method Normalize(x: Fp, shift: nat) returns (r: Fp)
    requires shift <= 10 && BelowBit(x.f, IMPLICIT_BIT * Pow2(shift))
    ensures Normalized(r) && r.e <= x.e && r.f == InUnits(x, r.e)
  {
    hide Pow2, InUnits;
    var bit: nat := IMPLICIT_BIT * Pow2(shift);
    var f, e := x.f, x.e;
    OwnUnits(x);
    // `f & bit`, for a power of two, is zero when the quotient is even.
    while f / bit % 2 == 0
      invariant 0 < f < 2 * bit && e <= x.e && f == InUnits(x, e)
      decreases bit - f
    {
      BitIsClear(f, bit);
      UnitsDouble(x, e);
      f := 2 * f;
      e := e - 1;
    }
    BitIsClear(f, bit);
    var offset := 64 - DOUBLE_SIGNIFICAND_SIZE - shift - 1;
    TopBit(shift);
    UnitsShift(x, e, offset);
    ScaleBounds(f, bit, Pow2(offset));
    r := Fp(f * Pow2(offset), e - offset);
  }

  lemma BitIsClear(f: nat, bit: nat)
    requires 0 < f < 2 * bit
    ensures f / bit % 2 == 0 <==> f < bit
  {
    if f >= bit {
      DivModUnique(f, bit, 1, f - bit);
    }
  }

  lemma OwnUnits(x: Fp)
    ensures InUnits(x, x.e) == x.f
  {
  }

  lemma UnitsDouble(x: Fp, e: int)
    requires e <= x.e
    ensures InUnits(x, e - 1) == 2 * InUnits(x, e)
  {
    assert Pow2(x.e - e + 1) == 2 * Pow2(x.e - e);
  }

  lemma UnitsShift(x: Fp, e: int, k: nat)
    requires e <= x.e
    ensures InUnits(x, e - k) == InUnits(x, e) * Pow2(k)
  {
    Pow2Sum(x.e - e, k);
    TimesTimes(x.f, Pow2(x.e - e), Pow2(k));
  }

  lemma TimesTimes(a: nat, b: nat, c: nat)
    ensures a * (b * c) == a * b * c
  {
  }

  /** The implicit bit, moved up by both shifts, is bit 63. */
  lemma TopBit(shift: nat)
    requires shift <= 10
    ensures IMPLICIT_BIT * Pow2(shift) * Pow2(64 - DOUBLE_SIGNIFICAND_SIZE - shift - 1) == TWO64 / 2
  {
    Pow2Sum(shift, 11 - shift);
    assert Pow2(11) == 2048 by { assert Pow2(8) == 256; }
  }

  lemma ScaleBounds(f: nat, bit: nat, k: nat)
    requires k > 0 && bit <= f < 2 * bit && bit * k == TWO64 / 2
    ensures TWO64 / 2 <= f * k < TWO64
  {
    AtMost(bit, f, k);
    AtMost(f + 1, 2 * bit, k);
  }

  // ---- boundaries ----

  /** A positive double: a significand below `2^53` that has its implicit bit unless the exponent is the least. */
  ghost predicate IsDouble(x: Fp) {
    0 < x.f < 2 * IMPLICIT_BIT && x.e >= MIN_EXPONENT && (x.f >= IMPLICIT_BIT || x.e == MIN_EXPONENT)
  }

  /** The next larger double: one unit in the last place more. */
  ghost function Successor(x: Fp): Fp {
    Fp(x.f + 1, x.e)
  }

  /** The next smaller double, or zero. At the lower end of a binade the units below are half as large. */
  ghost function Predecessor(x: Fp): Fp
    requires IsDouble(x)
  {
    if x.f == IMPLICIT_BIT && x.e > MIN_EXPONENT then Fp(2 * x.f - 1, x.e - 1) else Fp(x.f - 1, x.e)
  }

  /** `2 * m == x + y`, in units of `2^e`. */
  ghost predicate HalfWay(m: Fp, x: Fp, y: Fp, e: int) {
    e <= m.e && e <= x.e && e <= y.e && 2 * InUnits(m, e) == InUnits(x, e) + InUnits(y, e)
  }

  /** The upper boundary before normalization. */
  function UpperBoundary(x: Fp): Fp {
    Fp(2 * x.f + 1, x.e - 1)
  }

  function LowerBoundary(x: Fp): (r: Fp)
    requires x.f > 0
  {
    if x.f == IMPLICIT_BIT then Fp(4 * x.f - 1, x.e - 2) else Fp(2 * x.f - 1, x.e - 1)
  }

  /** The upper boundary is half way to the next double. */
  lemma UpperIsHalfWay(x: Fp)
    requires IsDouble(x)
    ensures HalfWay(UpperBoundary(x), x, Successor(x), x.e - 1)
  {
    assert Pow2(1) == 2;
  }

  /**
  The lower boundary is half way to the double before, except for the smallest normal double: there the code halves the
  distance although the doubles below are no closer together.
  */
  lemma LowerIsHalfWayExactly(x: Fp)
    requires IsDouble(x)
    ensures HalfWay(LowerBoundary(x), Predecessor(x), x, x.e - 2) <==> !(x.f == IMPLICIT_BIT && x.e == MIN_EXPONENT)
  {
    assert Pow2(0) == 1 && Pow2(1) == 2 && Pow2(2) == 4;
  }

  /** In that one case the boundary lies between half way and the number, so it is still a safe bound. */
  lemma LowerIsSafe(x: Fp)
    requires IsDouble(x)
    ensures InUnits(Predecessor(x), x.e - 2) + InUnits(x, x.e - 2) <= 2 * InUnits(LowerBoundary(x), x.e - 2)
    ensures InUnits(LowerBoundary(x), x.e - 2) < InUnits(x, x.e - 2)
  {
    assert Pow2(0) == 1 && Pow2(1) == 2 && Pow2(2) == 4;
  }

  /** A witness: the smallest normal double. */
  lemma SmallestNormalIsOff()
    ensures var x := Fp(IMPLICIT_BIT, MIN_EXPONENT);
            IsDouble(x) && !HalfWay(LowerBoundary(x), Predecessor(x), x, x.e - 2)
  {
    LowerIsHalfWayExactly(Fp(IMPLICIT_BIT, MIN_EXPONENT));
  }

  /**
  `compute_boundaries` (format-inl.h:418-425): both bounds get one exponent, at which the upper one is normalized,
  neither overflows, and both keep their values.
  */
  method ComputeBoundaries(x: Fp) returns (lower: Fp, upper: Fp)
    requires IsDouble(x)
    ensures Normalized(upper) && lower.e == upper.e <= x.e - 11
    ensures upper.f == InUnits(UpperBoundary(x), upper.e)
    ensures lower.f == InUnits(LowerBoundary(x), upper.e)
  {
    hide InUnits, Normalized;
    assert IMPLICIT_BIT * Pow2(1) == 2 * IMPLICIT_BIT;
    upper := Normalize(UpperBoundary(x), 1);
    EnoughRoom(UpperBoundary(x), upper);
    lower := LowerBoundary(x);
    UnitsOfLower(lower, upper.e);
    lower := Fp(lower.f * Pow2(lower.e - upper.e), upper.e);
  }

  lemma UnitsOfLower(x: Fp, e: int)
    requires e <= x.e
    ensures x.f * Pow2(x.e - e) == InUnits(x, e)
  {
  }

  /** A significand below `2^54` moves up by at least ten places. */
  lemma EnoughRoom(x: Fp, r: Fp)
    requires 0 < x.f < 4 * IMPLICIT_BIT && r.e <= x.e && r.f == InUnits(x, r.e) && Normalized(r)
    ensures r.e <= x.e - 10
  {
    if x.e - r.e < 10 {
      SmallShift(x.f, x.e - r.e);
    }
  }

  lemma SmallShift(f: nat, k: nat)
    requires f < 4 * IMPLICIT_BIT && k < 10
    ensures f * Pow2(k) < TWO64 / 2
  {
    Pow2Grows(k, 9);
    assert Pow2(9) == 512 by { assert Pow2(5) == 32; }
    AtMost(Pow2(k), 512, f);
  }

  // ---- one exponent for the number and its bounds ----

  lemma NormalizedOnce(f: nat, a: nat, b: nat)
    requires TWO64 / 2 <= f * Pow2(a) < TWO64 && TWO64 / 2 <= f * Pow2(b) < TWO64
    ensures a == b
  {
    if a < b {
      Doubled(f, a, b);
    } else if b < a {
      Doubled(f, b, a);
    }
  }

  lemma Doubled(f: nat, a: nat, b: nat)
    requires a < b
    ensures 2 * (f * Pow2(a)) <= f * Pow2(b)
  {
    Pow2Grows(a + 1, b);
    AtMost(2 * Pow2(a), Pow2(b), f);
  }

  /** `2f + 1` reaches bit 63 only when `2f` does. */
  lemma EvenReachesToo(f: nat, b: nat)
    requires b < 63 && TWO64 / 2 <= (2 * f + 1) * Pow2(b)
    ensures TWO64 / 2 <= 2 * f * Pow2(b)
  {
    var p, q := Pow2(b), Pow2(62 - b);
    HalfTop(b);
    if 2 * f * p < 2 * q * p {
      Cancel(2 * f, 2 * q, p);
      AtMost(2 * f + 2, 2 * q, p);
      Cancelled(2 * f + 1, 2 * f + 2, p);
    }
  }

  lemma HalfTop(b: nat)
    requires b < 63
    ensures 2 * Pow2(62 - b) * Pow2(b) == TWO64 / 2
  {
    hide Pow2;
    Pow2Sum(62 - b, b);
    Top();
    NextPower(62);
    TwiceProduct(Pow2(62 - b), Pow2(b));
  }

  lemma NextPower(k: nat)
    ensures Pow2(k + 1) == 2 * Pow2(k)
  {
  }

  lemma TwiceProduct(a: nat, b: nat)
    ensures 2 * a * b == 2 * (a * b)
  {
  }

  lemma Cancelled(a: nat, b: nat, p: nat)
    requires p > 0 && a < b
    ensures a * p < b * p
  {
  }

  lemma Top()
    ensures Pow2(63) == TWO64 / 2
  {
    ShiftPowers();
    Pow2Sum(58, 5);
    assert Pow2(5) == 32;
  }

  /** The number and its bounds, all moved up, have one exponent. */
  lemma OneExponent(x: Fp, v: Fp, upper: Fp)
    requires IsDouble(x) && Normalized(v) && v.e <= x.e && v.f == InUnits(x, v.e)
    requires Normalized(upper) && upper.e <= x.e - 1 && upper.f == InUnits(UpperBoundary(x), upper.e)
    ensures v.e == upper.e
  {
    var a, b := x.e - v.e, x.e - 1 - upper.e;
    assert v.f == x.f * Pow2(a) && upper.f == (2 * x.f + 1) * Pow2(b);
    ShiftIsSmall(2 * x.f + 1, b);
    EvenReachesToo(x.f, b);
    AtMost(2 * x.f, 2 * x.f + 1, Pow2(b));
    TwiceShifted(x.f, b);
    NormalizedOnce(x.f, a, b + 1);
  }

  lemma TwiceShifted(f: nat, b: nat)
    ensures f * Pow2(b + 1) == 2 * f * Pow2(b)
  {
  }

  lemma ShiftIsSmall(f: nat, b: nat)
    requires f >= 2 && f * Pow2(b) < TWO64
    ensures b < 63
  {
    if b >= 63 {
      Top();
      Pow2Grows(63, b);
      AtMost(2, f, Pow2(b));
    }
  }

  // ---- the scaled bounds of Grisu ----

  /** How far apart the number and its bounds are, in units of their common exponent. */
  lemma Gaps(x: Fp, e: int)
    requires IsDouble(x) && e <= x.e - 11
    ensures InUnits(UpperBoundary(x), e) >= InUnits(x, e) + 512
    ensures InUnits(x, e) >= InUnits(LowerBoundary(x), e) + 512
  {
    var k := x.e - 2 - e;
    var p := Pow2(k);
    Pow2Grows(9, k);
    assert Pow2(9) == 512 by { assert Pow2(5) == 32; }
    assert Pow2(x.e - 1 - e) == 2 * p && Pow2(x.e - e) == 4 * p;
    assert InUnits(x, e) == 4 * x.f * p;
    assert InUnits(UpperBoundary(x), e) == (2 * x.f + 1) * (2 * p) == 4 * x.f * p + 2 * p;
    if x.f == IMPLICIT_BIT {
      assert InUnits(LowerBoundary(x), e) == (4 * x.f - 1) * p == 4 * x.f * p - p;
    } else {
      assert InUnits(LowerBoundary(x), e) == (2 * x.f - 1) * (2 * p) == 4 * x.f * p - 2 * p;
    }
  }

  /** Significands that are far apart stay apart when they are scaled: at least two units. */
  lemma ScaledApart(a: nat, b: nat, c: nat)
    requires a >= b + 512 && TWO64 / 2 <= c
    ensures RoundedProduct(a, c) >= RoundedProduct(b, c) + 2
  {
    AtMost(b + 512, a, c);
    assert a * c >= b * c + 512 * c >= b * c + 2 * TWO64;
    assert (b * c + 2 * TWO64 + TWO64 / 2) / TWO64 == RoundedProduct(b, c) + 2 by {
      var n := b * c + TWO64 / 2;
      DivModUnique(n + 2 * TWO64, TWO64, n / TWO64 + 2, n % TWO64);
    }
    Monotone(b * c + 2 * TWO64 + TWO64 / 2, a * c + TWO64 / 2);
  }

  lemma Monotone(a: nat, b: nat)
    requires a <= b
    ensures a / TWO64 <= b / TWO64
  {
  }

  /** `c` is the significand of a cached power whose exact value, in the same units, is `p`. */
  ghost predicate CloseTo(c: nat, p: real) {
    -0.5 <= c as real - p <= 0.5
  }

  /** One unit less than the scaled upper bound is below the exactly scaled one. */
  lemma UpperIsInside(u: nat, c: nat, p: real)
    requires u < TWO64 && CloseTo(c, p)
    ensures (RoundedProduct(u, c) as real - 1.0) * TWO64 as real < u as real * p
  {
    var r := RoundedProduct(u, c);
    assert r * TWO64 <= u * c + TWO64 / 2;
    RealProduct(u, c);
    ErrorBound(u, c as real - p);
    assert u as real * p == u as real * c as real - u as real * (c as real - p);
  }

  /** One unit more than the scaled lower bound is above the exactly scaled one. */
  lemma LowerIsInside(l: nat, c: nat, p: real)
    requires l < TWO64 && CloseTo(c, p)
    ensures l as real * p < (RoundedProduct(l, c) as real + 1.0) * TWO64 as real
  {
    var r := RoundedProduct(l, c);
    assert l * c + TWO64 / 2 < (r + 1) * TWO64;
    RealProduct(l, c);
    ErrorBound(l, c as real - p);
    assert l as real * p == l as real * c as real - l as real * (c as real - p);
  }

  lemma RealProduct(a: nat, b: nat)
    ensures (a * b) as real == a as real * b as real
  {
  }

  lemma ErrorBound(u: nat, d: real)
    requires u < TWO64 && -0.5 <= d <= 0.5
    ensures 0.0 - (TWO64 / 2) as real < u as real * d < (TWO64 / 2) as real
  {
    HalfOfTwo64();
    BelowHalf(u as real, TWO64 as real, d);
  }

  lemma BelowHalf(x: real, t: real, d: real)
    requires 0.0 <= x < t && -0.5 <= d <= 0.5
    ensures 0.0 - t * 0.5 < x * d < t * 0.5
  {
    RealAtMost(x, d, 0.5);
    RealAtMost(x, -0.5, d);
    assert x * d <= x * 0.5;
    assert x * -0.5 <= x * d;
    assert x * -0.5 == 0.0 - x * 0.5;
  }

  lemma HalfOfTwo64()
    ensures (TWO64 / 2) as real == TWO64 as real * 0.5
  {
  }

  lemma RealAtMost(u: real, a: real, b: real)
    requires u >= 0.0 && a <= b
    ensures u * a <= u * b
  {
  }

  /**
  The start of `grisu2_format` (format-inl.h:726-749), for any cached power `c` that is within half a unit of the exact
  power `p`: all three scaled numbers have one exponent; the bounds lie strictly inside the exactly scaled ones, by less than
  two units, and on the right sides of the scaled number, which is less than one unit off; and no subtraction wraps around.
  */
  method GrisuStart(x: Fp, c: Fp, ghost p: real)
    returns (lower: Fp, scaled: Fp, upper: Fp, delta: nat, diff: Fp, ghost l: nat, ghost u: nat, ghost e: int)
    requires IsDouble(x) && Normalized(c) && CloseTo(c.f, p)
    ensures e <= x.e - 11 && l == InUnits(LowerBoundary(x), e) && u == InUnits(UpperBoundary(x), e)
    ensures lower.e == scaled.e == upper.e == e + c.e + 64
    ensures (lower.f as real - 2.0) * TWO64 as real < l as real * p < lower.f as real * TWO64 as real
    ensures upper.f as real * TWO64 as real < u as real * p < (upper.f as real + 2.0) * TWO64 as real
    ensures var v := InUnits(x, e) as real * p;
            (scaled.f as real - 1.0) * TWO64 as real < v < (scaled.f as real + 1.0) * TWO64 as real
    ensures lower.f <= scaled.f <= upper.f < TWO64
    ensures delta == upper.f - lower.f && diff == Fp(upper.f - scaled.f, upper.e)
  {
    hide InUnits, RoundedProduct;
    lower, upper := ComputeBoundaries(x);
    e, l, u := upper.e, lower.f, upper.f;
    assert IMPLICIT_BIT * Pow2(0) == IMPLICIT_BIT;
    var v := Normalize(x, 0);
    OneExponent(x, v, upper);
    Gaps(x, e);
    ScaledApart(u, v.f, c.f);
    ScaledApart(v.f, l, c.f);
    UpperIsInside(u, c.f, p);
    LowerIsInside(u, c.f, p);
    UpperIsInside(v.f, c.f, p);
    LowerIsInside(v.f, c.f, p);
    UpperIsInside(l, c.f, p);
    LowerIsInside(l, c.f, p);
    upper := Multiply(upper, c);
    upper := Fp(upper.f - 1, upper.e);
    scaled := Multiply(v, c);
    lower := Multiply(lower, c);
    lower := Fp(lower.f + 1, lower.e);
    delta := upper.f - lower.f;
    diff := Fp(upper.f - scaled.f, upper.e);
  }
}
