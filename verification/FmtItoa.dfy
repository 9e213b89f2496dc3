/**
The integer formatter of src/include/spdlog/fmt/bundled/format.h:830-883: a 32-bit number becomes a 4.32 fixed-point
fraction, whose digits are read off by multiplying by 100.
*/
module FmtItoa {
  import opened Bits
  import opened Decimal

  newtype uint32 = x: int | 0 <= x < 0x1_0000_0000
  newtype uint64 = x: int | 0 <= x < 0x1_0000_0000_0000_0000

  const ONE := 0x1_0000_0000

  /** The dispatch of `lg`: the exponent of the leading digit. */
  function Lg(n: uint32): nat {
    if n < 100 then (if n < 10 then 0 else 1)
    else if n < 1000000 then
      (if n < 10000 then (if n < 1000 then 2 else 3) else if n < 100000 then 4 else 5)
    else if n < 100000000 then (if n < 10000000 then 6 else 7)
    else if n < 1000000000 then 8 else 9
  }

  lemma SmallPowers()
    ensures Pow10(0) == 1 && Pow10(1) == 10 && Pow10(2) == 100 && Pow10(3) == 1000 && Pow10(4) == 10000
    ensures Pow10(5) == 100000 && Pow10(6) == 1000000 && Pow10(7) == 10000000 && Pow10(8) == 100000000
    ensures Pow10(9) == 1000000000 && Pow10(10) == 10000000000
  {
    assert Pow10(3) == 1000;
    assert Pow10(6) == 1000000;
    assert Pow10(9) == 1000000000;
  }

  /** `lg` picks the number's digit count less one. */
  lemma LgIsDigitCount(n: uint32)
    ensures Lg(n) <= 9 && |Digits(n as nat)| == Lg(n) + 1
    ensures Pow10(Lg(n)) <= n as nat || n == 0
    ensures (n as nat) < Pow10(Lg(n) + 1)
  {
    SmallPowers();
    DigitCount(n as nat, Lg(n) + 1);
  }

  // ---- the fixed-point fraction ----

  /** `unsigned a = n / 5 * n * 53 / 16`. */
  function ShiftFor(n: nat): nat {
    n / 5 * n * 53 / 16
  }

  /** `(1ULL << (32 + a)) / 10^n + 1 - n / 9`. */
  function Scale(n: nat): int {
    Pow2(32 + ShiftFor(n)) / Pow10(n) + 1 - n / 9
  }

  /** `((t * u) >> a) + n / 5 * 4`. */
  function Fraction(n: nat, u: nat): int {
    Scale(n) * u / Pow2(ShiftFor(n)) + n / 5 * 4
  }

  /** The error of the fraction: it is never below `u / 10^n` and less than one unit of the last digit above. */
  ghost predicate Accurate(n: nat, u: nat, t: int) {
    u * ONE <= t * Pow10(n) < (u + 1) * ONE
  }

  lemma Shifts()
    ensures ShiftFor(1) == ShiftFor(2) == ShiftFor(3) == ShiftFor(4) == 0
    ensures ShiftFor(5) == 16 && ShiftFor(6) == 19 && ShiftFor(7) == 23 && ShiftFor(8) == 26
  {
  }

  lemma ShiftPowers()
    ensures Pow2(0) == 1 && Pow2(16) == 0x1_0000 && Pow2(19) == 0x8_0000 && Pow2(23) == 0x80_0000
    ensures Pow2(26) == 0x400_0000 && Pow2(32) == ONE && Pow2(48) == 0x1_0000_0000_0000
    ensures Pow2(51) == 0x8_0000_0000_0000 && Pow2(55) == 0x80_0000_0000_0000 && Pow2(58) == 0x400_0000_0000_0000
  {
    assert Pow2(4) == 16;
    assert Pow2(8) == 256;
    assert Pow2(12) == 0x1000;
    assert Pow2(16) == 0x1_0000;
    assert Pow2(19) == 0x8_0000;
    assert Pow2(23) == 0x80_0000;
    assert Pow2(26) == 0x400_0000;
    Pow2Sum(16, 16);
    Pow2Sum(32, 16);
    Pow2Sum(32, 19);
    Pow2Sum(32, 23);
    Pow2Sum(32, 26);
  }

  lemma Scales()
    ensures Scale(1) == 429496730 && Scale(2) == 42949673 && Scale(3) == 4294968 && Scale(4) == 429497
    ensures Scale(5) == 2814749768 && Scale(6) == 2251799814 && Scale(7) == 3602879702 && Scale(8) == 2882303762
  {
    hide Pow2, Pow10, ShiftFor;
    Shifts();
    ShiftPowers();
    SmallPowers();
  }

  /** The product that the formatter forms fits in 64 bits, and so does every step after it. */
  lemma FractionIsAccurate(n: nat, u: nat)
    requires 1 <= n <= 8 && u < Pow10(n + 2) && u < ONE
    ensures 0 <= Scale(n) < 0x1_0000_0000_0000_0000 && 0 <= Scale(n) * u < 0x1_0000_0000_0000_0000
    ensures 0 <= Fraction(n, u) < 100 * ONE && Accurate(n, u, Fraction(n, u))
  {
    hide Pow2, Pow10, Scale, ShiftFor, Accurate, Fraction;
    if n <= 4 {
      FractionUpTo4(n, u);
    } else {
      FractionFrom5(n, u);
    }
  }

  lemma FractionUpTo4(n: nat, u: nat)
    requires 1 <= n <= 4 && u < Pow10(n + 2) && u < ONE
    ensures 0 <= Scale(n) < 0x1_0000_0000_0000_0000 && 0 <= Scale(n) * u < 0x1_0000_0000_0000_0000
    ensures 0 <= Fraction(n, u) < 100 * ONE && Accurate(n, u, Fraction(n, u))
  {
    hide Pow2, Pow10, Scale, ShiftFor;
    Shifts();
    ShiftPowers();
    SmallPowers();
    Scales();
    if n == 1 { SmallFraction(1, u, 429496730, 10); }
    else if n == 2 { SmallFraction(2, u, 42949673, 100); }
    else if n == 3 { SmallFraction(3, u, 4294968, 1000); }
    else { SmallFraction(4, u, 429497, 10000); }
  }

  lemma FractionFrom5(n: nat, u: nat)
    requires 5 <= n <= 8 && u < Pow10(n + 2) && u < ONE
    ensures 0 <= Scale(n) < 0x1_0000_0000_0000_0000 && 0 <= Scale(n) * u < 0x1_0000_0000_0000_0000
    ensures 0 <= Fraction(n, u) < 100 * ONE && Accurate(n, u, Fraction(n, u))
  {
    hide Pow2, Pow10, Scale, ShiftFor;
    Shifts();
    ShiftPowers();
    SmallPowers();
    Scales();
    if n == 5 { ScaledFraction(u, 2814749768, 0x1_0000, 100000); }
    else if n == 6 { ScaledFraction(u, 2251799814, 0x8_0000, 1000000); }
    else if n == 7 { ScaledFraction(u, 3602879702, 0x80_0000, 10000000); }
    else { ScaledFraction(u, 2882303762, 0x400_0000, 100000000); }
  }

  lemma SmallFraction(n: nat, u: nat, scale: nat, p: nat)
    requires (p, scale) in {(10, 429496730), (100, 42949673), (1000, 4294968), (10000, 429497)}
    requires u < 100 * p
    ensures scale * u < 100 * ONE && u * ONE <= scale * u * p < (u + 1) * ONE
  {
  }

  lemma ScaledFraction(u: nat, scale: nat, shift: nat, p: nat)
    requires (p, scale, shift) in {(100000, 2814749768, 0x1_0000), (1000000, 2251799814, 0x8_0000),
                                   (10000000, 3602879702, 0x80_0000), (100000000, 2882303762, 0x400_0000)}
    requires u < 100 * p && u < ONE
    ensures var t := scale * u / shift + 4;
            scale * u < 0x1_0000_0000_0000_0000 && t < 100 * ONE && u * ONE <= t * p < (u + 1) * ONE
  {
  }

  // ---- reading the digits off ----

  lemma AtMost(a: nat, b: nat, c: nat)
    requires a <= b
    ensures a * c <= b * c
  {
  }

  lemma QuotientAtLeast(x: nat, w: nat, q: nat)
    requires w > 0 && q * w <= x
    ensures q <= x / w
  {
    var y := x / w;
    assert x < (y + 1) * w;
    if y + 1 <= q {
      AtMost(y + 1, q, w);
    }
  }

  lemma QuotientBelow(x: nat, w: nat, q: nat)
    requires w > 0 && x < q * w
    ensures x / w < q
  {
    var y := x / w;
    assert y * w <= x;
    if q <= y {
      AtMost(q, y, w);
    }
  }

  lemma Cancel(a: nat, b: nat, m: nat)
    requires m > 0 && a * m < b * m
    ensures a < b
  {
    if b <= a {
      AtMost(b, a, m);
    }
  }

  /** A quotient that is off by less than one unit of `u` has the right whole part. */
  lemma WholePart(x: nat, u: nat, m: nat, w: nat)
    requires m > 0 && w > 0 && u * w <= x * m < (u + 1) * w
    ensures x / w == u / m
  {
    var q := u / m;
    WholePartAtLeast(x, u, m, w, q);
    WholePartBelow(x, u, m, w, q);
  }

  lemma WholePartAtLeast(x: nat, u: nat, m: nat, w: nat, q: nat)
    requires m > 0 && w > 0 && u * w <= x * m && q == u / m
    ensures q <= x / w
  {
    assert q * m <= u;
    AtMost(q * m, u, w);
    var z := q * w;
    assert z * m == q * m * w;
    if x < z {
      AtMost(x + 1, z, m);
    }
    QuotientAtLeast(x, w, q);
  }

  lemma WholePartBelow(x: nat, u: nat, m: nat, w: nat, q: nat)
    requires m > 0 && w > 0 && x * m < (u + 1) * w && q == u / m
    ensures x / w <= q
  {
    assert u + 1 <= (q + 1) * m;
    AtMost(u + 1, (q + 1) * m, w);
    var z := (q + 1) * w;
    assert z * m == (q + 1) * m * w;
    Cancel(x, z, m);
    QuotientBelow(x, w, q + 1);
  }

  /** The first `k + 2` digits of the fraction are those of the number: `floor(t * 10^k / 2^32) == floor(u / 10^(n - k))`. */
  lemma LeadingDigits(n: nat, k: nat, u: nat, t: nat)
    requires k <= n && Accurate(n, u, t)
    ensures t * Pow10(k) / ONE == u / Pow10(n - k)
  {
    Pow10Sum(k, n - k);
    var x, m := t * Pow10(k), Pow10(n - k);
    assert x * m == t * (Pow10(k) * m) == t * Pow10(n);
    WholePart(x, u, m, ONE);
  }

  /** One round of the loop: multiplying the fractional part by `base` brings up the digits that come next. */
  lemma NextDigits(x: nat, base: nat)
    requires base > 0
    ensures (x * base) / ONE == base * (x / ONE) + (x % ONE) * base / ONE
    ensures (x * base) % ONE == (x % ONE) * base % ONE
  {
    var q, f := x / ONE, x % ONE;
    var q', f' := f * base / ONE, f * base % ONE;
    assert x * base == (ONE * q + f) * base == ONE * (q * base) + f * base == ONE * (base * q + q') + f';
    DivModUnique(x * base, ONE, base * q + q', f');
  }

  lemma {:induction false} TwoMoreDigits(a: nat, pair: nat)
    requires a > 0 && pair < 100
    ensures Digits(100 * a + pair) == Digits(a) + [DigitChar(pair / 10), DigitChar(pair % 10)]
  {
    var b := 10 * a + pair / 10;
    assert (100 * a + pair) / 10 == b && (100 * a + pair) % 10 == pair % 10;
    assert b / 10 == a && b % 10 == pair / 10;
    assert Digits(b) == Digits(a) + [DigitChar(pair / 10)];
    assert Digits(100 * a + pair) == Digits(b) + [DigitChar(pair % 10)];
  }

  /** `write_pair` (src/include/spdlog/fmt/bundled/format.h:851-853). */
  method WritePair(buffer: array<char>, at: nat, index: nat)
    requires index < 100 && at + 2 <= buffer.Length
    modifies buffer
    ensures buffer[..] == Overwritten(old(buffer[..]), at, [DigitChar(index / 10), DigitChar(index % 10)])
  {
    hide DigitTable, DigitChar;
    PairAt(index);
    ghost var before := buffer[..];
    buffer[at] := DigitTable(index * 2);
    buffer[at + 1] := DigitTable(index * 2 + 1);
    assert buffer[..] == before[..at] + [buffer[at], buffer[at + 1]] + before[at + 2..];
  }

  lemma PairAt(index: nat)
    requires index < 100
    ensures DigitTable(index * 2) == DigitChar(index / 10) && DigitTable(index * 2 + 1) == DigitChar(index % 10)
  {
    TableHoldsPairs(index);
  }

  function Leading(u: nat, k: nat): nat {
    QuotientAtLeast(u, Pow10(k), 0);
    u / Pow10(k)
  }

  ghost function Scaled(f: nat, k: nat): nat {
    f * Pow10(k)
  }

  /** After `i` characters: they are the leading digits of `u`, and `t` is what the fraction has left. */
  ghost predicate Progress(u: nat, f: nat, n: nat, i: nat, t: nat, text: seq<char>) {
    && 2 <= i <= n + 2 && |text| == i
    && Scaled(f, i - 2) % ONE == t % ONE
    && text == Digits(Leading(u, n + 2 - i))
  }

  lemma FirstPair(u: nat, f: nat, n: nat, text: seq<char>)
    requires n >= 1 && Pow10(n + 1) <= u < Pow10(n + 2) && f < 100 * ONE && Accurate(n, u, f)
    requires text == [DigitChar(f / ONE / 10), DigitChar(f / ONE % 10)]
    ensures Progress(u, f, n, 2, f, text)
  {
    hide Accurate;
    LeadingDigits(n, 0, u, f);
    var d := u / Pow10(n);
    assert f * Pow10(0) == f;
    assert 10 <= d by { QuotientAtLeast(u, Pow10(n), 10); }
    assert Digits(d / 10) == [DigitChar(d / 10)];
    assert Digits(d) == Digits(d / 10) + [DigitChar(d % 10)];
  }

  lemma NextPair(u: nat, f: nat, n: nat, i: nat, t: nat, text: seq<char>)
    requires Pow10(n + 1) <= u && Accurate(n, u, f) && i <= n && Progress(u, f, n, i, t, text)
    ensures var t' := 100 * (t % ONE);
            var pair := t' / ONE;
            pair < 100 && Progress(u, f, n, i + 2, t', text + [DigitChar(pair / 10), DigitChar(pair % 10)])
  {
    hide Accurate, Digits;
    var x, t' := f * Pow10(i - 2), 100 * (t % ONE);
    LeadingDigits(n, i - 2, u, f);
    LeadingDigits(n, i, u, f);
    Pow10Sum(i - 2, 2);
    assert Pow10(2) == 100 && f * Pow10(i) == x * 100 by { SmallPowers(); }
    NextDigits(x, 100);
    LeadingIsPositive(u, n, n + 2 - i);
    TwoMoreDigits(u / Pow10(n + 2 - i), t' / ONE);
  }

  lemma LeadingIsPositive(u: nat, n: nat, k: nat)
    requires Pow10(n + 1) <= u && k <= n
    ensures u / Pow10(k) > 0
  {
    Pow10Grows(k, n + 1);
    QuotientAtLeast(u, Pow10(k), 1);
  }

  lemma LastDigit(u: nat, f: nat, n: nat, t: nat, text: seq<char>)
    requires n >= 1 && Pow10(n + 1) <= u && Accurate(n, u, f) && Progress(u, f, n, n + 1, t, text)
    ensures var d := 10 * (t % ONE) / ONE;
            d < 10 && text + [DigitChar(d)] == Digits(u)
  {
    hide Accurate, Pow10, Digits;
    var x := Scaled(f, n - 1);
    LeadingDigits(n, n - 1, u, f);
    LeadingDigits(n, n, u, f);
    assert Scaled(f, n) == x * 10 by { Pow10Sum(n - 1, 1); SmallPowers(); }
    NextDigits(x, 10);
    SmallPowers();
    LeadingIsPositive(u, n, 1);
    OneMoreDigit(u / 10, 10 * (t % ONE) / ONE);
  }

  lemma OneMoreDigit(a: nat, d: nat)
    requires a > 0 && d < 10
    ensures Digits(10 * a + d) == Digits(a) + [DigitChar(d)]
  {
  }

  /** The longer part of `decimal_formatter::on` (src/include/spdlog/fmt/bundled/format.h:864-880). */
  method WriteFraction(buffer: array<char>, base: nat, N: nat, u: uint32)
    requires 2 <= N <= 9 && base + N + 1 <= buffer.Length && Pow10(N) <= u as nat < Pow10(N + 1)
    modifies buffer
    ensures |Digits(u as nat)| == N + 1 && buffer[..] == Overwritten(old(buffer[..]), base, Digits(u as nat))
  {
    hide Pow2, Scale, Fraction, Accurate, Digits, ShiftFor, Progress, Overwritten;
    var n := N - 1;
    FractionIsAccurate(n, u as nat);
    var t: uint64 := FirstFraction(n, u);
    ghost var f, before := t as nat, buffer[..];
    ghost var text := [DigitChar(f / ONE / 10), DigitChar(f / ONE % 10)];
    WritePair(buffer, base, (t / 0x1_0000_0000) as nat);
    FirstPair(u as nat, f, n, text);
    var i := 2;
    while i < N
      invariant 2 <= i <= N + 1 && i % 2 == 0 && |text| == i
      invariant buffer[..] == Overwritten(before, base, text)
      invariant Progress(u as nat, f, n, i, t as nat, text)
    {
      NextPair(u as nat, f, n, i, t as nat, text);
      t := 100 * (t % 0x1_0000_0000);
      ghost var pair := (t / 0x1_0000_0000) as nat;
      ghost var more := [DigitChar(pair / 10), DigitChar(pair % 10)];
      WritePair(buffer, base + i, (t / 0x1_0000_0000) as nat);
      OverwrittenTwice(before, base, text, more);
      text := text + more;
      i := i + 2;
    }
    if N % 2 == 0 {
      LastDigit(u as nat, f, n, t as nat, text);
      var last := DigitChar(((10 * (t % 0x1_0000_0000)) / 0x1_0000_0000) as nat);
      WriteChar(buffer, base + N, last);
      OverwrittenTwice(before, base, text, [last]);
    } else {
      AllWritten(u as nat, f, n, t as nat, text);
    }
  }

  method WriteChar(buffer: array<char>, at: nat, c: char)
    requires at < buffer.Length
    modifies buffer
    ensures buffer[..] == Overwritten(old(buffer[..]), at, [c])
  {
    buffer[at] := c;
  }

  lemma AllWritten(u: nat, f: nat, n: nat, t: nat, text: seq<char>)
    requires Progress(u, f, n, n + 2, t, text)
    ensures text == Digits(u)
  {
  }

  /** The fraction, formed in 64 bits without overflow (src/include/spdlog/fmt/bundled/format.h:866-870). */
  method FirstFraction(n: nat, u: uint32) returns (t: uint64)
    requires 1 <= n <= 8 && (u as nat) < Pow10(n + 2)
    ensures t as nat == Fraction(n, u as nat) && t < 100 * 0x1_0000_0000
  {
    hide Pow2, Pow10, Scale, ShiftFor;
    FractionIsAccurate(n, u as nat);
    t := Scale(n) as uint64;
    var product: uint64 := t * (u as uint64);
    t := ((product as nat) / Pow2(ShiftFor(n)) + n / 5 * 4) as uint64;
  }

  /** `decimal_formatter::on` (src/include/spdlog/fmt/bundled/format.h:858-882): returns where the digits end. */
  method On(buffer: array<char>, base: nat, N: nat, u: uint32) returns (end: nat)
    requires N <= 9 && base + N + 1 <= buffer.Length
    requires (u as nat) < Pow10(N + 1) && (N == 0 || Pow10(N) <= u as nat)
    modifies buffer
    ensures |Digits(u as nat)| == N + 1 && buffer[..] == Overwritten(old(buffer[..]), base, Digits(u as nat))
    ensures end == base + N + 1
  {
    SmallPowers();
    if N == 0 {
      WriteChar(buffer, base, DigitChar(u as nat));
    } else if N == 1 {
      WritePair(buffer, base, u as nat);
      OneMoreDigit(u as nat / 10, u as nat % 10);
    } else {
      WriteFraction(buffer, base, N, u);
    }
    end := base + N + 1;
  }

  /** `lg(n, decimal_formatter(buffer))`: exactly the decimal digits of every 32-bit number, and nothing else. */
  method FormatUint32(buffer: array<char>, base: nat, u: uint32) returns (end: nat)
    requires base + |Digits(u as nat)| <= buffer.Length
    modifies buffer
    ensures buffer[..] == Overwritten(old(buffer[..]), base, Digits(u as nat))
    ensures end == base + |Digits(u as nat)|
  {
    LgIsDigitCount(u);
    SmallPowers();
    end := On(buffer, base, Lg(u), u);
  }
}
