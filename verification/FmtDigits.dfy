/**
Counting, writing and reading decimal digits in src/include/spdlog/fmt/bundled/format.h: the digit count by leading
zeros and its fallback loop, the two-digits-at-a-time writer with thousands separators, and the overflow-checked parser.
*/
module FmtDigits {
  import opened Bits
  import opened Decimal
  import opened FmtItoa

  // ---- count_digits ----

  /** The number of bits of `n`: the word size less `__builtin_clz(n)`. */
  function BitLength(n: nat): nat {
    if n == 0 then 0 else 1 + BitLength(n / 2)
  }

  lemma {:induction false} BitLengthBounds(n: nat)
    requires n > 0
    ensures BitLength(n) >= 1 && Pow2(BitLength(n) - 1) <= n < Pow2(BitLength(n))
  {
    if n > 1 {
      BitLengthBounds(n / 2);
    }
  }

  /** `n | 1`. */
  function OrOne(n: nat): nat {
    if n % 2 == 0 then n + 1 else n
  }

  const ZERO_OR_POWERS_OF_10: seq<nat> := [
    0, 10, 100, 1000, 10000, 100000, 1000000, 10000000, 100000000, 1000000000,
    10000000000, 100000000000, 1000000000000, 10000000000000, 100000000000000, 1000000000000000,
    10000000000000000, 100000000000000000, 1000000000000000000, 10000000000000000000]

  /** `(bits - clz(n | 1)) * 1233 >> 12`: an estimate of the digit count, at most one too small. */
  function Estimate(n: nat): nat {
    BitLength(OrOne(n)) * 1233 / 4096
  }

  /** `count_digits` by leading zeros, for 64-bit and for 32-bit numbers (format.h:769-774, 899-902). */
  function CountDigits(n: nat): int
    requires Estimate(n) < 20
  {
    var t := Estimate(n);
    t - (if n < ZERO_OR_POWERS_OF_10[t] then 1 else 0) + 1
  }

  lemma PowersOf2()
    ensures Pow2(3) == 8 && Pow2(6) == 64 && Pow2(9) == 512 && Pow2(13) == 8192 && Pow2(16) == 65536
    ensures Pow2(19) == 524288 && Pow2(23) == 8388608 && Pow2(26) == 67108864 && Pow2(29) == 536870912
    ensures Pow2(33) == 8589934592 && Pow2(36) == 68719476736 && Pow2(39) == 549755813888
    ensures Pow2(43) == 8796093022208 && Pow2(46) == 70368744177664 && Pow2(49) == 562949953421312
    ensures Pow2(53) == 9007199254740992 && Pow2(56) == 72057594037927936 && Pow2(59) == 576460752303423488
    ensures Pow2(63) == 9223372036854775808 && Pow2(64) == 18446744073709551616
  {
    assert Pow2(3) == 8;
    assert Pow2(6) == 64;
    assert Pow2(9) == 512;
    assert Pow2(11) == 2048;
    assert Pow2(13) == 8192;
    assert Pow2(16) == 65536;
    assert Pow2(19) == 524288;
    assert Pow2(21) == 2097152;
    assert Pow2(23) == 8388608;
    assert Pow2(26) == 67108864;
    assert Pow2(29) == 536870912;
    assert Pow2(31) == 2147483648;
    assert Pow2(33) == 8589934592;
    assert Pow2(36) == 68719476736;
    assert Pow2(39) == 549755813888;
    assert Pow2(41) == 2199023255552;
    assert Pow2(43) == 8796093022208;
    assert Pow2(46) == 70368744177664;
    assert Pow2(49) == 562949953421312;
    assert Pow2(51) == 2251799813685248;
    assert Pow2(53) == 9007199254740992;
    assert Pow2(56) == 72057594037927936;
    assert Pow2(59) == 576460752303423488;
    assert Pow2(61) == 2305843009213693952;
    assert Pow2(63) == 9223372036854775808;
  }

  lemma PowersOf10(t: nat)
    requires t < 20
    ensures Pow10(t) == if t == 0 then 1 else ZERO_OR_POWERS_OF_10[t]
  {
    if t != 0 {
      PowersOf10(t - 1);
    }
  }

  lemma Between(l: nat, a: nat, b: nat, t: nat)
    requires a < l <= b && t < 20 && t == l * 1233 / 4096
    requires (t == 0 || Pow10(t - 1) <= Pow2(a)) && Pow2(b) <= Pow10(t + 1)
    ensures l * 1233 / 4096 < 20 && (t == 0 || Pow10(t - 1) <= Pow2(l - 1)) && Pow2(l) <= Pow10(t + 1)
  {
    Pow2Grows(a, l - 1);
    Pow2Grows(l, b);
  }

  lemma NoBits()
    ensures Pow2(0) == 1
  {
  }

  lemma AllPowersOf10()
    ensures Pow10(0) == 1 && Pow10(20) == 100000000000000000000
    ensures forall t | 1 <= t < 20 :: Pow10(t) == ZERO_OR_POWERS_OF_10[t]
  {
    forall t | 1 <= t < 20 ensures Pow10(t) == ZERO_OR_POWERS_OF_10[t] {
      PowersOf10(t);
    }
    assert Pow10(20) == 10 * Pow10(19);
  }

  lemma CloseBelow34(l: nat)
    requires 1 <= l <= 33
    ensures var t := l * 1233 / 4096;
            t < 20 && (t == 0 || Pow10(t - 1) <= Pow2(l - 1)) && Pow2(l) <= Pow10(t + 1)
  {
    hide Pow2, Pow10;
    PowersOf2();
    AllPowersOf10();
    NoBits();
    if l <= 3 { Between(l, 0, 3, 0); }
    else if l <= 6 { Between(l, 3, 6, 1); }
    else if l <= 9 { Between(l, 6, 9, 2); }
    else if l <= 13 { Between(l, 9, 13, 3); }
    else if l <= 16 { Between(l, 13, 16, 4); }
    else if l <= 19 { Between(l, 16, 19, 5); }
    else if l <= 23 { Between(l, 19, 23, 6); }
    else if l <= 26 { Between(l, 23, 26, 7); }
    else if l <= 29 { Between(l, 26, 29, 8); }
    else { Between(l, 29, 33, 9); }
  }

  lemma CloseAbove33(l: nat)
    requires 33 < l <= 64
    ensures var t := l * 1233 / 4096;
            t < 20 && (t == 0 || Pow10(t - 1) <= Pow2(l - 1)) && Pow2(l) <= Pow10(t + 1)
  {
    hide Pow2, Pow10;
    PowersOf2();
    AllPowersOf10();
    NoBits();
    if l <= 36 { Between(l, 33, 36, 10); }
    else if l <= 39 { Between(l, 36, 39, 11); }
    else if l <= 43 { Between(l, 39, 43, 12); }
    else if l <= 46 { Between(l, 43, 46, 13); }
    else if l <= 49 { Between(l, 46, 49, 14); }
    else if l <= 53 { Between(l, 49, 53, 15); }
    else if l <= 56 { Between(l, 53, 56, 16); }
    else if l <= 59 { Between(l, 56, 59, 17); }
    else if l <= 63 { Between(l, 59, 63, 18); }
    else { Between(l, 63, 64, 19); }
  }

  /** 1233/4096 is close enough to log 2 that the estimate is off by at most one for every bit length up to 64. */
  lemma EstimateIsClose(l: nat)
    requires 1 <= l <= 64
    ensures var t := l * 1233 / 4096;
            t < 20 && (t == 0 || Pow10(t - 1) <= Pow2(l - 1)) && Pow2(l) <= Pow10(t + 1)
  {
    if l <= 33 { CloseBelow34(l); } else { CloseAbove33(l); }
  }

  lemma CloseEstimateCounts(n: nat, t: nat)
    requires t < 20 && n < Pow10(t + 1) && (t == 0 || Pow10(t - 1) <= n)
    ensures t - (if n < ZERO_OR_POWERS_OF_10[t] then 1 else 0) + 1 == |Digits(n)|
  {
    hide Digits, Pow10;
    PowersOf10(t);
    DigitCount(n, t);
    DigitCount(n, t + 1);
  }

  /** The number itself lies where the estimate of `n | 1` says. */
  lemma OddIsAsLong(n: nat, t: nat)
    requires t >= 1 && Pow10(t - 1) <= OrOne(n) && n > 0
    ensures Pow10(t - 1) <= n
  {
    if t >= 2 {
      assert Pow10(t - 1) == 10 * Pow10(t - 2);
    }
  }

  lemma WordLength(m: nat)
    requires 0 < m < 0x1_0000_0000_0000_0000
    ensures BitLength(m) <= 64
  {
    BitLengthBounds(m);
    PowersOf2();
    if BitLength(m) > 64 {
      Pow2Grows(64, BitLength(m) - 1);
    }
  }

  lemma HalfWordLength(m: nat)
    requires 0 < m < 0x1_0000_0000
    ensures BitLength(m) <= 32
  {
    hide BitLength;
    BitLengthBounds(m);
    PowersOf2();
    assert Pow2(33) == 2 * Pow2(32);
    if BitLength(m) > 32 {
      Pow2Grows(32, BitLength(m) - 1);
    }
  }

  /**
  Counting by leading zeros is right for every 64-bit number, and so for every 32-bit one; the powers of ten it looks up
  are in the table of twenty, and for a 32-bit number in the table of ten.
  */
  lemma CountDigitsIsRight(n: nat)
    requires n < 0x1_0000_0000_0000_0000
    ensures Estimate(n) < 20 && CountDigits(n) == |Digits(n)|
    ensures n < 0x1_0000_0000 ==> Estimate(n) < 10
  {
    hide Digits, Pow2, Pow10, BitLength;
    var m, t := OrOne(n), Estimate(n);
    BitLengthBounds(m);
    WordLength(m);
    EstimateIsClose(BitLength(m));
    if t >= 1 {
      assert n > 0 by { ZeroIsShort(); }
      OddIsAsLong(n, t);
    }
    CloseEstimateCounts(n, t);
    if n < 0x1_0000_0000 {
      HalfWordLength(m);
    }
  }

  lemma ZeroIsShort()
    ensures Estimate(0) == 0
  {
    assert BitLength(1) == 1;
  }

  /** The fallback loop (format.h:777-790). */
  method CountDigitsFallback(n0: nat) returns (count: nat)
    ensures count == |Digits(n0)|
  {
    var n := n0;
    count := 1;
    while true
      invariant count >= 1 && |Digits(n0)| == |Digits(n)| + count - 1
      decreases n
    {
      if n < 10 { return; }
      if n < 100 { FewDigits(n); return count + 1; }
      if n < 1000 { FewDigits(n); return count + 2; }
      if n < 10000 { FewDigits(n); return count + 3; }
      FourDigitsFewer(n);
      n := n / 10000;
      count := count + 4;
    }
  }

  lemma FewDigits(n: nat)
    requires 10 <= n < 10000
    ensures |Digits(n)| == if n < 100 then 2 else if n < 1000 then 3 else 4
  {
    assert |Digits(n)| == |Digits(n / 10)| + 1;
    if n >= 100 {
      assert |Digits(n / 10)| == |Digits(n / 10 / 10)| + 1;
    }
  }

  lemma FourDigitsFewer(n: nat)
    requires n >= 10000
    ensures |Digits(n)| == |Digits(n / 10000)| + 4
  {
    var a, b, c := n / 10, n / 100, n / 1000;
    assert a / 10 == b && b / 10 == c && c / 10 == n / 10000;
    assert |Digits(n)| == |Digits(a)| + 1 && |Digits(a)| == |Digits(b)| + 1;
    assert |Digits(b)| == |Digits(c)| + 1 && |Digits(c)| == |Digits(n / 10000)| + 1;
  }

  // ---- format_decimal ----

  /** The functor called after each digit: it does nothing, or puts `sep` in front of every third digit. */
  datatype ThousandsSep = NoSep | AddSep(sep: seq<char>)

  ghost function SepAfter(s: ThousandsSep, digitIndex: nat): seq<char> {
    if s.AddSep? && digitIndex % 3 == 0 then s.sep else []
  }

  /** The text of `n` when `k` less significant digits stand to its right. */
  ghost function Text(n: nat, k: nat, s: ThousandsSep): (r: seq<char>)
    ensures r != []
    decreases n
  {
    if n < 10 then [DigitChar(n)] else Text(n / 10, k + 1, s) + SepAfter(s, k + 1) + [DigitChar(n % 10)]
  }

  /** A number in groups of three digits, the first group without leading zeros. */
  ghost function Grouped(n: nat, sep: seq<char>): seq<char> {
    if n < 1000 then Digits(n) else Grouped(n / 1000, sep) + sep + ThreeDigits(n % 1000)
  }

  ghost function ThreeDigits(n: nat): seq<char>
    requires n < 1000
  {
    [DigitChar(n / 100), DigitChar(n / 10 % 10), DigitChar(n % 10)]
  }

  lemma {:induction false} TextWithoutSep(n: nat, k: nat)
    ensures Text(n, k, NoSep) == Digits(n)
    decreases n
  {
    if n >= 10 {
      TextWithoutSep(n / 10, k + 1);
      assert SepAfter(NoSep, k + 1) == [];
    }
  }

  lemma {:induction false} TextIsGrouped(n: nat, k: nat, sep: seq<char>)
    requires k % 3 == 0
    ensures Text(n, k, AddSep(sep)) == Grouped(n, sep)
    decreases n
  {
    hide Text, ThreeDigits;
    if n < 1000 {
      ShortText(n, k, sep);
    } else {
      TextOfThree(n, k, AddSep(sep));
      TextIsGrouped(n / 1000, k + 3, sep);
    }
  }

  lemma TextOfThree(n: nat, k: nat, s: ThousandsSep)
    requires n >= 1000 && k % 3 == 0 && s.AddSep?
    ensures Text(n, k, s) == Text(n / 1000, k + 3, s) + s.sep + ThreeDigits(n % 1000)
  {
    hide Text, SepAfter, ThreeDigits, DigitChar;
    DigitsOfThree(n);
    TextUnfolds(n, k, s);
    TextUnfolds(n / 10, k + 1, s);
    TextUnfolds(n / 100, k + 2, s);
    SepEveryThird(s, k);
    JoinThree(Text(n / 1000, k + 3, s) + s.sep, DigitChar(n / 100 % 10), DigitChar(n / 10 % 10), DigitChar(n % 10));
  }

  lemma DigitsOfThree(n: nat)
    requires n >= 1000
    ensures n / 10 / 10 == n / 100 && n / 100 / 10 == n / 1000
    ensures ThreeDigits(n % 1000) == [DigitChar(n / 100 % 10), DigitChar(n / 10 % 10), DigitChar(n % 10)]
  {
    LastThree(n);
  }

  lemma LastThree(n: nat)
    ensures n % 1000 / 100 == n / 100 % 10 && n % 1000 / 10 % 10 == n / 10 % 10 && n % 1000 % 10 == n % 10
  {
    var q, r := n / 1000, n % 1000;
    ThreeDigitNumber(r);
    var a, b, c := r / 100, r / 10 % 10, r % 10;
    DivModUnique(n, 100, 10 * q + a, r % 100);
    DivModUnique(n, 10, 100 * q + r / 10, c);
    DivModUnique(n / 100, 10, q, a);
    DivModUnique(n / 10, 10, 10 * q + a, b);
  }

  lemma ThreeDigitNumber(r: nat)
    requires r < 1000
    ensures r / 100 < 10 && r / 10 == 10 * (r / 100) + r / 10 % 10
    ensures r == 100 * (r / 100) + r % 100 && r == 10 * (r / 10) + r % 10
  {
  }

  lemma TextUnfolds(n: nat, k: nat, s: ThousandsSep)
    requires n >= 10
    ensures Text(n, k, s) == Text(n / 10, k + 1, s) + SepAfter(s, k + 1) + [DigitChar(n % 10)]
  {
  }

  lemma SepEveryThird(s: ThousandsSep, k: nat)
    requires s.AddSep? && k % 3 == 0
    ensures SepAfter(s, k + 1) == SepAfter(s, k + 2) == [] && SepAfter(s, k + 3) == s.sep
  {
  }

  lemma JoinThree<T>(a: seq<T>, x: T, y: T, z: T)
    ensures a + [x] + [] + [y] + [] + [z] == a + [x, y, z]
  {
  }

  lemma ShortText(n: nat, k: nat, sep: seq<char>)
    requires k % 3 == 0 && n < 1000
    ensures Text(n, k, AddSep(sep)) == Digits(n)
  {
    var s := AddSep(sep);
    if n >= 10 {
      assert Text(n, k, s) == Text(n / 10, k + 1, s) + [] + [DigitChar(n % 10)];
      if n >= 100 {
        assert Text(n / 10, k + 1, s) == Text(n / 10 / 10, k + 2, s) + [] + [DigitChar(n / 10 % 10)];
        assert Digits(n / 10) == Digits(n / 10 / 10) + [DigitChar(n / 10 % 10)];
      }
    }
  }

  /** The size that `on_num` reserves: a separator for every three digits before the last (format.h:2485-2487). */
  lemma {:induction false} GroupedLength(n: nat, sep: seq<char>)
    ensures var d := |Digits(n)|; |Grouped(n, sep)| == d + |sep| * ((d - 1) / 3)
  {
    hide Digits;
    DigitsThere(n);
    if n < 1000 {
      UpToThreeDigits(n);
      NoGroupBefore(|Digits(n)|, |sep|);
    } else {
      GroupedLength(n / 1000, sep);
      ThreeDigitsFewer(n);
      OneMoreGroup(|Digits(n / 1000)|, |sep|);
    }
  }

  lemma UpToThreeDigits(n: nat)
    requires n < 1000
    ensures |Digits(n)| <= 3
  {
    hide Digits;
    var d := |Digits(n)|;
    DigitCount(n, d);
    if d > 3 {
      assert Pow10(3) == 1000;
      Pow10Grows(3, d - 1);
    }
  }

  lemma NoGroupBefore(d: nat, k: nat)
    requires 1 <= d <= 3
    ensures k * ((d - 1) / 3) == 0
  {
    assert (d - 1) / 3 == 0;
  }

  lemma OneMoreGroup(e: nat, k: nat)
    requires e >= 1
    ensures k * ((e + 3 - 1) / 3) == k * ((e - 1) / 3) + k
  {
    var q := (e - 1) / 3;
    assert (e + 3 - 1) / 3 == q + 1;
    assert k * (q + 1) == k * q + k;
  }

  lemma ThreeDigitsFewer(n: nat)
    requires n >= 1000
    ensures |Digits(n)| == |Digits(n / 1000)| + 3
  {
    var a, b := n / 10, n / 100;
    assert a / 10 == b && b / 10 == n / 1000;
    assert |Digits(n)| == |Digits(a)| + 1 && |Digits(a)| == |Digits(b)| + 1;
    assert |Digits(b)| == |Digits(n / 1000)| + 1;
  }

  /** Writes `text` so that it ends at `at`, and moves in front of it. */
  method PutBefore(buffer: array<char>, at: nat, text: seq<char>) returns (p: nat)
    requires |text| <= at <= buffer.Length
    modifies buffer
    ensures p == at - |text| && buffer[..] == Overwritten(old(buffer[..]), p, text)
  {
    p := at - |text|;
    forall i | 0 <= i < |text| {
      buffer[p + i] := text[i];
    }
    assert buffer[..] == Overwritten(old(buffer[..]), p, text) by {
      assert forall i | 0 <= i < buffer.Length ::
          buffer[i] == if p <= i < at then text[i - p] else old(buffer[i]);
    }
  }

  /** Writes one digit and then, as the functor says, the separator (format.h:930-936). */
  method PutDigit(buffer: array<char>, at: nat, c: char, s: ThousandsSep, digitIndex0: nat,
                  ghost before: seq<char>, ghost tail: seq<char>)
    returns (p: nat, digitIndex: nat)
    requires |SepAfter(s, digitIndex0 + 1)| + 1 <= at && at + |tail| <= |before|
    requires buffer[..] == Overwritten(before, at, tail)
    modifies buffer
    ensures digitIndex == digitIndex0 + 1 && p == at - 1 - |SepAfter(s, digitIndex)|
    ensures buffer[..] == Overwritten(before, p, SepAfter(s, digitIndex) + [c] + tail)
  {
    hide Overwritten;
    OverwrittenBefore(before, at, tail, [c]);
    digitIndex := digitIndex0 + 1;
    p := PutBefore(buffer, at, [c]);
    if s.AddSep? && digitIndex % 3 == 0 {
      OverwrittenBefore(before, p, [c] + tail, s.sep);
      assert s.sep + ([c] + tail) == s.sep + [c] + tail;
      p := PutBefore(buffer, p, s.sep);
    } else {
      assert [] + [c] + tail == [c] + tail;
    }
  }

  /**
  `format_decimal` (format.h:957-983): the text ends at `start + numDigits`. When `numDigits` is its length, as the
  callers compute it, the text fills the buffer exactly from `start`.
  */
  method FormatDecimal(buffer: array<char>, start: nat, value0: nat, numDigits: nat, s: ThousandsSep)
    returns (end: nat)
    requires |Text(value0, 0, s)| <= numDigits && start + numDigits <= buffer.Length
    modifies buffer
    ensures end == start + numDigits
    ensures buffer[..] == Overwritten(old(buffer[..]), end - |Text(value0, 0, s)|, Text(value0, 0, s))
  {
    hide Text, SepAfter, DigitTable, Overwritten;
    end := start + numDigits;
    var p: nat, value: nat, digitIndex: nat := end, value0, 0;
    ghost var before, tail := buffer[..], [];
    NothingOverwritten(before, end);
    assert Text(value0, 0, s) + tail == Text(value0, 0, s);
    while value >= 100
      invariant p + |tail| == end && Text(value, digitIndex, s) + tail == Text(value0, 0, s)
      invariant buffer[..] == Overwritten(before, p, tail)
    {
      TailGrows(value, digitIndex, s, tail);
      TailGrows(value / 10, digitIndex + 1, s, SepAfter(s, digitIndex + 1) + [DigitChar(value % 10)] + tail);
      var index := value % 100;
      TableHoldsPairs(index);
      PairOfDigits(value);
      value := value / 100;
      p, digitIndex := PutDigit(buffer, p, DigitTable(2 * index + 1), s, digitIndex, before, tail);
      tail := SepAfter(s, digitIndex) + [DigitTable(2 * index + 1)] + tail;
      p, digitIndex := PutDigit(buffer, p, DigitTable(2 * index), s, digitIndex, before, tail);
      tail := SepAfter(s, digitIndex) + [DigitTable(2 * index)] + tail;
    }
    if value < 10 {
      OneDigitText(value, digitIndex, s);
      OverwrittenBefore(before, p, tail, [DigitChar(value)]);
      p := PutBefore(buffer, p, [DigitChar(value)]);
      return;
    }
    TailGrows(value, digitIndex, s, tail);
    OneDigitText(value / 10, digitIndex + 1, s);
    TableHoldsPairs(value);
    p, digitIndex := PutDigit(buffer, p, DigitTable(2 * value + 1), s, digitIndex, before, tail);
    tail := SepAfter(s, digitIndex) + [DigitTable(2 * value + 1)] + tail;
    OverwrittenBefore(before, p, tail, [DigitTable(2 * value)]);
    p := PutBefore(buffer, p, [DigitTable(2 * value)]);
  }

  /**
  The number type `n` (format.h:2471-2489): the size counted in advance, a separator character for every three digits before
  the last, is what the grouped digits fill from start to end.
  */
  method OnNum(absValue: nat, sep: char) returns (buffer: array<char>)
    requires absValue < 0x1_0000_0000_0000_0000
    ensures fresh(buffer) && buffer[..] == Grouped(absValue, [sep])
  {
    hide Text, Digits, Grouped, Overwritten;
    CountDigitsIsRight(absValue);
    GroupedLength(absValue, [sep]);
    TextIsGrouped(absValue, 0, [sep]);
    DigitsThere(absValue);
    var numDigits: nat := CountDigits(absValue);
    var size := numDigits + (numDigits - 1) / 3;
    buffer := new char[size];
    ghost var before := buffer[..];
    var end := FormatDecimal(buffer, 0, absValue, size, AddSep([sep]));
    WholeOverwritten(before, Grouped(absValue, [sep]));
  }

  lemma DigitsThere(n: nat)
    ensures |Digits(n)| >= 1
  {
  }

  lemma WholeOverwritten(before: seq<char>, text: seq<char>)
    requires |before| == |text|
    ensures Overwritten(before, 0, text) == text
  {
  }

  lemma OneDigitText(n: nat, k: nat, s: ThousandsSep)
    requires n < 10
    ensures Text(n, k, s) == [DigitChar(n)]
  {
  }

  lemma TailGrows(n: nat, k: nat, s: ThousandsSep, tail: seq<char>)
    requires n >= 10
    ensures Text(n, k, s) + tail == Text(n / 10, k + 1, s) + (SepAfter(s, k + 1) + [DigitChar(n % 10)] + tail)
  {
    hide SepAfter;
  }

  lemma PairOfDigits(n: nat)
    ensures n % 100 / 10 == n / 10 % 10 && n % 100 % 10 == n % 10 && n / 10 / 10 == n / 100
  {
    var q, r := n / 100, n % 100;
    assert r == 10 * (r / 10) + r % 10 && n / 10 == 10 * q + r / 10 && n == 10 * (10 * q + r / 10) + r % 10;
  }

  // ---- parse_nonnegative_int ----

  datatype ParseResult = Parsed(value: nat) | NumberTooBig

  const MAX_INT := 0x7fff_ffff

  /** How many characters from `begin` on are digits. */
  ghost function DigitRun(s: seq<char>, begin: nat): (k: nat)
    requires begin <= |s|
    ensures begin + k <= |s| && AllDigits(s[begin..begin + k])
    ensures begin + k == |s| || !IsDigit(s[begin + k])
    decreases |s| - begin
  {
    if begin < |s| && IsDigit(s[begin]) then
      var k := 1 + DigitRun(s, begin + 1);
      assert s[begin..begin + k] == [s[begin]] + s[begin + 1..begin + k];
      k
    else 0
  }

  lemma {:induction false} ValueGrows(s: seq<char>, i: nat)
    requires AllDigits(s) && i <= |s|
    ensures Value(s[..i]) <= Value(s) && (i < |s| ==> 10 * Value(s[..i]) <= Value(s))
    decreases |s|
  {
    if i < |s| {
      var front := s[..|s| - 1];
      ValueGrows(front, i);
      assert front[..i] == s[..i];
    } else {
      assert s[..i] == s;
    }
  }

  /**
  `parse_nonnegative_int` (format.h:1453-1477). A leading zero is taken alone. Otherwise the run of digits is read; it
  is refused exactly when it denotes more than the largest `int`, and the 32-bit sum never wraps around.
  */
  method ParseNonnegativeInt(s: seq<char>, begin0: nat) returns (r: ParseResult, begin: nat)
    requires begin0 < |s| && IsDigit(s[begin0])
    ensures s[begin0] == '0' ==> r == Parsed(0) && begin == begin0 + 1
    ensures s[begin0] != '0' ==>
              var run := s[begin0..begin0 + DigitRun(s, begin0)];
              if Value(run) <= MAX_INT then r == Parsed(Value(run)) && begin == begin0 + |run| else r == NumberTooBig
  {
    begin := begin0;
    if s[begin] == '0' {
      return Parsed(0), begin + 1;
    }
    ghost var k := DigitRun(s, begin0);
    ghost var run := s[begin0..begin0 + k];
    var value: uint32 := 0;
    var maxInt: uint32 := 0x7fff_ffff;
    var big: uint32 := maxInt / 10;
    assert run[..0] == [];
    while true
      invariant begin0 <= begin < begin0 + k && value as nat == Value(run[..begin - begin0])
      decreases |s| - begin
    {
      ghost var i := begin - begin0;
      ValueGrows(run, i);
      if value > big {
        value := maxInt + 1;
        break;
      }
      assert s[begin] == run[i] && run[..i + 1][..i] == run[..i];
      value := value * 10 + DigitValue(s[begin]) as uint32;
      begin := begin + 1;
      if !(begin < |s| && IsDigit(s[begin])) {
        assert run[..k] == run;
        break;
      }
    }
    r := if value > maxInt then NumberTooBig else Parsed(value as nat);
  }

  /** Reading back what was written: a number comes back exactly when it is an `int`. */
  lemma ParseOfDigits(n: nat, rest: seq<char>)
    requires rest == [] || !IsDigit(rest[0])
    ensures var s := Digits(n) + rest;
            && IsDigit(s[0]) && (s[0] == '0' <==> n == 0)
            && s[..DigitRun(s, 0)] == Digits(n) && Value(s[..DigitRun(s, 0)]) == n
  {
    var s := Digits(n) + rest;
    DigitsDenote(n);
    RunOfDigits(s, 0, |Digits(n)|);
    assert s[..|Digits(n)|] == Digits(n);
  }

  lemma {:induction false} RunOfDigits(s: seq<char>, i: nat, n: nat)
    requires i <= n <= |s| && (forall j | i <= j < n :: IsDigit(s[j])) && (n == |s| || !IsDigit(s[n]))
    ensures DigitRun(s, i) == n - i
    decreases n - i
  {
    if i < n {
      RunOfDigits(s, i + 1, n);
    }
  }

  /** Writing a number and reading it back: the number itself, or the error exactly above the largest `int`. */
  method FormatThenParse(buffer: array<char>, n: nat) returns (r: ParseResult)
    requires |Digits(n)| == buffer.Length
    modifies buffer
    ensures r == if n <= MAX_INT then Parsed(n) else NumberTooBig
  {
    TextWithoutSep(n, 0);
    var end := FormatDecimal(buffer, 0, n, buffer.Length, NoSep);
    assert buffer[..] == Digits(n);
    ParseOfDigits(n, []);
    assert Digits(n) + [] == Digits(n);
    var stop;
    r, stop := ParseNonnegativeInt(buffer[..], 0);
  }
}
