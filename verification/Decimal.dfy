/** Decimal notation: the digits of a number, the number that digits denote, and how many digits there are. */
module Decimal {

  function Pow10(k: nat): (r: nat)
    ensures r > 0
  {
    if k == 0 then 1 else 10 * Pow10(k - 1)
  }

  function DigitChar(d: nat): char
    requires d < 10
  {
    (48 + d) as char
  }

  predicate IsDigit(c: char) {
    '0' <= c <= '9'
  }

  function DigitValue(c: char): (r: nat)
    requires IsDigit(c)
    ensures r < 10
  {
    c as int - 48
  }

  function Digits(n: nat): (r: seq<char>)
    ensures r != []
  {
    if n < 10 then [DigitChar(n)] else Digits(n / 10) + [DigitChar(n % 10)]
  }

  predicate AllDigits(s: seq<char>) {
    forall i | 0 <= i < |s| :: IsDigit(s[i])
  }

  function Value(s: seq<char>): nat
    requires AllDigits(s)
  {
    if s == [] then 0 else 10 * Value(s[..|s| - 1]) + DigitValue(s[|s| - 1])
  }

  /** Digits denote the number they are the digits of, and only zero starts with the digit 0. */
  lemma {:induction false} DigitsDenote(n: nat)
    ensures AllDigits(Digits(n)) && Value(Digits(n)) == n
    ensures Digits(n)[0] == '0' <==> n == 0
  {
    if n >= 10 {
      DigitsDenote(n / 10);
      assert Digits(n)[..|Digits(n)| - 1] == Digits(n / 10);
    } else {
      assert Digits(n)[..0] == [];
    }
  }

  lemma DigitsInjective(m: nat, n: nat)
    requires Digits(m) == Digits(n)
    ensures m == n
  {
    DigitsDenote(m);
    DigitsDenote(n);
  }

  /** A number has `k` digits exactly when it lies between the powers of ten; zero has one digit. */
  lemma {:induction false} DigitCount(n: nat, k: nat)
    ensures |Digits(n)| == k <==> k >= 1 && n < Pow10(k) && (k == 1 || Pow10(k - 1) <= n)
    decreases n
  {
    if n < 10 {
      if k >= 2 {
        assert Pow10(k - 1) == 10 * Pow10(k - 2);
      }
    } else {
      if k >= 1 {
        DigitCount(n / 10, k - 1);
      }
      if k >= 2 {
        assert Pow10(k - 1) == 10 * Pow10(k - 2) && Pow10(k) == 10 * Pow10(k - 1);
      }
    }
  }

  lemma {:induction false} Pow10Sum(j: nat, k: nat)
    ensures Pow10(j + k) == Pow10(j) * Pow10(k)
  {
    if j != 0 {
      Pow10Sum(j - 1, k);
      assert Pow10(j + k) == 10 * (Pow10(j - 1) * Pow10(k)) == Pow10(j) * Pow10(k);
    }
  }

  lemma {:induction false} Pow10Grows(j: nat, k: nat)
    requires j <= k
    ensures Pow10(j) <= Pow10(k)
  {
    if j < k {
      Pow10Grows(j, k - 1);
    }
  }

  // ---- the two-digit table `data::DIGITS` (src/include/spdlog/fmt/bundled/format-inl.h:262-267) ----

  const ROW0 := "0001020304050607080910111213141516171819"
  const ROW1 := "2021222324252627282930313233343536373839"
  const ROW2 := "4041424344454647484950515253545556575859"
  const ROW3 := "6061626364656667686970717273747576777879"
  const ROW4 := "8081828384858687888990919293949596979899"

  function DigitTable(i: nat): char
    requires i < 200
  {
    if i < 40 then ROW0[i] else if i < 80 then ROW1[i - 40] else if i < 120 then ROW2[i - 80]
    else if i < 160 then ROW3[i - 120] else ROW4[i - 160]
  }

  ghost predicate PairOk(i: nat) {
    i < 100 && DigitTable(2 * i) == DigitChar(i / 10) && DigitTable(2 * i + 1) == DigitChar(i % 10)
  }

  lemma Pairs0(i: nat)
    requires 0 <= i < 10
    ensures PairOk(i)
  {
  }

  lemma Pairs1(i: nat)
    requires 10 <= i < 20
    ensures PairOk(i)
  {
  }

  lemma Pairs2(i: nat)
    requires 20 <= i < 30
    ensures PairOk(i)
  {
  }

  lemma Pairs3(i: nat)
    requires 30 <= i < 40
    ensures PairOk(i)
  {
  }

  lemma Pairs4(i: nat)
    requires 40 <= i < 50
    ensures PairOk(i)
  {
  }

  lemma Pairs5(i: nat)
    requires 50 <= i < 60
    ensures PairOk(i)
  {
  }

  lemma Pairs6(i: nat)
    requires 60 <= i < 70
    ensures PairOk(i)
  {
  }

  lemma Pairs7(i: nat)
    requires 70 <= i < 80
    ensures PairOk(i)
  {
  }

  lemma Pairs8(i: nat)
    requires 80 <= i < 90
    ensures PairOk(i)
  {
  }

  lemma Pairs9(i: nat)
    requires 90 <= i < 100
    ensures PairOk(i)
  {
  }

  /** The table holds the two digits of every number below 100. */
  lemma TableHoldsPairs(i: nat)
    requires i < 100
    ensures PairOk(i)
  {
    hide PairOk;
    if i < 10 { Pairs0(i); }
    else if i < 20 { Pairs1(i); }
    else if i < 30 { Pairs2(i); }
    else if i < 40 { Pairs3(i); }
    else if i < 50 { Pairs4(i); }
    else if i < 60 { Pairs5(i); }
    else if i < 70 { Pairs6(i); }
    else if i < 80 { Pairs7(i); }
    else if i < 90 { Pairs8(i); }
    else { Pairs9(i); }
  }

  // ---- writing into a buffer ----

  /** `before` with `text` written over it from position `base` on. */
  ghost function Overwritten(before: seq<char>, base: nat, text: seq<char>): (r: seq<char>)
    requires base + |text| <= |before|
    ensures |r| == |before|
  {
    before[..base] + text + before[base + |text|..]
  }

  lemma OverwrittenTwice(before: seq<char>, base: nat, text: seq<char>, more: seq<char>)
    requires base + |text| + |more| <= |before|
    ensures Overwritten(Overwritten(before, base, text), base + |text|, more) == Overwritten(before, base, text + more)
  {
  }

  lemma OverwrittenBefore(before: seq<char>, p: nat, tail: seq<char>, more: seq<char>)
    requires |more| <= p && p + |tail| <= |before|
    ensures Overwritten(Overwritten(before, p, tail), p - |more|, more) == Overwritten(before, p - |more|, more + tail)
  {
  }

  lemma NothingOverwritten(before: seq<char>, p: nat)
    requires p <= |before|
    ensures Overwritten(before, p, []) == before
  {
  }
}
