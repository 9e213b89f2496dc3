/**
What the checksum means: it is the remainder of polynomial division by the generator, and it tells apart any two
messages of one length that differ in a burst of at most 32 bits.
*/
module CrcTheorems {
  import opened Crc

  // ---- coefficient strings, highest degree first ----

  ghost function XorBits(a: seq<bool>, b: seq<bool>): (r: seq<bool>)
    requires |a| == |b|
    ensures |r| == |a| && forall i | 0 <= i < |a| :: r[i] == (a[i] != b[i])
  {
    seq(|a|, i requires 0 <= i < |a| => a[i] != b[i])
  }

  ghost function Zeros(n: nat): (r: seq<bool>)
    ensures |r| == n && forall i | 0 <= i < n :: !r[i]
  {
    seq(n, _ => false)
  }

  /** The top `n` bits of a register. */
  ghost function RegBits(c: bv32, n: nat): (r: seq<bool>)
    ensures |r| == n
    decreases n
  {
    if n == 0 then [] else [Top(c)] + RegBits(Shl(c), n - 1)
  }

  /** The 33 coefficients of the generator. */
  ghost function Generator(): (r: seq<bool>)
    ensures |r| == 33
  {
    [true] + RegBits(POLYNOMIAL, 32)
  }

  /** The product of a polynomial and the generator: a sum of shifted generators. */
  ghost function TimesGenerator(q: seq<bool>): (r: seq<bool>)
    ensures |r| == |q| + 32
  {
    if q == [] then Zeros(32)
    else XorBits(if q[0] then Generator() + Zeros(|q| - 1) else Zeros(|q| + 32), [false] + TimesGenerator(q[1..]))
  }

  // ---- long division ----

  /** Brings down the next coefficient and subtracts the generator if the leading one is set. */
  ghost function BringDown(c: bv32, b: bool): bv32 {
    Xor(Step(c), Low(b))
  }

  ghost function Remainder(c: bv32, bits: seq<bool>): bv32
    decreases bits
  {
    if bits == [] then c else Remainder(BringDown(c, bits[0]), bits[1..])
  }

  ghost function Quotient(c: bv32, bits: seq<bool>): (r: seq<bool>)
    ensures |r| == |bits|
    decreases bits
  {
    if bits == [] then [] else [Top(c)] + Quotient(BringDown(c, bits[0]), bits[1..])
  }

  lemma {:induction false} RegBitsXor(a: bv32, b: bv32, n: nat)
    ensures RegBits(Xor(a, b), n) == XorBits(RegBits(a, n), RegBits(b, n))
    decreases n
  {
    hide Top, Shl, Xor;
    if n != 0 {
      TopXor(a, b);
      ShlXor(a, b);
      RegBitsXor(Shl(a), Shl(b), n - 1);
    }
  }

  ghost function ShlN(c: bv32, n: nat): bv32
    decreases n
  {
    if n == 0 then c else ShlN(Shl(c), n - 1)
  }

  lemma {:induction false} RegBitsSnoc(c: bv32, n: nat)
    ensures RegBits(c, n + 1) == RegBits(c, n) + [Top(ShlN(c, n))]
    decreases n
  {
    hide Top, Shl;
    if n != 0 {
      RegBitsSnoc(Shl(c), n - 1);
    }
  }

  lemma ShlEight(c: bv32)
    ensures ShlN(c, 8) == Shl8(c)
  {
    assert ShlN(c, 8) == ShlN(Shl(Shl(Shl(Shl(c)))), 4);
  }

  lemma {:induction false} ShlNSum(c: bv32, m: nat, n: nat)
    ensures ShlN(c, m + n) == ShlN(ShlN(c, m), n)
    decreases m
  {
    hide Shl;
    if m != 0 {
      ShlNSum(Shl(c), m - 1, n);
    }
  }

  lemma AllBytesOut(c: bv32)
    ensures Shl8(Shl8(Shl8(Shl8(c)))) == 0
  {
  }

  lemma ShlOut(c: bv32)
    ensures ShlN(c, 32) == 0
  {
    hide Shl, Shl8;
    var c1 := Shl8(c);
    var c2 := Shl8(c1);
    ShlNSum(c, 8, 24);
    ShlNSum(c1, 8, 16);
    ShlNSum(c2, 8, 8);
    ShlEight(c);
    ShlEight(c1);
    ShlEight(c2);
    ShlEight(Shl8(c2));
    AllBytesOut(c);
  }

  lemma RegBitsOfShl(c: bv32)
    ensures RegBits(c, 32) == [Top(c)] + RegBits(Shl(c), 31)
    ensures RegBits(Shl(c), 32) == RegBits(Shl(c), 31) + [false]
  {
    RegBitsSnoc(Shl(c), 31);
    ShlOut(c);
    assert !Top(0);
  }

  lemma {:induction false} RegBitsOfZero(n: nat)
    ensures RegBits(0, n) == Zeros(n)
  {
    if n != 0 {
      assert Shl(0) == 0 && !Top(0);
      RegBitsOfZero(n - 1);
    }
  }

  /** Shifting up `k` places loses no set bit. */
  ghost predicate Fits(c: bv32, k: nat)
    decreases k
  {
    k == 0 || (!Top(c) && Fits(Shl(c), k - 1))
  }

  lemma {:induction false} FittingBits(c: bv32, k: nat, n: nat)
    requires Fits(c, k)
    ensures RegBits(c, k + n) == Zeros(k) + RegBits(ShlN(c, k), n)
    decreases k
  {
    hide Top, Shl;
    if k != 0 {
      FittingBits(Shl(c), k - 1, n);
    }
  }

  lemma ShiftedOne()
    ensures ShlN(1, 8) == 0x100 && ShlN(0x100, 8) == 0x1_0000 && ShlN(0x1_0000, 8) == 0x100_0000
    ensures ShlN(0x100_0000, 7) == 0x8000_0000 && ShlN(1, 31) == 0x8000_0000
  {
    ShlEight(1);
    ShlEight(0x100);
    ShlEight(0x1_0000);
    ShlNSum(0x100_0000, 4, 3);
    assert ShlN(0x100_0000, 4) == 0x1000_0000;
    ShlNSum(1, 8, 23);
    ShlNSum(0x100, 8, 15);
    ShlNSum(0x1_0000, 8, 7);
  }

  lemma FitsFour(c: bv32)
    requires c & 0xf000_0000 == 0
    ensures Fits(c, 4) && ShlN(c, 4) == c << 4
  {
  }

  lemma ZeroNibble(c: bv32, c': bv32, n: nat)
    requires c & 0xf000_0000 == 0 && c' == c << 4 && RegBits(c', n) == Zeros(n)
    ensures RegBits(c, n + 4) == Zeros(n + 4)
  {
    FitsFour(c);
    FittingBits(c, 4, n);
  }

  lemma RegBitsOfOne()
    ensures RegBits(1, 31) == Zeros(31)
  {
    hide RegBits, Fits;
    RegBitsOfTop();
    ZeroNibble(0x100_0000, 0x1000_0000, 3);
    ZeroNibble(0x10_0000, 0x100_0000, 7);
    ZeroNibble(0x1_0000, 0x10_0000, 11);
    ZeroNibble(0x1000, 0x1_0000, 15);
    ZeroNibble(0x100, 0x1000, 19);
    ZeroNibble(0x10, 0x100, 23);
    ZeroNibble(1, 0x10, 27);
  }

  lemma RegBitsOfTop()
    ensures RegBits(0x1000_0000, 3) == Zeros(3)
  {
    assert RegBits(0x1000_0000, 3) == [false] + RegBits(0x2000_0000, 2);
  }

  lemma RegBitsOfLow(b: bool)
    ensures RegBits(Low(b), 32) == Zeros(31) + [b]
  {
    if b {
      RegBitsOfOne();
      RegBitsSnoc(1, 31);
      ShiftedOne();
      assert Top(0x8000_0000);
    } else {
      RegBitsOfZero(32);
    }
  }

  /** One line of the long division: the leading coefficient is cancelled and the next one stands in the last place. */
  lemma BringDownLine(c: bv32, b: bool)
    ensures RegBits(c, 32) + [b] ==
            XorBits(if Top(c) then Generator() else Zeros(33), [false] + RegBits(BringDown(c, b), 32))
  {
    hide Top, Shl, Xor, RegBits;
    RegBitsOfShl(c);
    RegBitsOfLow(b);
    RegBitsXor(Step(c), Low(b), 32);
    if Top(c) {
      RegBitsXor(Shl(c), POLYNOMIAL, 32);
    }
  }

  /**
  Long division is correct: the dividend, made of the register and the bits that follow it, is the quotient times the
  generator plus the remainder.
  */
  lemma {:induction false} DivisionIsCorrect(c: bv32, bits: seq<bool>)
    ensures RegBits(c, 32) + bits ==
            XorBits(TimesGenerator(Quotient(c, bits)), Zeros(|bits|) + RegBits(Remainder(c, bits), 32))
    decreases bits
  {
    hide Top, Shl, Xor, RegBits, BringDown, Generator, TimesGenerator, XorBits, Zeros;
    if bits == [] {
      NoQuotient(c);
    } else {
      var b, rest := bits[0], bits[1..];
      var c' := BringDown(c, b);
      var t, z := TimesGenerator(Quotient(c', rest)), Zeros(|rest|) + RegBits(Remainder(c', rest), 32);
      BringDownLine(c, b);
      DivisionIsCorrect(c', rest);
      FirstBit(RegBits(c, 32), bits);
      LineAndRest(if Top(c) then Generator() else Zeros(33), RegBits(c', 32), rest, t, z);
      TimesUnfolds(Top(c), Quotient(c', rest));
      ZerosUnfold(|rest|, RegBits(Remainder(c', rest), 32));
    }
  }

  lemma FirstBit(reg: seq<bool>, bits: seq<bool>)
    requires bits != []
    ensures reg + bits == reg + [bits[0]] + bits[1..]
  {
  }

  lemma NoQuotient(c: bv32)
    ensures RegBits(c, 32) + [] == XorBits(TimesGenerator([]), Zeros(0) + RegBits(c, 32))
  {
  }

  lemma TimesUnfolds(t: bool, q: seq<bool>)
    ensures TimesGenerator([t] + q) ==
            XorBits((if t then Generator() else Zeros(33)) + Zeros(|q|), [false] + TimesGenerator(q))
  {
    assert Zeros(33) + Zeros(|q|) == Zeros(|q| + 33);
    assert ([t] + q)[1..] == q;
  }

  lemma ZerosUnfold(n: nat, s: seq<bool>)
    ensures [false] + (Zeros(n) + s) == Zeros(n + 1) + s
  {
  }

  lemma LineAndRest(g: seq<bool>, reg: seq<bool>, rest: seq<bool>, t: seq<bool>, z: seq<bool>)
    requires |g| == 33 && |reg| == 32 && |t| == |z| == |rest| + 32 && reg + rest == XorBits(t, z)
    ensures XorBits(g, [false] + reg) + rest == XorBits(XorBits(g + Zeros(|rest|), [false] + t), [false] + z)
  {
    var l, r := XorBits(g, [false] + reg) + rest, XorBits(XorBits(g + Zeros(|rest|), [false] + t), [false] + z);
    forall i | 0 <= i < |l| ensures l[i] == r[i] {
      if i > 0 {
        assert (reg + rest)[i - 1] == (t[i - 1] != z[i - 1]);
      }
    }
  }

  // ---- the checksum is a remainder ----

  lemma RaisedBit(b: bool)
    ensures StepN(Low(b), 32) == Step(High(b))
  {
    if b {
      assert StepN(1, 32) == StepN(0x100, 24) by { StepChunk(1, 24); }
      assert StepN(0x100, 24) == StepN(0x1_0000, 16) by { StepChunk(0x100, 16); }
      assert StepN(0x1_0000, 16) == StepN(0x100_0000, 8) by { StepChunk(0x1_0000, 8); }
      EightSteps(0x100_0000);
      assert Step8(0x100_0000) == Step(0x8000_0000);
    } else {
      StepNZero(32);
      assert Step(0) == 0;
    }
  }

  lemma StepChunk(c: bv32, n: nat)
    requires c & 0xff00_0000 == 0
    ensures StepN(c, n + 8) == StepN(Shl8(c), n)
  {
    EightSteps(c);
    StepNSum(c, 8, n);
    assert Step8(c) == Shl8(c);
  }

  lemma {:induction false} StepNSum(c: bv32, m: nat, n: nat)
    ensures StepN(c, m + n) == StepN(StepN(c, m), n)
    decreases m
  {
    hide Step;
    if m != 0 {
      StepNSum(Step(c), m - 1, n);
    }
  }

  lemma {:induction false} RemainderOfZeros(c: bv32, n: nat)
    ensures Remainder(c, Zeros(n)) == StepN(c, n)
    decreases n
  {
    hide Step, Xor;
    if n != 0 {
      XorSelf(Step(c));
      assert Zeros(n)[1..] == Zeros(n - 1);
      RemainderOfZeros(Step(c), n - 1);
    }
  }

  /**
  The checksum is the remainder of the message followed by 32 zero bits, `c` standing before the message; the
  checksum's own start value is what `c` becomes after 32 steps.
  */
  lemma {:induction false} CrcIsRemainder(c: bv32, bits: seq<bool>)
    ensures CrcBits(StepN(c, 32), bits) == Remainder(c, bits + Zeros(32))
    decreases bits
  {
    hide Step, Xor, High, Low;
    if bits == [] {
      assert bits + Zeros(32) == Zeros(32);
      RemainderOfZeros(c, 32);
    } else {
      var b := bits[0];
      assert (bits + Zeros(32))[0] == b && (bits + Zeros(32))[1..] == bits[1..] + Zeros(32);
      CrcIsRemainder(BringDown(c, b), bits[1..]);
      StepNXor(Step(c), Low(b), 32);
      RaisedBit(b);
      StepNLast(c, 32);
      StepXor(StepN(c, 32), High(b));
    }
  }

  // ---- error detection ----

  lemma {:induction false} CrcBitsXor(c: bv32, d: bv32, a: seq<bool>, b: seq<bool>)
    requires |a| == |b|
    ensures CrcBits(Xor(c, d), XorBits(a, b)) == Xor(CrcBits(c, a), CrcBits(d, b))
    decreases a
  {
    hide Step, Xor, High;
    if a != [] {
      var x, y := High(a[0]), High(b[0]);
      HighXor(a[0], b[0]);
      XorSwap(c, d, x, y);
      StepXor(Xor(c, x), Xor(d, y));
      assert XorBits(a, b)[1..] == XorBits(a[1..], b[1..]);
      CrcBitsXor(Step(Xor(c, x)), Step(Xor(d, y)), a[1..], b[1..]);
    }
  }

  lemma HighXor(a: bool, b: bool)
    ensures High(a != b) == Xor(High(a), High(b))
  {
  }

  lemma {:induction false} CrcOfZeros(c: bv32, n: nat)
    ensures CrcBits(c, Zeros(n)) == StepN(c, n)
    decreases n
  {
    hide Step, Xor;
    if n != 0 {
      XorSelf(c);
      assert High(false) == 0;
      assert Zeros(n)[1..] == Zeros(n - 1);
      CrcOfZeros(Step(c), n - 1);
    }
  }

  /** A short string is brought down whole: nothing is subtracted, so a set bit stays. */
  lemma {:induction false} ShortIsNotReduced(c: bv32, bits: seq<bool>)
    requires |bits| <= 32 && Fits(c, |bits|) && (c != 0 || true in bits)
    ensures Remainder(c, bits) != 0
    decreases bits
  {
    hide Step, Xor, Shl, Low;
    if bits != [] {
      var b, rest := bits[0], bits[1..];
      BringDownOfShort(c, b);
      LowFits(b, |rest|);
      FitsXor(Shl(c), Low(b), |rest|);
      assert bits == [b] + rest;
      ShortIsNotReduced(BringDown(c, b), rest);
    }
  }

  lemma BringDownOfShort(c: bv32, b: bool)
    requires !Top(c)
    ensures BringDown(c, b) == Xor(Shl(c), Low(b))
    ensures c != 0 || b ==> BringDown(c, b) != 0
  {
    if b {
      ShlIsEven(c);
      assert Shl(c) != 1;
      if Xor(Shl(c), 1) == 0 {
        XorZero(Shl(c), 1);
      }
    } else {
      XorSelf(Shl(c));
    }
  }

  lemma {:induction false} FitsXor(a: bv32, b: bv32, k: nat)
    requires Fits(a, k) && Fits(b, k)
    ensures Fits(Xor(a, b), k)
    decreases k
  {
    hide Top, Shl, Xor;
    if k != 0 {
      TopXor(a, b);
      ShlXor(a, b);
      FitsXor(Shl(a), Shl(b), k - 1);
    }
  }

  lemma {:induction false} FitsFromZeros(c: bv32, k: nat)
    requires RegBits(c, k) == Zeros(k)
    ensures Fits(c, k)
    decreases k
  {
    hide Top, Shl;
    if k != 0 {
      assert RegBits(c, k)[0] == Zeros(k)[0];
      assert RegBits(c, k)[1..] == Zeros(k)[1..] == Zeros(k - 1);
      FitsFromZeros(Shl(c), k - 1);
    }
  }

  lemma LowFits(b: bool, k: nat)
    requires k < 32
    ensures Fits(Low(b), k)
  {
    RegBitsOfLow(b);
    RegBitsPrefix(Low(b), k, 32);
    assert (Zeros(31) + [b])[..k] == Zeros(k);
    FitsFromZeros(Low(b), k);
  }

  lemma {:induction false} RegBitsPrefix(c: bv32, k: nat, n: nat)
    requires k <= n
    ensures RegBits(c, n)[..k] == RegBits(c, k)
    decreases n - k
  {
    if k < n {
      RegBitsPrefix(c, k + 1, n);
      RegBitsSnoc(c, k);
      assert RegBits(c, n)[..k] == RegBits(c, n)[..k + 1][..k];
    }
  }

  /** A burst: at most 32 bits, one of them set, among zeros. */
  ghost predicate IsBurst(d: seq<bool>) {
    exists i, j :: OnlyWithin(d, i, j) && 0 <= i <= j <= |d| && j - i <= 32 && true in d[i..j]
  }

  ghost predicate OnlyWithin(d: seq<bool>, i: int, j: int) {
    forall m | 0 <= m < |d| && !(i <= m < j) :: !d[m]
  }

  lemma BurstIsCaught(d: seq<bool>)
    requires IsBurst(d)
    ensures CrcBits(0, d) != 0
  {
    hide CrcBits;
    var i, j :| OnlyWithin(d, i, j) && 0 <= i <= j <= |d| && j - i <= 32 && true in d[i..j];
    assert d == Zeros(i) + d[i..j] + Zeros(|d| - j);
    BurstIsCaughtAt(d, d[i..j], i, |d| - j);
  }

  lemma BurstIsCaughtAt(d: seq<bool>, burst: seq<bool>, i: nat, n: nat)
    requires d == Zeros(i) + burst + Zeros(n) && |burst| <= 32 && true in burst
    ensures CrcBits(0, d) != 0
  {
    hide *;
    CrcAmongZeros(burst, i, n);
    ShortBurst(burst);
    StepNZero(n);
    if CrcBits(0, d) == 0 {
      StepNInjective(CrcBits(0, burst), 0, n);
    }
  }

  lemma CrcAmongZeros(burst: seq<bool>, i: nat, n: nat)
    ensures CrcBits(0, Zeros(i) + burst + Zeros(n)) == StepN(CrcBits(0, burst), n)
  {
    hide CrcBits, StepN, Zeros;
    CrcBitsOfSum(0, Zeros(i) + burst, Zeros(n));
    CrcBitsOfSum(0, Zeros(i), burst);
    CrcOfZeros(0, i);
    StepNZero(i);
    CrcOfZeros(CrcBits(0, burst), n);
  }

  lemma ShortBurst(burst: seq<bool>)
    requires |burst| <= 32 && true in burst
    ensures CrcBits(0, burst) != 0
  {
    hide Step;
    StepNZero(32);
    CrcIsRemainder(0, burst);
    RemainderOfSum(0, burst, Zeros(32));
    RemainderOfZeros(Remainder(0, burst), 32);
    ZeroFits(|burst|);
    ShortIsNotReduced(0, burst);
    if CrcBits(0, burst) == 0 {
      StepNInjective(Remainder(0, burst), 0, 32);
    }
  }

  lemma {:induction false} ZeroFits(k: nat)
    ensures Fits(0, k)
  {
    if k != 0 {
      assert Shl(0) == 0 && !Top(0);
      ZeroFits(k - 1);
    }
  }

  lemma {:induction false} RemainderOfSum(c: bv32, a: seq<bool>, b: seq<bool>)
    ensures Remainder(c, a + b) == Remainder(Remainder(c, a), b)
    decreases a
  {
    hide BringDown;
    if a == [] {
      assert a + b == b;
    } else {
      assert (a + b)[0] == a[0] && (a + b)[1..] == a[1..] + b;
      RemainderOfSum(BringDown(c, a[0]), a[1..], b);
    }
  }

  /** Two messages of one length that differ in a burst of at most 32 message bits have different checksums. */
  lemma BurstErrorsAreDetected(c: bv32, s: seq<bv8>, t: seq<bv8>)
    requires |s| == |t| && |MessageBits(s)| == |MessageBits(t)|
    requires IsBurst(XorBits(MessageBits(s), MessageBits(t)))
    ensures CrcOf(c, s) != CrcOf(c, t)
  {
    hide CrcBits, Xor;
    var a, b := MessageBits(s), MessageBits(t);
    CrcBitsXor(c, c, a, b);
    XorSelf(c);
    BurstIsCaught(XorBits(a, b));
    XorSelf(CrcBits(c, a));
  }

  // ---- errors within one word ----

  lemma ByteBitsInjective(a: bv8, b: bv8)
    requires ByteBits(a) == ByteBits(b)
    ensures a == b
  {
    var x, y := ByteBits(a), ByteBits(b);
    assert x[0] == y[0] && x[1] == y[1] && x[2] == y[2] && x[3] == y[3];
    assert x[4] == y[4] && x[5] == y[5] && x[6] == y[6] && x[7] == y[7];
  }

  lemma WordBitsInjective(v: seq<bv8>, w: seq<bv8>)
    requires |v| == |w| == 4 && v != w
    ensures WordBits(v) != WordBits(w)
  {
    hide ByteBits;
    var i :| 0 <= i < 4 && v[i] != w[i];
    ByteAt(v, i);
    ByteAt(w, i);
    if WordBits(v) == WordBits(w) {
      ByteBitsInjective(v[i], w[i]);
    }
  }

  lemma ByteAt(w: seq<bv8>, i: nat)
    requires |w| == 4 && i < 4
    ensures WordBits(w)[24 - 8 * i..32 - 8 * i] == ByteBits(w[i])
  {
    hide ByteBits;
  }

  /** The word at position `4 * k`, padded at the end of the message. */
  ghost function WordAt(s: seq<bv8>, k: nat): (w: seq<bv8>)
    requires 4 * k < |s|
    ensures |w| == 4
  {
    if 4 * k + 4 <= |s| then s[4 * k..4 * k + 4] else s[4 * k..] + seq(4 * k + 4 - |s|, _ => 0)
  }

  lemma MessageBitsAround(s: seq<bv8>, k: nat)
    requires 4 * k < |s|
    ensures MessageBits(s) == MessageBits(s[..4 * k]) + WordBits(WordAt(s, k)) +
                              MessageBits(if 4 * k + 4 <= |s| then s[4 * k + 4..] else [])
  {
    hide WordBits;
    assert s == s[..4 * k] + s[4 * k..];
    MessageBitsOfSum(s[..4 * k], s[4 * k..]);
    var rest := s[4 * k..];
    if 4 * k + 4 <= |s| {
      assert rest[..4] == WordAt(s, k) && rest[4..] == s[4 * k + 4..];
    }
  }

  /** Messages that differ, but only within one aligned word, differ in a burst. */
  lemma WordErrorIsBurst(s: seq<bv8>, t: seq<bv8>, k: nat)
    requires |s| == |t| && s != t && 4 * k < |s|
    requires forall i | 0 <= i < |s| && !(4 * k <= i < 4 * k + 4) :: s[i] == t[i]
    ensures |MessageBits(s)| == |MessageBits(t)| && IsBurst(XorBits(MessageBits(s), MessageBits(t)))
  {
    hide WordBits, MessageBits;
    var front, back := MessageBits(s[..4 * k]), MessageBits(if 4 * k + 4 <= |s| then s[4 * k + 4..] else []);
    var v, w := WordBits(WordAt(s, k)), WordBits(WordAt(t, k));
    assert s[..4 * k] == t[..4 * k];
    assert 4 * k + 4 <= |s| ==> s[4 * k + 4..] == t[4 * k + 4..];
    MessageBitsAround(s, k);
    MessageBitsAround(t, k);
    WordsDiffer(s, t, k);
    WordBitsInjective(WordAt(s, k), WordAt(t, k));
    DifferenceInMiddle(front, v, w, back);
  }

  lemma WordsDiffer(s: seq<bv8>, t: seq<bv8>, k: nat)
    requires |s| == |t| && s != t && 4 * k < |s|
    requires forall i | 0 <= i < |s| && !(4 * k <= i < 4 * k + 4) :: s[i] == t[i]
    ensures WordAt(s, k) != WordAt(t, k)
  {
    var i :| 0 <= i < |s| && s[i] != t[i];
    assert WordAt(s, k)[i - 4 * k] == s[i] && WordAt(t, k)[i - 4 * k] == t[i];
  }

  lemma DifferenceInMiddle(front: seq<bool>, v: seq<bool>, w: seq<bool>, back: seq<bool>)
    requires |v| == |w| <= 32 && v != w
    ensures IsBurst(XorBits(front + v + back, front + w + back))
  {
    var d := XorBits(front + v + back, front + w + back);
    var i := |front|;
    var m :| 0 <= m < |v| && v[m] != w[m];
    assert d[i..i + |v|][m];
    assert OnlyWithin(d, i, i + |v|);
  }

  /** Messages of one length that differ only within one aligned four-byte word have different checksums. */
  lemma WordErrorsAreDetected(c: bv32, s: seq<bv8>, t: seq<bv8>, k: nat)
    requires |s| == |t| && s != t && 4 * k < |s|
    requires forall i | 0 <= i < |s| && !(4 * k <= i < 4 * k + 4) :: s[i] == t[i]
    ensures CrcOf(c, s) != CrcOf(c, t)
  {
    WordErrorIsBurst(s, t, k);
    BurstErrorsAreDetected(c, s, t);
  }

  // ---- the start value ----

  /** The start value 0xffffffff is what 0x46af6449 becomes after 32 steps. */
  lemma StartValue()
    ensures StepN(0x46af6449, 32) == 0xffff_ffff
  {
    hide StepN;
    StepNSum(0x46af6449, 8, 24);
    StepNSum(0x816474c5, 8, 16);
    StepNSum(0x09b93859, 8, 8);
    EightSteps(0x46af6449);
    EightSteps(0x816474c5);
    EightSteps(0x09b93859);
    EightSteps(0x9bf1a90f);
  }

  /**
  The checksum of a packet is the remainder of the message polynomial: the coefficients of 0x46af6449, then the message
  bits, then 32 zeros make a dividend that is some multiple of the generator plus the checksum.
  */
  lemma ChecksumIsPolynomialRemainder(s: seq<bv8>) returns (q: seq<bool>)
    ensures var dividend := RegBits(0x46af6449, 32) + (MessageBits(s) + Zeros(32));
            && |dividend| == |q| + 32
            && dividend == XorBits(TimesGenerator(q), Zeros(|q|) + RegBits(CrcOf(0xffff_ffff, s), 32))
  {
    StartValue();
    CrcIsRemainder(0x46af6449, MessageBits(s));
    q := Quotient(0x46af6449, MessageBits(s) + Zeros(32));
    DivisionIsCorrect(0x46af6449, MessageBits(s) + Zeros(32));
  }
}
