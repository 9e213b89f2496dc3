/**
The checksum of DM packets: the table-driven word CRC with generator 0x04C11DB7 of section 3.2.9 of IEEE 802.3, most
significant bit first, without reflection or final complement.
*/
module Crc {
  import Bits
  import opened CrcTable

  const POLYNOMIAL: bv32 := 0x04c11db7

  // ---- words as bit vectors ----

  function Top(c: bv32): bool { c & 0x8000_0000 != 0 }

  function Shl(c: bv32): bv32 { c << 1 }

  function Xor(a: bv32, b: bv32): bv32 { a ^ b }

  lemma XorAssoc(a: bv32, b: bv32, c: bv32)
    ensures Xor(Xor(a, b), c) == Xor(a, Xor(b, c))
  {
  }

  lemma XorComm(a: bv32, b: bv32)
    ensures Xor(a, b) == Xor(b, a)
  {
  }

  lemma XorSelf(a: bv32)
    ensures Xor(a, a) == 0 && Xor(a, 0) == a == Xor(0, a)
  {
  }

  lemma XorZero(a: bv32, b: bv32)
    requires Xor(a, b) == 0
    ensures a == b
  {
  }

  lemma XorSwap(a: bv32, b: bv32, c: bv32, d: bv32)
    ensures Xor(Xor(a, b), Xor(c, d)) == Xor(Xor(a, c), Xor(b, d))
  {
    hide Xor;
    XorAssoc(a, b, Xor(c, d));
    XorAssoc(b, c, d);
    XorComm(b, c);
    XorAssoc(c, b, d);
    XorAssoc(a, c, Xor(b, d));
  }

  lemma TopXor(a: bv32, b: bv32)
    ensures Top(Xor(a, b)) <==> Top(a) != Top(b)
  {
  }

  lemma ShlXor(a: bv32, b: bv32)
    ensures Shl(Xor(a, b)) == Xor(Shl(a), Shl(b))
  {
  }

  // ---- one step of the division ----

  /** Multiplies the register by x modulo the generator. */
  function Step(c: bv32): bv32 {
    if Top(c) then Xor(Shl(c), POLYNOMIAL) else Shl(c)
  }

  lemma StepXor(a: bv32, b: bv32)
    ensures Step(Xor(a, b)) == Xor(Step(a), Step(b))
  {
    hide Top, Shl, Xor;
    TopXor(a, b);
    ShlXor(a, b);
    var x, y, p := Shl(a), Shl(b), POLYNOMIAL;
    XorSwap(x, p, y, p);
    XorSelf(p);
    XorSelf(Xor(x, y));
    XorAssoc(x, y, p);
    XorAssoc(x, p, y);
    XorComm(y, p);
  }

  /** The generator has a constant term, so no register but zero steps to zero. */
  lemma StepZero(c: bv32)
    requires Step(c) == 0
    ensures c == 0
  {
    if Top(c) {
      ShlIsEven(c);
      XorZero(Shl(c), POLYNOMIAL);
    }
  }

  lemma ShlIsEven(c: bv32)
    ensures Shl(c) & 1 == 0
  {
  }

  lemma StepInjective(a: bv32, b: bv32)
    requires Step(a) == Step(b)
    ensures a == b
  {
    hide Step, Xor;
    StepXor(a, b);
    XorSelf(Step(b));
    StepZero(Xor(a, b));
    XorZero(a, b);
  }

  function StepN(c: bv32, n: nat): bv32
    decreases n
  {
    if n == 0 then c else StepN(Step(c), n - 1)
  }

  lemma {:induction false} StepNXor(a: bv32, b: bv32, n: nat)
    ensures StepN(Xor(a, b), n) == Xor(StepN(a, n), StepN(b, n))
    decreases n
  {
    hide Step, Xor;
    if n != 0 {
      StepXor(a, b);
      StepNXor(Step(a), Step(b), n - 1);
    }
  }

  lemma {:induction false} StepNLast(c: bv32, n: nat)
    ensures StepN(c, n + 1) == Step(StepN(c, n))
    decreases n
  {
    hide Step;
    if n != 0 {
      StepNLast(Step(c), n - 1);
    }
  }

  lemma {:induction false} StepNZero(n: nat)
    ensures StepN(0, n) == 0
  {
    if n != 0 {
      assert Step(0) == 0;
      StepNZero(n - 1);
    }
  }

  lemma {:induction false} StepNInjective(a: bv32, b: bv32, n: nat)
    requires StepN(a, n) == StepN(b, n)
    ensures a == b
    decreases n
  {
    hide Step;
    if n != 0 {
      StepNInjective(Step(a), Step(b), n - 1);
      StepInjective(a, b);
    }
  }

  // ---- the bitwise CRC ----

  function High(b: bool): bv32 { if b then 0x8000_0000 else 0 }

  function Low(b: bool): bv32 { if b then 1 else 0 }

  /** Takes the message bits one by one into the register. */
  function CrcBits(c: bv32, bits: seq<bool>): bv32
    decreases bits
  {
    if bits == [] then c else CrcBits(Step(Xor(c, High(bits[0]))), bits[1..])
  }

  function ByteBits(b: bv8): (r: seq<bool>)
    ensures |r| == 8
  {
    [b & 0x80 != 0, b & 0x40 != 0, b & 0x20 != 0, b & 0x10 != 0, b & 8 != 0, b & 4 != 0, b & 2 != 0, b & 1 != 0]
  }

  /** The order in which the bits of a message are taken: little-endian words, the last one padded with zeros. */
  function MessageBits(s: seq<bv8>): seq<bool> {
    if s == [] then []
    else if |s| < 4 then WordBits(s + seq(4 - |s|, _ => 0))
    else WordBits(s[..4]) + MessageBits(s[4..])
  }

  function WordBits(w: seq<bv8>): (r: seq<bool>)
    requires |w| == 4
    ensures |r| == 32
  {
    ByteBits(w[3]) + ByteBits(w[2]) + ByteBits(w[1]) + ByteBits(w[0])
  }

  /** Bit `j` of a byte, the least significant one being bit 0. */
  function BitOf(b: bv8, j: nat): bool
    requires j < 8
  {
    (b >> j) & 1 != 0
  }

  lemma ByteBitAt(b: bv8, r: nat)
    requires r < 8
    ensures ByteBits(b)[r] == BitOf(b, 7 - r)
  {
    if r == 0 {} else if r == 1 {} else if r == 2 {} else if r == 3 {}
    else if r == 4 {} else if r == 5 {} else if r == 6 {} else {}
  }

  lemma WordBitAt(w: seq<bv8>, r: nat)
    requires |w| == 4 && r < 32
    ensures WordBits(w)[r] == BitOf(w[3 - r / 8], 7 - r % 8)
  {
    hide BitOf, ByteBits;
    ByteBitAt(w[3 - r / 8], r % 8);
  }

  lemma {:induction false} MessageBitsLength(s: seq<bv8>)
    ensures |MessageBits(s)| == 32 * ((|s| + 3) / 4)
  {
    hide WordBits;
    if |s| >= 4 {
      MessageBitsLength(s[4..]);
    }
  }

  /** The byte of the message that bit `i` of the stream comes from. */
  function SourceByte(i: nat): nat {
    i / 32 * 4 + 3 - i % 32 / 8
  }

  /**
  Which bit of the message comes where: words in order, in each word the last byte first, in each byte the most significant
  bit first, and zeros for the bytes that the last word lacks.
  */
  lemma {:induction false} MessageBitAt(s: seq<bv8>, i: nat)
    requires i < |MessageBits(s)|
    ensures var p := i / 32 * 4 + 3 - i % 32 / 8; MessageBits(s)[i] == (p < |s| && BitOf(s[p], 7 - i % 8))
    decreases |s|
  {
    hide BitOf, WordBits, MessageBits;
    MessageBitsLength(s);
    if |s| < 4 {
      BitOfTail(s, i);
    } else {
      MessageFirstWord(s);
      if i < 32 {
        WordBitAt(s[..4], i);
        SameBit(i);
      } else {
        NextWord(i);
        MessageBitAt(s[4..], i - 32);
      }
    }
  }

  lemma MessageFirstWord(s: seq<bv8>)
    requires |s| >= 4
    ensures MessageBits(s) == WordBits(s[..4]) + MessageBits(s[4..])
  {
  }

  lemma BitOfTail(s: seq<bv8>, i: nat)
    requires |s| < 4 && i < |MessageBits(s)|
    ensures var p := SourceByte(i); i < 32 && MessageBits(s)[i] == (p < |s| && BitOf(s[p], 7 - i % 8))
  {
    hide BitOf, WordBits;
    var w := s + seq(4 - |s|, _ => 0);
    WordBitAt(w, i);
    SameBit(i);
    NoBitOfZero(7 - i % 8);
  }

  lemma SameBit(i: nat)
    requires i < 32
    ensures SourceByte(i) == 3 - i / 8 && i % 32 == i
  {
  }

  lemma NextWord(i: nat)
    requires i >= 32
    ensures SourceByte(i) == SourceByte(i - 32) + 4 && (i - 32) % 8 == i % 8 && SourceByte(i - 32) >= 0
  {
    var q, r := i / 32, i % 32;
    Bits.DivModUnique(i - 32, 32, q - 1, r);
    Bits.DivModUnique(i - 32, 8, 4 * (q - 1) + r / 8, r % 8);
    Bits.DivModUnique(i, 8, 4 * q + r / 8, r % 8);
  }

  lemma NoBitOfZero(j: nat)
    requires j < 8
    ensures !BitOf(0, j)
  {
    if j == 0 {} else if j == 1 {} else if j == 2 {} else if j == 3 {}
    else if j == 4 {} else if j == 5 {} else if j == 6 {} else {}
  }

  lemma {:induction false} CrcBitsOfSum(c: bv32, a: seq<bool>, b: seq<bool>)
    ensures CrcBits(c, a + b) == CrcBits(CrcBits(c, a), b)
    decreases a
  {
    hide Step, Xor, High;
    if a == [] {
      assert a + b == b;
    } else {
      assert (a + b)[0] == a[0] && (a + b)[1..] == a[1..] + b;
      CrcBitsOfSum(Step(Xor(c, High(a[0]))), a[1..], b);
    }
  }

  // ---- the table form ----

  /** `byte = (crc >> 24) ^ b`. */
  function Index(c: bv32, b: bv8): bv8 {
    ((c >> 24) as bv8) ^ b
  }

  function Shl8(c: bv32): bv32 { c << 8 }

  /** The byte as the top byte of a register. */
  function Raise(b: bv8): bv32 { (b as bv32) << 24 }

  function LowBytes(c: bv32): bv32 { c & 0x00ff_ffff }

  /** `crc = crc32_table[byte] ^ (crc << 8)`. */
  function TableStep(c: bv32, b: bv8): bv32 {
    Xor(Entry(Index(c, b)), Shl8(c))
  }

  function Step8(c: bv32): bv32 {
    Step(Step(Step(Step(Step(Step(Step(Step(c))))))))
  }

  lemma FirstEntries(b: bv8)
    requires b < 0x20
    ensures Entry(b) == Step8(Raise(b))
  {
  }

  lemma NextEntries(b: bv8)
    requires 0x20 <= b < 0x40
    ensures Entry(b) == Step8(Raise(b))
  {
  }

  lemma SecondEntries(b: bv8)
    requires 0x40 <= b < 0x80
    ensures Entry(b) == Step8(Raise(b))
  {
  }

  lemma HighEntries(b: bv8)
    requires b >= 0x80
    ensures Entry(b) == Step8(Raise(b))
  {
  }

  /** Every table entry is eight shift-and-subtract steps. */
  lemma EntryIsEightSteps(b: bv8)
    ensures Entry(b) == Step8(Raise(b))
  {
    hide Entry, Step8, Raise;
    if b < 0x20 {
      FirstEntries(b);
    } else if b < 0x40 {
      NextEntries(b);
    } else if b < 0x80 {
      SecondEntries(b);
    } else {
      HighEntries(b);
    }
  }

  lemma EightSteps(c: bv32)
    ensures StepN(c, 8) == Step8(c)
  {
    hide Step;
    assert StepN(c, 8) == StepN(Step(Step(Step(Step(c)))), 4);
  }

  lemma LowBytesShift(c: bv32)
    ensures Step8(LowBytes(c)) == Shl8(c)
  {
  }

  lemma TopByteSplits(c: bv32, b: bv8)
    ensures Xor(c, Raise(b)) == Xor(Raise(Index(c, b)), LowBytes(c))
  {
    hide *;
    var x, y, z := Raise(Index(c, 0)), LowBytes(c), Raise(b);
    SplitTopByte(c);
    RaiseIndex(c, b);
    XorAssoc(x, y, z);
    XorComm(y, z);
    XorAssoc(x, z, y);
  }

  lemma SplitTopByte(c: bv32)
    ensures c == Xor(Raise(Index(c, 0)), LowBytes(c))
  {
  }

  lemma RaiseIndex(c: bv32, b: bv8)
    ensures Raise(Index(c, b)) == Xor(Raise(Index(c, 0)), Raise(b))
  {
  }

  lemma Step8Xor(a: bv32, b: bv32)
    ensures Step8(Xor(a, b)) == Xor(Step8(a), Step8(b))
  {
    hide Step, Xor;
    EightSteps(a);
    EightSteps(b);
    EightSteps(Xor(a, b));
    StepNXor(a, b, 8);
  }

  /** By linearity, the table step is eight steps of the register with the byte added at its top. */
  lemma TableStepIsEightSteps(c: bv32, b: bv8)
    ensures TableStep(c, b) == Step8(Xor(c, Raise(b)))
  {
    hide Step8, Entry, Index, Raise, LowBytes, Shl8, Xor;
    TopByteSplits(c, b);
    EntryIsEightSteps(Index(c, b));
    LowBytesShift(c);
    Step8Xor(Raise(Index(c, b)), LowBytes(c));
  }

  // ---- bytes and words, bit by bit ----

  function ShlByte(b: bv8, k: nat): bv8
    decreases k
  {
    if k == 0 then b else ShlByte(b << 1, k - 1)
  }

  lemma RaiseSplits(b: bv8)
    ensures Raise(b) == Xor(High(b & 0x80 != 0), Raise(b & 0x7f))
    ensures Step(Raise(b & 0x7f)) == Raise(b << 1)
    ensures ByteBits(b)[1..] + [false] == ByteBits(b << 1)
  {
  }

  /** After `k` steps the first `k` bits of the byte are taken and the others stand at the top of the register. */
  lemma {:induction false} SomeBits(c: bv32, b: bv8, k: nat)
    requires k <= 8
    ensures StepN(Xor(c, Raise(b)), k) == Xor(CrcBits(c, ByteBits(b)[..k]), Raise(ShlByte(b, k)))
    decreases k
  {
    hide Step, Xor, High, Raise;
    if k != 0 {
      var bits, bits' := ByteBits(b), ByteBits(b << 1);
      RaiseSplits(b);
      var c' := Step(Xor(c, High(bits[0])));
      XorAssoc(c, High(bits[0]), Raise(b & 0x7f));
      StepXor(Xor(c, High(bits[0])), Raise(b & 0x7f));
      SomeBits(c', b << 1, k - 1);
      assert bits[..k][1..] == bits'[..k - 1];
    }
  }

  /** Taking a byte bit by bit is the table step. */
  lemma ByteIsTableStep(c: bv32, b: bv8)
    ensures CrcBits(c, ByteBits(b)) == TableStep(c, b)
  {
    hide TableStep, Step, Raise, Xor, CrcBits;
    SomeBits(c, b, 8);
    assert ByteBits(b)[..8] == ByteBits(b);
    EightSteps(Xor(c, Raise(b)));
    TableStepIsEightSteps(c, b);
    ShlByteOut(b);
    RaiseZero();
    XorSelf(CrcBits(c, ByteBits(b)));
  }

  lemma ShlByteOut(b: bv8)
    ensures ShlByte(b, 8) == 0
  {
    assert ShlByte(b, 8) == ShlByte(b << 1 << 1 << 1 << 1, 4);
  }

  lemma RaiseZero()
    ensures Raise(0) == 0
  {
  }

  lemma WordIsFourTableSteps(c: bv32, w: seq<bv8>)
    requires |w| == 4
    ensures CrcBits(c, WordBits(w)) == TableStep(TableStep(TableStep(TableStep(c, w[3]), w[2]), w[1]), w[0])
  {
    hide TableStep, CrcBits, ByteBits;
    var b3, b2, b1, b0 := ByteBits(w[3]), ByteBits(w[2]), ByteBits(w[1]), ByteBits(w[0]);
    CrcBitsOfSum(c, b3 + b2 + b1, b0);
    CrcBitsOfSum(c, b3 + b2, b1);
    CrcBitsOfSum(c, b3, b2);
    ByteIsTableStep(c, w[3]);
    ByteIsTableStep(CrcBits(c, b3), w[2]);
    ByteIsTableStep(CrcBits(CrcBits(c, b3), b2), w[1]);
    ByteIsTableStep(CrcBits(CrcBits(CrcBits(c, b3), b2), b1), w[0]);
  }

  // ---- the checksum ----

  /** The checksum of a message: its bits, little-endian word by word, divided one at a time. */
  function CrcOf(crc: bv32, s: seq<bv8>): bv32 {
    CrcBits(crc, MessageBits(s))
  }

  /** `get_stm32_crc` (src/utilities/common_funcs.cpp:58-99). */
  method GetStm32Crc(crc0: bv32, s: array<bv8>, len: nat) returns (crc: bv32)
    requires len <= s.Length
    ensures crc == CrcOf(crc0, s[..len])
  {
    hide CrcOf, TableStep;
    crc := crc0;
    var p: nat := 0;
    var remain: nat := len % 4;
    var loop: nat := len / 4;
    while loop != 0
      invariant p + 4 * loop + remain == len
      invariant CrcOf(crc, s[p..len]) == CrcOf(crc0, s[..len])
    {
      WholeWordFirst(crc, s[p..len]);
      assert s[p..len][4..] == s[p + 4..len];
      crc := TableStep(crc, s[p + 3]);
      crc := TableStep(crc, s[p + 2]);
      crc := TableStep(crc, s[p + 1]);
      crc := TableStep(crc, s[p]);
      p := p + 4;
      loop := loop - 1;
    }
    NothingLeft(crc);
    if remain != 0 {
      var buf := PaddedTail(s, p, remain);
      PaddedWordLast(crc, s[p..len]);
      crc := TableStep(crc, buf[3]);
      crc := TableStep(crc, buf[2]);
      crc := TableStep(crc, buf[1]);
      crc := TableStep(crc, buf[0]);
    }
  }

  /** The last bytes in a zeroed word (src/utilities/common_funcs.cpp:82-84). */
  method PaddedTail(s: array<bv8>, p: nat, remain: nat) returns (buf: array<bv8>)
    requires p + remain <= s.Length && remain < 4
    ensures fresh(buf) && buf[..] == s[p..p + remain] + seq(4 - remain, _ => 0)
  {
    buf := new bv8[4](_ => 0);
    forall i | 0 <= i < remain {
      buf[i] := s[p + i];
    }
  }

  lemma NothingLeft(c: bv32)
    ensures CrcOf(c, []) == c
  {
  }

  lemma WholeWordFirst(c: bv32, s: seq<bv8>)
    requires |s| >= 4
    ensures CrcOf(c, s) == CrcOf(TableStep(TableStep(TableStep(TableStep(c, s[3]), s[2]), s[1]), s[0]), s[4..])
  {
    hide TableStep, CrcBits;
    CrcBitsOfSum(c, WordBits(s[..4]), MessageBits(s[4..]));
    WordIsFourTableSteps(c, s[..4]);
  }

  lemma PaddedWordLast(c: bv32, s: seq<bv8>)
    requires 0 < |s| < 4
    ensures var w := s + seq(4 - |s|, _ => 0);
            CrcOf(c, s) == TableStep(TableStep(TableStep(TableStep(c, w[3]), w[2]), w[1]), w[0])
  {
    WordIsFourTableSteps(c, s + seq(4 - |s|, _ => 0));
  }

  /** Checksums compose: the checksum of `a` is where the checksum of `b` starts, when `a` is whole words. */
  lemma {:induction false} CrcOfSum(c: bv32, a: seq<bv8>, b: seq<bv8>)
    requires |a| % 4 == 0
    ensures CrcOf(c, a + b) == CrcOf(CrcOf(c, a), b)
  {
    MessageBitsOfSum(a, b);
    CrcBitsOfSum(c, MessageBits(a), MessageBits(b));
  }

  lemma {:induction false} MessageBitsOfSum(a: seq<bv8>, b: seq<bv8>)
    requires |a| % 4 == 0
    ensures MessageBits(a + b) == MessageBits(a) + MessageBits(b)
  {
    hide WordBits;
    if a == [] {
      assert a + b == b;
    } else {
      MessageBitsOfSum(a[4..], b);
      assert (a + b)[..4] == a[..4] && (a + b)[4..] == a[4..] + b;
    }
  }
}
