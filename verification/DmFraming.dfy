/** DM packets as byte strings: what makes a packet valid, and how one is put together. */
module DmFraming {
  import opened Bits
  import opened Crc

  type Bytes = seq<bv8>

  const HEADER: Bytes := [0x5b, 0x44, 0x4d, 0x2d] // "[DM-"
  const TAIL: Bytes := [0x2d, 0x4e, 0x52, 0x5d]   // "-NR]"
  const HEADER_SIZE := 4
  const DATA_POS := 8
  const MAX_MSG_SIZE := 8 * 1024 * 1024

  // ---- little-endian words ----

  /** Reads an unsigned 32-bit word as the processor does. */
  function Word(s: Bytes): bv32
    requires |s| == 4
  {
    (s[0] as bv32) | ((s[1] as bv32) << 8) | ((s[2] as bv32) << 16) | ((s[3] as bv32) << 24)
  }

  function WordBytes(w: bv32): (r: Bytes)
    ensures |r| == 4
  {
    [(w & 0xff) as bv8, ((w >> 8) & 0xff) as bv8, ((w >> 16) & 0xff) as bv8, ((w >> 24) & 0xff) as bv8]
  }

  lemma WordRoundTrip(w: bv32)
    ensures Word(WordBytes(w)) == w
  {
  }

  function Value(b: bv8): (r: nat) {
    b as nat
  }

  function Byte(n: nat): (b: bv8)
    requires n < 0x100
    ensures b as nat == n
  {
    ByteConversion(n);
    n as bv8
  }

  lemma {:induction false} ByteOf(n: nat) returns (b: bv8)
    requires n < 0x100
    ensures b as nat == n
  {
    if n == 0 {
      b := 0;
    } else {
      var c := ByteOf(n - 1);
      NextByte(c);
      b := c + 1;
    }
  }

  lemma NextByte(b: bv8)
    requires b != 0xff
    ensures (b + 1) as nat == b as nat + 1
  {
  }

  lemma ByteConversion(n: nat)
    requires n < 0x100
    ensures (n as bv8) as nat == n
  {
    var b := ByteOf(n);
    assert n as bv8 == b;
  }

  lemma ByteValue(n: nat)
    requires n < 0x100
    ensures Value(Byte(n)) == n
  {
    hide Byte;
  }

  lemma ValueByte(b: bv8)
    ensures Value(b) < 0x100 && Byte(Value(b)) == b
  {
  }

  /** A little-endian number. */
  function Length(s: Bytes): nat {
    if s == [] then 0 else Value(s[0]) + 0x100 * Length(s[1..])
  }

  function LengthBytes(n: nat, k: nat): (r: Bytes)
    ensures |r| == k
  {
    if k == 0 then [] else [Byte(n % 0x100)] + LengthBytes(n / 0x100, k - 1)
  }

  lemma {:induction false} LengthRoundTrip(n: nat, k: nat)
    requires n < Pow2(8 * k)
    ensures Length(LengthBytes(n, k)) == n
    decreases k
  {
    hide Value, Byte;
    if k != 0 {
      ByteValue(n % 0x100);
      Pow2Sum(8, 8 * (k - 1));
      assert Pow2(8) == 0x100 by { assert Pow2(4) == 16; }
      LengthRoundTrip(n / 0x100, k - 1);
      var r := LengthBytes(n, k);
      assert r[1..] == LengthBytes(n / 0x100, k - 1);
    }
  }

  lemma {:induction false} LengthBytesRoundTrip(s: Bytes)
    ensures LengthBytes(Length(s), |s|) == s
  {
    hide Value, Byte;
    if s != [] {
      ValueByte(s[0]);
      LengthBytesRoundTrip(s[1..]);
      var n, v, m := Length(s), Value(s[0]), Length(s[1..]);
      DivModUnique(n, 0x100, m, v);
    }
  }

  lemma BigEnough()
    ensures Pow2(32) == 0x1_0000_0000
  {
    Pow2Sum(16, 16);
    Pow2Sum(8, 8);
    assert Pow2(8) == 0x100 by { assert Pow2(4) == 16; }
  }

  // ---- packets ----

  function Checksum(s: Bytes): bv32 {
    CrcOf(0xffff_ffff, s)
  }

  /** Header, own length, tail and stored checksum are all right. */
  predicate PacketValid(g: Bytes)
    requires |g| >= 8
  {
    && g[..4] == HEADER
    && Length(g[4..8]) == |g|
    && g[|g| - 4..] == TAIL
    && Word(g[|g| - 8..|g| - 4]) == Checksum(g[..|g| - 8])
  }

  predicate CanEncode(payload: Bytes) {
    |payload| <= 8 * 1024 * 1024 - 17
  }

  function Encode(payload: Bytes): (r: Bytes)
    requires CanEncode(payload)
    ensures |r| == |payload| + 16
  {
    var covered := HEADER + LengthBytes(|payload| + 16, 4) + payload;
    covered + WordBytes(Checksum(covered)) + TAIL
  }

  function Payload(g: Bytes): Bytes
    requires |g| >= 16
  {
    g[8..|g| - 8]
  }

  lemma EncodeIsValid(payload: Bytes)
    requires CanEncode(payload)
    ensures PacketValid(Encode(payload)) && Payload(Encode(payload)) == payload
  {
    hide CrcOf, Word, WordBytes, Length, LengthBytes;
    var covered := HEADER + LengthBytes(|payload| + 16, 4) + payload;
    var g := Encode(payload);
    assert g[..|g| - 8] == covered;
    assert g[..4] == covered[..4] == HEADER && g[4..8] == covered[4..8] == LengthBytes(|payload| + 16, 4);
    assert g[|g| - 8..|g| - 4] == WordBytes(Checksum(covered));
    assert Pow2(32) > MAX_MSG_SIZE by { BigEnough(); }
    LengthRoundTrip(|payload| + 16, 4);
    WordRoundTrip(Checksum(covered));
  }

  /** A receiver can tell whether it holds a valid packet with an encodable payload only by it being an encoding. */
  lemma ValidIsEncoding(g: Bytes)
    requires 16 <= |g| < MAX_MSG_SIZE && PacketValid(g)
    ensures g == Encode(Payload(g))
  {
    hide CrcOf, Word, WordBytes, Length, LengthBytes;
    var n := |g|;
    LengthBytesRoundTrip(g[4..8]);
    WordBytesRoundTrip(g[n - 8..n - 4]);
    var covered := HEADER + LengthBytes(n, 4) + Payload(g);
    assert covered == g[..n - 8];
    assert g == g[..n - 8] + g[n - 8..n - 4] + g[n - 4..];
  }

  lemma WordBytesRoundTrip(s: Bytes)
    requires |s| == 4
    ensures WordBytes(Word(s)) == s
  {
    hide Word, WordBytes;
    BytesOfWord(s[0], s[1], s[2], s[3]);
    assert s == [s[0], s[1], s[2], s[3]];
  }

  lemma BytesOfWord(a: bv8, b: bv8, c: bv8, d: bv8)
    ensures WordBytes(Word([a, b, c, d])) == [a, b, c, d]
  {
  }

  // ---- the byte order ----

  /** A length field is its four bytes times the powers of 256, the first byte the least. */
  lemma LengthValue(a: bv8, b: bv8, c: bv8, d: bv8)
    ensures Length([a, b, c, d]) == Value(a) + 0x100 * Value(b) + 0x1_0000 * Value(c) + 0x100_0000 * Value(d)
  {
    hide Value, Length;
    LengthFirst(a, [b, c, d]);
    LengthFirst(b, [c, d]);
    LengthFirst(c, [d]);
    LengthFirst(d, []);
    assert [a] + [b, c, d] == [a, b, c, d] && [b] + [c, d] == [b, c, d] && [c] + [d] == [c, d] && [d] + [] == [d];
    LengthOfNone();
  }

  lemma LengthFirst(b: bv8, s: Bytes)
    ensures Length([b] + s) == Value(b) + 0x100 * Length(s)
  {
    assert ([b] + s)[1..] == s;
  }

  lemma LengthOfNone()
    ensures Length([]) == 0
  {
  }

  /** So is a stored checksum. */
  lemma WordValue(a: bv8, b: bv8, c: bv8, d: bv8)
    ensures Word([a, b, c, d]) as nat == Value(a) + 0x100 * Value(b) + 0x1_0000 * Value(c) + 0x100_0000 * Value(d)
  {
    WordByHorner(a, b, c, d);
    var x := d as bv32;
    var y := (x << 8) | (c as bv32);
    var z := (y << 8) | (b as bv32);
    LowByteFits(x, c);
    LowByteFits(y, b);
    AppendByte(x, c);
    AppendByte(y, b);
    AppendByte(z, a);
  }

  lemma WordByHorner(a: bv8, b: bv8, c: bv8, d: bv8)
    ensures Word([a, b, c, d]) ==
            ((((((d as bv32) << 8) | (c as bv32)) << 8) | (b as bv32)) << 8) | (a as bv32)
    ensures d as bv32 < 0x100 && d as bv32 as nat == d as nat
  {
  }

  lemma LowByteFits(x: bv32, b: bv8)
    ensures x < 0x100 ==> (x << 8) | (b as bv32) < 0x1_0000
    ensures x < 0x1_0000 ==> (x << 8) | (b as bv32) < 0x100_0000
  {
  }

  lemma AppendByte(x: bv32, b: bv8)
    requires x < 0x100_0000
    ensures ((x << 8) | (b as bv32)) as nat == 0x100 * (x as nat) + b as nat
  {
    ShiftByte(x);
    OrByte(x, b);
  }

  lemma ShiftByte(x: bv32)
    requires x < 0x100_0000
    ensures (x << 8) as nat == 0x100 * (x as nat)
  {
  }

  lemma OrByte(x: bv32, b: bv8)
    ensures ((x << 8) | (b as bv32)) as nat == (x << 8) as nat + b as nat
  {
  }
}
