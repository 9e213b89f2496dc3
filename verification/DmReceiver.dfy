/** The receiver as a machine that takes one byte at a time, and what it does with a stream of encoded packets. */
module DmReceiver {
  import opened DmFraming
  import opened Crc
  import opened CrcTheorems

  /** A received length that the receiver accepts. */
  predicate LengthOk(n: nat) {
    16 <= n < MAX_MSG_SIZE
  }

  /** What a receiver between two bytes can hold of the current packet. */
  predicate Partial(got: Bytes) {
    && (|got| >= 4 ==> got[..4] == HEADER)
    && (|got| >= 8 ==> LengthOk(Length(got[4..8])) && |got| < Length(got[4..8]))
  }

  /** The bytes held after one byte more: what stays, and the packets accepted, none or one. */
  function Judge(g: Bytes): (Bytes, seq<Bytes>) {
    if |g| < 4 then (g, [])
    else if |g| == 4 then (if g == HEADER then (g, []) else ([], []))
    else if |g| < 8 then (g, [])
    else if |g| == 8 then (if LengthOk(Length(g[4..8])) then (g, []) else ([], []))
    else if |g| < Length(g[4..8]) then (g, [])
    else if PacketValid(g) then ([], [g]) else ([], [])
  }

  function Push(got: Bytes, b: bv8): (Bytes, seq<Bytes>) {
    Judge(got + [b])
  }

  function Feed(got: Bytes, s: Bytes): (Bytes, seq<Bytes>)
    decreases s
  {
    if s == [] then (got, [])
    else
      var first := Push(got, s[0]);
      var rest := Feed(first.0, s[1..]);
      (rest.0, first.1 + rest.1)
  }

  lemma {:induction false} FeedKeepsPartial(got: Bytes, s: Bytes)
    requires Partial(got)
    ensures Partial(Feed(got, s).0)
    decreases s
  {
    hide PacketValid, Length;
    if s != [] {
      PushKeepsPartial(got, s[0]);
      FeedKeepsPartial(Push(got, s[0]).0, s[1..]);
    }
  }

  lemma PushKeepsPartial(got: Bytes, b: bv8)
    requires Partial(got)
    ensures Partial(Push(got, b).0)
  {
    hide PacketValid, Length;
    var g := got + [b];
    if |got| >= 4 {
      assert g[..4] == got[..4];
    } else if |g| == 4 {
      assert g[..4] == g;
    }
    if |got| >= 8 {
      assert g[4..8] == got[4..8];
    }
  }

  /** Feeding a stream in two parts is feeding it at once. */
  lemma {:induction false} FeedOfSum(got: Bytes, s: Bytes, t: Bytes)
    ensures Feed(got, s + t).0 == Feed(Feed(got, s).0, t).0
    ensures Feed(got, s + t).1 == Feed(got, s).1 + Feed(Feed(got, s).0, t).1
    decreases s
  {
    hide Push;
    if s == [] {
      assert s + t == t;
    } else {
      assert (s + t)[0] == s[0] && (s + t)[1..] == s[1..] + t;
      FeedOfSum(Push(got, s[0]).0, s[1..], t);
    }
  }

  // ---- many bytes at once ----

  /** How many bytes make up the part of the packet that is being received. */
  function Boundary(got: Bytes): nat {
    if |got| < 4 then 4 else if |got| < 8 then 8 else Length(got[4..8])
  }

  /** Up to the boundary, bytes are only stored. */
  lemma {:induction false} FeedBelowBoundary(got: Bytes, s: Bytes)
    requires Partial(got) && |got| + |s| < Boundary(got)
    ensures Feed(got, s) == (got + s, [])
    decreases s
  {
    hide PacketValid, Length;
    if s == [] {
      assert got + s == got;
    } else {
      var g := got + [s[0]];
      if |got| >= 8 {
        assert g[4..8] == got[4..8];
      }
      assert Push(got, s[0]) == (g, []);
      PushKeepsPartial(got, s[0]);
      FeedBelowBoundary(g, s[1..]);
      NothingAccepted(got, s, g);
    }
  }

  lemma NothingAccepted(got: Bytes, s: Bytes, g: Bytes)
    requires s != [] && Push(got, s[0]) == (g, []) && g == got + [s[0]] && Feed(g, s[1..]) == (g + s[1..], [])
    ensures Feed(got, s) == (got + s, [])
  {
    hide Push;
    assert got + s == g + s[1..];
    assert [] + Feed(g, s[1..]).1 == [];
  }

  /** At the boundary, the whole part is judged. */
  lemma FeedToBoundary(got: Bytes, s: Bytes)
    requires Partial(got) && s != [] && |got| + |s| == Boundary(got)
    ensures Feed(got, s) == Judge(got + s)
  {
    hide Judge, Feed, Partial, Boundary;
    var front, last := s[..|s| - 1], s[|s| - 1];
    assert s == front + [last];
    FeedBelowBoundary(got, front);
    FeedOfSum(got, front, [last]);
    assert got + s == got + front + [last];
    FeedOne(got + front, last);
    assert [] + Judge(got + s).1 == Judge(got + s).1;
  }

  lemma FeedOne(got: Bytes, b: bv8)
    ensures Feed(got, [b]) == Push(got, b)
  {
    hide Push;
    var first := Push(got, b);
    assert [b][1..] == [];
    assert Feed(first.0, []) == (first.0, []);
    assert first.1 + [] == first.1;
  }

  // ---- encoded packets come through ----

  /** A packet that is fed whole to a reset receiver is accepted. */
  lemma FeedPacket(g: Bytes)
    requires LengthOk(|g|) && PacketValid(g)
    ensures Feed([], g) == ([], [g])
  {
    hide PacketValid, Length, Feed;
    PacketFields(g);
    var a, b, c := g[..4], g[4..8], g[8..];
    assert [] + a == a && a + b == g[..8] && (a + b)[4..8] == g[4..8] && a + b + c == g;
    FeedToBoundary([], a);
    assert Feed([], a) == (a, []);
    FeedToBoundary(a, b);
    assert Feed(a, b) == (a + b, []);
    FeedToBoundary(a + b, c);
    assert Feed(a + b, c) == Judge(g) == ([], [g]);
    FeedOfSum([], a, b);
    FeedOfSum([], a + b, c);
    assert Feed([], a + b).1 == [] + [] == [];
    assert [] + [g] == [g];
  }

  // ---- noise in front of a packet ----

  /** No four bytes from a position divisible by four on are a header. */
  predicate NoHeaderAtBlocks(s: Bytes)
    decreases |s|
  {
    |s| < 4 || (s[..4] != HEADER && NoHeaderAtBlocks(s[4..]))
  }

  /** A reset receiver forgets whole blocks of such noise and keeps the rest. */
  lemma {:induction false} FeedNoise(s: Bytes)
    requires NoHeaderAtBlocks(s)
    ensures Feed([], s) == (s[|s| - |s| % 4..], [])
    decreases |s|
  {
    hide PacketValid, Length, Feed, Judge, Partial;
    if |s| < 4 {
      NothingHeld();
      assert [] + s == s && s[0..] == s;
      FeedBelowBoundary([], s);
    } else {
      var block, rest := s[..4], s[4..];
      assert s == block + rest;
      WrongHeader(block);
      FeedNoise(rest);
      FeedOfSum([], block, rest);
      assert |s| % 4 == |rest| % 4;
    }
  }

  lemma NothingHeld()
    ensures Partial([])
  {
  }

  lemma WrongHeader(block: Bytes)
    requires |block| == 4 && block != HEADER
    ensures Feed([], block) == ([], [])
  {
    hide PacketValid, Length, Feed;
    assert [] + block == block;
    FeedToBoundary([], block);
  }

  /** Whatever is accepted was held before or has been fed. */
  lemma {:induction false} AcceptedFits(got: Bytes, s: Bytes)
    ensures |Feed(got, s).0| <= |got| + |s|
    ensures forall i | 0 <= i < |Feed(got, s).1| :: |Feed(got, s).1[i]| <= |got| + |s|
    decreases |s|
  {
    hide PacketValid, Length;
    if s != [] {
      AcceptedFits(Push(got, s[0]).0, s[1..]);
    }
  }

  /** One to three stray bytes take the packet's header apart, and too few bytes are left for the packet itself. */
  lemma StrayBytesLosePacket(stray: Bytes, g: Bytes)
    requires 0 < |stray| < 4 && |g| >= 4 && g[..4] == HEADER
    ensures g !in Feed(stray, g).1
  {
    hide PacketValid, Length, Feed;
    var a, b := g[..4 - |stray|], g[4 - |stray|..];
    assert g == a + b;
    assert (stray + a)[|stray|] == g[0] == HEADER[0];
    FeedToBoundary(stray, a);
    FeedOfSum(stray, a, b);
    AcceptedFits([], b);
  }

  /**
  A valid packet behind noise without a header in any of its four-byte blocks is received exactly when the noise is made of
  whole blocks; then it is the only packet and nothing is left over.
  */
  lemma NoiseSurvivedIff(noise: Bytes, g: Bytes)
    requires NoHeaderAtBlocks(noise) && LengthOk(|g|) && PacketValid(g)
    ensures g in Feed([], noise + g).1 <==> |noise| % 4 == 0
    ensures |noise| % 4 == 0 ==> Feed([], noise + g) == ([], [g])
  {
    hide PacketValid, Length, Feed, NoHeaderAtBlocks;
    var stray := noise[|noise| - |noise| % 4..];
    FeedNoise(noise);
    FeedOfSum([], noise, g);
    assert [] + Feed(stray, g).1 == Feed(stray, g).1;
    if |noise| % 4 == 0 {
      assert stray == [];
      FeedPacket(g);
    } else {
      PacketFields(g);
      StrayBytesLosePacket(stray, g);
    }
  }

  // ---- any stream, segment by segment ----

  /**
  What a reset receiver takes at a time: four bytes that are no header; a header and a length that is refused; or a header,
  an admissible length and as many bytes as it says.
  */
  predicate IsSegment(s: Bytes) {
    || (|s| == 4 && s != HEADER)
    || (|s| == 8 && s[..4] == HEADER && !(16 <= Length(s[4..8]) < 8388608))
    || (|s| >= 16 && s[..4] == HEADER && Length(s[4..8]) == |s| < 8388608)
  }

  /** Of all segments only valid packets are delivered, and after every segment the receiver is reset. */
  lemma FeedSegment(s: Bytes)
    requires IsSegment(s)
    ensures Feed([], s) == ([], if |s| >= 16 && PacketValid(s) then [s] else [])
  {
    hide PacketValid, Length, Feed;
    if |s| == 4 {
      WrongHeader(s);
    } else {
      FeedHeader(s[..4]);
      FeedOfSum([], s[..4], s[4..8]);
      FeedToBoundary(s[..4], s[4..8]);
      assert s[..4] + s[4..8] == s[..8] && s[..8][4..8] == s[4..8];
      assert [] + Judge(s[..8]).1 == Judge(s[..8]).1;
      if |s| == 8 {
        assert s[..8] == s;
      } else {
        FeedRest(s);
      }
    }
  }

  lemma FeedHeader(h: Bytes)
    requires h == HEADER
    ensures Feed([], h) == (h, [])
  {
    hide PacketValid, Length, Feed;
    assert [] + h == h;
    FeedToBoundary([], h);
  }

  lemma FeedRest(s: Bytes)
    requires |s| >= 16 && s[..4] == HEADER && Length(s[4..8]) == |s| < 8388608 && Feed([], s[..8]) == Judge(s[..8])
    ensures Feed([], s) == ([], if PacketValid(s) then [s] else [])
  {
    hide PacketValid, Length, Feed;
    var front, c := s[..8], s[8..];
    assert front[4..8] == s[4..8] && front[..4] == s[..4] && s == front + c;
    FeedToBoundary(front, c);
    FeedOfSum([], front, c);
    FullPacketJudged(s);
    assert [] + Judge(s).1 == Judge(s).1;
  }

  lemma FullPacketJudged(s: Bytes)
    requires |s| >= 16 && s[..4] == HEADER && Length(s[4..8]) == |s| < 8388608
    ensures Judge(s) == ([], if PacketValid(s) then [s] else [])
  {
  }

  function ValidOnes(segments: seq<Bytes>): seq<Bytes> {
    if segments == [] then []
    else (if |segments[0]| >= 16 && PacketValid(segments[0]) then [segments[0]] else []) + ValidOnes(segments[1..])
  }

  /** A stream of segments, good and bad in any order, delivers exactly the valid packets among them, and nothing is left over. */
  lemma {:induction false} SegmentsDeliverValidOnes(segments: seq<Bytes>)
    requires forall i :: 0 <= i < |segments| ==> IsSegment(segments[i])
    ensures Feed([], Concat(segments)) == ([], ValidOnes(segments))
  {
    hide PacketValid, Feed, IsSegment;
    if segments == [] {
      assert Feed([], []) == ([], []) by { FedNothing(); }
    } else {
      FeedSegment(segments[0]);
      SegmentsDeliverValidOnes(segments[1..]);
      FeedOfSum([], segments[0], Concat(segments[1..]));
    }
  }

  lemma FedNothing()
    ensures Feed([], []) == ([], [])
  {
  }

  /** After a length that is refused the receiver starts afresh: all packets that follow are delivered. */
  lemma RefusedLengthRecovers(n: nat, payloads: seq<Bytes>)
    requires n < 0x1_0000_0000 && (n < 16 || n >= 8388608) && AllCanEncode(payloads)
    ensures Feed([], HEADER + LengthBytes(n, 4) + Concat(EncodeAll(payloads))) == ([], EncodeAll(payloads))
  {
    hide PacketValid, Feed, Length, LengthBytes;
    var bad := HEADER + LengthBytes(n, 4);
    assert bad[4..8] == LengthBytes(n, 4) && bad[..4] == HEADER;
    BigEnough();
    LengthRoundTrip(n, 4);
    FeedSegment(bad);
    FramingRoundTrip(payloads);
    FeedOfSum([], bad, Concat(EncodeAll(payloads)));
    assert [] + EncodeAll(payloads) == EncodeAll(payloads);
  }

  /** After a packet of the right length that is not valid, too. */
  lemma InvalidPacketRecovers(bad: Bytes, payloads: seq<Bytes>)
    requires 16 <= |bad| < 8388608 && bad[..4] == HEADER && Length(bad[4..8]) == |bad| && !PacketValid(bad)
    requires AllCanEncode(payloads)
    ensures Feed([], bad + Concat(EncodeAll(payloads))) == ([], EncodeAll(payloads))
  {
    hide PacketValid, Feed, Length;
    FeedSegment(bad);
    FramingRoundTrip(payloads);
    FeedOfSum([], bad, Concat(EncodeAll(payloads)));
    assert [] + EncodeAll(payloads) == EncodeAll(payloads);
  }

  lemma PacketFields(g: Bytes)
    requires LengthOk(|g|) && PacketValid(g)
    ensures g[..4] == HEADER && Length(g[4..8]) == |g|
  {
  }

  predicate AllCanEncode(payloads: seq<Bytes>) {
    forall i | 0 <= i < |payloads| :: CanEncode(payloads[i])
  }

  function EncodeAll(payloads: seq<Bytes>): (r: seq<Bytes>)
    requires AllCanEncode(payloads)
    ensures |r| == |payloads|
  {
    seq(|payloads|, i requires 0 <= i < |payloads| => Encode(payloads[i]))
  }

  function Concat(ss: seq<Bytes>): Bytes {
    if ss == [] then [] else ss[0] + Concat(ss[1..])
  }

  /** Any list of payloads, encoded one after another, comes out of a reset receiver as it went in. */
  lemma {:induction false} FramingRoundTrip(payloads: seq<Bytes>)
    requires AllCanEncode(payloads)
    ensures Feed([], Concat(EncodeAll(payloads))) == ([], EncodeAll(payloads))
    ensures forall i | 0 <= i < |payloads| :: Payload(EncodeAll(payloads)[i]) == payloads[i]
  {
    hide Encode, Payload, PacketValid, Push;
    forall i | 0 <= i < |payloads| ensures Payload(EncodeAll(payloads)[i]) == payloads[i] {
      EncodeIsValid(payloads[i]);
    }
    if payloads != [] {
      var first, rest := Encode(payloads[0]), EncodeAll(payloads[1..]);
      EncodeIsValid(payloads[0]);
      FeedPacket(first);
      FramingRoundTrip(payloads[1..]);
      FeedOfSum([], first, Concat(rest));
      assert EncodeAll(payloads) == [first] + rest;
    }
  }

  /** Only valid packets of an acceptable length are ever accepted. */
  lemma {:induction false} AcceptedAreValid(got: Bytes, s: Bytes)
    requires Partial(got)
    ensures forall i | 0 <= i < |Feed(got, s).1| ::
              var g := Feed(got, s).1[i]; 16 <= |g| < 8388608 && PacketValid(g)
    decreases s
  {
    if s != [] {
      hide PacketValid, Length, Partial;
      PushKeepsPartial(got, s[0]);
      PushAcceptsValid(got, s[0]);
      AcceptedAreValid(Push(got, s[0]).0, s[1..]);
    }
  }

  lemma PushAcceptsValid(got: Bytes, b: bv8)
    requires Partial(got)
    ensures forall i | 0 <= i < |Push(got, b).1| ::
              var g := Push(got, b).1[i]; LengthOk(|g|) && PacketValid(g)
  {
    hide PacketValid, Length;
    if |got| >= 8 {
      assert (got + [b])[4..8] == got[4..8];
    }
  }

  // ---- error detection ----

  /** The bytes that the checksum covers. */
  function Covered(g: Bytes): Bytes
    requires |g| >= 8
  {
    g[..|g| - 8]
  }

  function StoredCrc(g: Bytes): bv32
    requires |g| >= 8
  {
    Word(g[|g| - 8..|g| - 4])
  }

  /** Of two packets that differ in one aligned word of what their equal checksums cover, at most one is valid. */
  lemma WordErrorInvalidates(g: Bytes, h: Bytes, k: nat)
    requires |g| == |h| >= 16 && StoredCrc(g) == StoredCrc(h) && Covered(g) != Covered(h)
    requires forall i | 0 <= i < |g| - 8 && !(4 * k <= i < 4 * k + 4) :: g[i] == h[i]
    ensures !(PacketValid(g) && PacketValid(h))
  {
    hide CrcOf, Word, Length;
    var i :| 0 <= i < |g| - 8 && g[i] != h[i];
    WordErrorsAreDetected(0xffff_ffff, Covered(g), Covered(h), k);
  }

  /** The same for a burst of at most 32 bits anywhere in the bit order of the checksum. */
  lemma BurstErrorInvalidates(g: Bytes, h: Bytes)
    requires |g| == |h| >= 16 && StoredCrc(g) == StoredCrc(h)
    requires |MessageBits(Covered(g))| == |MessageBits(Covered(h))|
    requires IsBurst(XorBits(MessageBits(Covered(g)), MessageBits(Covered(h))))
    ensures !(PacketValid(g) && PacketValid(h))
  {
    hide CrcOf, Word, Length;
    BurstErrorsAreDetected(0xffff_ffff, Covered(g), Covered(h));
  }

  /**
  The checksum stored in a valid packet is the remainder of the covered bytes, from the start value that the packet format
  prescribes: header, length and payload, and neither the checksum itself nor the tail.
  */
  lemma StoredCrcIsRemainder(g: Bytes) returns (q: seq<bool>)
    requires |g| >= 16 && PacketValid(g)
    ensures var dividend := RegBits(0x46af6449, 32) + (MessageBits(g[..|g| - 8]) + Zeros(32));
            && |dividend| == |q| + 32
            && dividend == XorBits(TimesGenerator(q), Zeros(|q|) + RegBits(Word(g[|g| - 8..|g| - 4]), 32))
  {
    hide CrcOf, Word, Length;
    q := ChecksumIsPolynomialRemainder(g[..|g| - 8]);
  }
}
