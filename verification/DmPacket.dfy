/** The resumable packet reader of src/examples/dm_packet.cpp over its two buffers. */
module DmPacketReader {
  import opened DmFraming
  import opened DmReceiver
  import opened Crc

  class DmPacket {
    const headerBuf: array<bv8>
    var pBuf: array?<bv8>
    var pos: nat
    var len: nat
    var remainLen: nat

    ghost predicate Valid()
      reads this, headerBuf, (if pBuf == null then {} else {pBuf})
    {
      && headerBuf.Length == 8 && pBuf != headerBuf
      && (pos < 8 ==> pBuf == null && len == 0 && remainLen == 0)
      && (4 <= pos < 8 ==> headerBuf[..4] == HEADER)
      && (pos >= 8 ==>
            && pBuf != null && pBuf.Length == len == pos + remainLen && LengthOk(len)
            && pBuf[..4] == HEADER && Length(pBuf[4..8]) == len)
      && (pos >= 8 && remainLen == 0 ==> PacketValid(pBuf[..]))
    }

    /** An accepted packet waits in `pBuf` for its owner. */
    predicate Accepted()
      reads this
    {
      pos >= 8 && remainLen == 0
    }

    /** The bytes held of the current packet; none once it has been accepted. */
    ghost function Held(): Bytes
      requires Valid()
      reads this, headerBuf, (if pBuf == null then {} else {pBuf})
    {
      if pos < 8 then headerBuf[..pos] else if remainLen > 0 then pBuf[..pos] else []
    }

    lemma HeldIsPartial()
      requires Valid()
      ensures Partial(Held()) && (!Accepted() ==> |Held()| == pos)
    {
      hide PacketValid, Length;
      if pos >= 8 && remainLen > 0 {
        assert pBuf[..pos][..4] == pBuf[..4] && pBuf[..pos][4..8] == pBuf[4..8];
      } else if 4 <= pos < 8 {
        assert headerBuf[..pos][..4] == headerBuf[..4];
      }
    }

    constructor ()
      ensures Valid() && Held() == [] && fresh(headerBuf) && pBuf == null
    {
      headerBuf := new bv8[8];
      pBuf, pos, len, remainLen := null, 0, 0, 0;
    }

    /** `Reset` (src/examples/dm_packet.h:28-36). */
    method Reset()
      requires headerBuf.Length == 8
      modifies this
      ensures Valid() && pos == 0 && Held() == [] && pBuf == null
    {
      pos, len, remainLen := 0, 0, 0;
      if pBuf != null {
        pBuf := null;
      }
    }

    /** The first four bytes (src/examples/dm_packet.cpp:71-78). */
    method TakeHeader(buf: array<bv8>, off: nat, rxLen: nat) returns (n: nat)
      requires Valid() && pos < HEADER_SIZE && 0 < rxLen && off + rxLen <= buf.Length && buf != headerBuf
      modifies this, headerBuf
      ensures Valid() && pBuf == null && 0 < n <= rxLen && !Accepted()
      ensures Feed(old(Held()), buf[off..off + n]) == (Held(), [])
    {
      hide PacketValid, Length, Feed;
      ghost var got := Held();
      HeldIsPartial();
      n := if HEADER_SIZE - pos > rxLen then rxLen else HEADER_SIZE - pos;
      ghost var chunk := buf[off..off + n];
      Copy(buf, off, headerBuf, pos, n);
      pos := pos + n;
      assert headerBuf[..pos] == got + chunk;
      if pos >= HEADER_SIZE {
        FeedToBoundary(got, chunk);
        if headerBuf[..4] != HEADER {
          Reset();
        }
      } else {
        FeedBelowBoundary(got, chunk);
      }
    }

    /** The next four bytes, the packet's length (src/examples/dm_packet.cpp:79-97). */
    method TakeLength(buf: array<bv8>, off: nat, rxLen: nat) returns (n: nat)
      requires Valid() && HEADER_SIZE <= pos < DATA_POS && 0 < rxLen && off + rxLen <= buf.Length && buf != headerBuf
      modifies this, headerBuf
      ensures Valid() && (pBuf == null || fresh(pBuf)) && 0 < n <= rxLen && !Accepted()
      ensures Feed(old(Held()), buf[off..off + n]) == (Held(), [])
    {
      hide PacketValid, Length, Feed;
      ghost var got := Held();
      HeldIsPartial();
      n := if DATA_POS - pos > rxLen then rxLen else DATA_POS - pos;
      ghost var chunk := buf[off..off + n];
      Copy(buf, off, headerBuf, pos, n);
      assert headerBuf[..pos + n] == got + chunk;
      assert headerBuf[..4] == (got + chunk)[..4] == got[..4];
      pos := pos + n;
      if pos == DATA_POS {
        FeedToBoundary(got, chunk);
        var msgLen := Length(headerBuf[4..8]);
        assert headerBuf[4..8] == (got + chunk)[4..8];
        if msgLen >= 16 && msgLen < MAX_MSG_SIZE {
          pBuf := new bv8[msgLen];
          Copy(headerBuf, 0, pBuf, 0, DATA_POS);
          len := msgLen;
          remainLen := msgLen - DATA_POS;
          assert pBuf[..8] == headerBuf[..8] == got + chunk;
          assert pBuf[..4] == pBuf[..8][..4] && pBuf[4..8] == pBuf[..8][4..8];
        } else {
          Reset();
        }
      } else {
        FeedBelowBoundary(got, chunk);
      }
    }

    /** The rest of the packet (src/examples/dm_packet.cpp:98-111). */
    method TakeData(buf: array<bv8>, off: nat, rxLen: nat) returns (n: nat)
      requires Valid() && pos >= DATA_POS && remainLen > 0 && 0 < rxLen && off + rxLen <= buf.Length
      requires buf != headerBuf && buf != pBuf
      modifies this, pBuf
      ensures Valid() && (pBuf == null || pBuf == old(pBuf)) && 0 < n <= rxLen
      ensures Feed(old(Held()), buf[off..off + n]) == (Held(), if Accepted() then [pBuf[..]] else [])
    {
      hide PacketValid, Length, Feed;
      ghost var got := Held();
      HeldIsPartial();
      n := if remainLen > rxLen then rxLen else remainLen;
      ghost var chunk := buf[off..off + n];
      assert got[4..8] == pBuf[4..8];
      Copy(buf, off, pBuf, pos, n);
      assert pBuf[..pos + n] == got + chunk;
      assert pBuf[..4] == (got + chunk)[..4] == got[..4] && pBuf[4..8] == (got + chunk)[4..8] == got[4..8];
      pos := pos + n;
      remainLen := remainLen - n;
      if remainLen == 0 {
        FeedToBoundary(got, chunk);
        assert pBuf[..] == got + chunk;
        var ok := IsDmPacketValid(pBuf, len);
        if !ok {
          Reset();
        }
      } else {
        FeedBelowBoundary(got, chunk);
      }
    }

    /** One round of the reader's loop; `n0` is what the round before consumed (src/examples/dm_packet.cpp:70-115). */
    method Round(buf: array<bv8>, off: nat, rxLen: nat, n0: nat) returns (n: nat)
      requires Valid() && 0 < rxLen && off + rxLen <= buf.Length && buf != headerBuf && buf != pBuf
      requires Accepted() ==> n0 == 0
      modifies this, headerBuf, (if pBuf == null then {} else {pBuf})
      ensures Valid() && (pBuf == null || pBuf == old(pBuf) || fresh(pBuf)) && n <= rxLen
      ensures if old(Accepted()) then n == 0 && !Accepted() else n > 0
      ensures Feed(old(Held()), buf[off..off + n]) == (Held(), if Accepted() then [pBuf[..]] else [])
    {
      hide PacketValid, Length, Feed;
      if pos < HEADER_SIZE {
        n := TakeHeader(buf, off, rxLen);
      } else if pos < DATA_POS {
        n := TakeLength(buf, off, rxLen);
      } else if remainLen > 0 {
        n := TakeData(buf, off, rxLen);
      } else {
        n := n0;
        assert buf[off..off] == [];
        NothingFed(Held());
        Reset();
      }
    }

    /** The reader's loop (src/examples/dm_packet.cpp:64-121). */
    method Read(buf: array<bv8>, start: nat, nbytes: nat) returns (ok: bool, bRLen: nat)
      requires Valid() && start + nbytes <= buf.Length && buf != headerBuf && buf != pBuf
      modifies this, headerBuf, (if pBuf == null then {} else {pBuf})
      ensures Valid() && (pBuf == null || pBuf == old(pBuf) || fresh(pBuf)) && bRLen <= nbytes
      ensures (ok <==> Accepted() && nbytes > 0) && (!ok ==> bRLen == nbytes)
      ensures Feed(old(Held()), buf[start..start + bRLen]) == (Held(), if ok then [pBuf[..]] else [])
    {
      hide PacketValid, Length, Feed, Held;
      var n: nat := 0;
      var off: nat, rxLen: nat := start, nbytes;
      bRLen := 0;
      ghost var got := Held();
      NothingFed(got);
      assert buf[start..start] == [];
      while rxLen > 0
        invariant off == start + bRLen && rxLen == nbytes - bRLen
        invariant Valid() && buf != pBuf && (pBuf == null || pBuf == old(pBuf) || fresh(pBuf))
        invariant Feed(got, buf[start..off]) == (Held(), [])
        // A packet that was accepted earlier is dropped by the first round, which consumes nothing: `n` is still 0.
        invariant Accepted() ==> n == 0 && bRLen == 0
        invariant nbytes > 0 && rxLen == 0 ==> !Accepted()
        decreases rxLen, Accepted()
      {
        n := Round(buf, off, rxLen, n);
        JoinFeeds(got, buf[start..off], buf[off..off + n]);
        assert buf[start..off] + buf[off..off + n] == buf[start..off + n];
        off := off + n;
        rxLen := rxLen - n;
        bRLen := bRLen + n;
        if Accepted() {
          return true, bRLen;
        }
      }
      return false, bRLen;
    }
  }

  /** `IsDmPacketValid` (src/examples/dm_packet.cpp:40-57). */
  method IsDmPacketValid(msgBuf: array<bv8>, msgLen: nat) returns (ok: bool)
    requires 8 <= msgLen <= msgBuf.Length
    ensures ok <==> PacketValid(msgBuf[..msgLen])
  {
    hide CrcOf, Word, Length;
    ghost var g := msgBuf[..msgLen];
    if msgBuf[..4] != HEADER {
      assert g[..4] != HEADER;
      return false;
    }
    assert msgBuf[4..8] == g[4..8];
    if Length(msgBuf[4..8]) != msgLen {
      return false;
    }
    assert msgBuf[msgLen - 4..msgLen] == g[msgLen - 4..];
    if msgBuf[msgLen - 4..msgLen] != TAIL {
      return false;
    }
    assert msgBuf[msgLen - 8..msgLen - 4] == g[msgLen - 8..msgLen - 4] && msgBuf[..msgLen - 8] == g[..msgLen - 8];
    var msgCrc := Word(msgBuf[msgLen - 8..msgLen - 4]);
    var actualCrc := GetStm32Crc(0xffff_ffff, msgBuf, msgLen - 8);
    ok := msgCrc == actualCrc;
  }

  /**
  `DmPacketRead` (src/examples/dm_packet.cpp:59-122): reads until a packet is accepted or the bytes run out. Without
  a packet object `bRLen` stays what it was.
  */
  method DmPacketRead(p: DmPacket?, buf: array<bv8>, start: nat, nbytes: nat, bRLen0: nat)
    returns (ok: bool, bRLen: nat)
    requires start + nbytes <= buf.Length
    requires p != null ==> p.Valid() && buf != p.headerBuf && buf != p.pBuf
    modifies p, (if p == null then {} else {p.headerBuf}), (if p == null || p.pBuf == null then {} else {p.pBuf})
    ensures p == null ==> !ok && bRLen == bRLen0
    ensures p != null ==>
              && p.Valid() && (p.pBuf == null || p.pBuf == old(p.pBuf) || fresh(p.pBuf)) && bRLen <= nbytes
              && (ok <==> p.Accepted() && nbytes > 0) && (!ok ==> bRLen == nbytes)
              && Feed(old(p.Held()), buf[start..start + bRLen]) == (p.Held(), if ok then [p.pBuf[..]] else [])
  {
    hide PacketValid, Length, Feed, DmPacket.Held, DmPacket.Valid, DmPacket.Accepted;
    if p == null {
      return false, bRLen0;
    }
    ok, bRLen := p.Read(buf, start, nbytes);
  }

  lemma NothingFed(got: Bytes)
    ensures Feed(got, []) == (got, [])
  {
  }

  lemma JoinFeeds(got: Bytes, s: Bytes, t: Bytes)
    requires Feed(got, s).1 == []
    ensures Feed(got, s + t) == Feed(Feed(got, s).0, t)
  {
    FeedOfSum(got, s, t);
    assert [] + Feed(Feed(got, s).0, t).1 == Feed(Feed(got, s).0, t).1;
  }

  // ---- driving the reader ----

  /**
  A caller's loop over one chunk: the reader is called again on what it has left until it has taken everything. The
  packets it accepts and the bytes it holds afterwards are those of the byte-at-a-time machine.
  */
  method ReadChunk(p: DmPacket, buf: array<bv8>) returns (packets: seq<Bytes>)
    requires p.Valid() && buf != p.headerBuf && buf != p.pBuf
    modifies p, p.headerBuf, (if p.pBuf == null then {} else {p.pBuf})
    ensures p.Valid() && (p.pBuf == null || p.pBuf == old(p.pBuf) || fresh(p.pBuf))
    ensures Feed(old(p.Held()), buf[..]) == (p.Held(), packets)
  {
    hide PacketValid, Length, Feed;
    packets := [];
    var off := 0;
    ghost var got := p.Held();
    NothingFed(got);
    while off < buf.Length
      invariant off <= buf.Length
      invariant p.Valid() && buf != p.pBuf && (p.pBuf == null || p.pBuf == old(p.pBuf) || fresh(p.pBuf))
      invariant Feed(got, buf[..off]) == (p.Held(), packets)
      decreases buf.Length - off
    {
      var ok, n := DmPacketRead(p, buf, off, buf.Length - off, 0);
      FeedOfSum(got, buf[..off], buf[off..off + n]);
      assert buf[..off] + buf[off..off + n] == buf[..off + n];
      if ok {
        packets := packets + [p.pBuf[..]];
      }
      assert !ok ==> packets + [] == packets;
      off := off + n;
    }
    assert buf[..off] == buf[..];
  }

  /**
  Chunking does not matter: however a stream is cut into chunks, the packets accepted and the bytes still held are
  those of the whole stream.
  */
  method ReadStream(p: DmPacket, chunks: seq<array<bv8>>) returns (packets: seq<Bytes>)
    requires p.Valid() && forall i | 0 <= i < |chunks| :: chunks[i] != p.headerBuf && chunks[i] != p.pBuf
    modifies p, p.headerBuf, (if p.pBuf == null then {} else {p.pBuf})
    ensures p.Valid()
    ensures Feed(old(p.Held()), Stream(chunks)) == (p.Held(), packets)
  {
    hide PacketValid, Length, Feed;
    packets := [];
    ghost var got := p.Held();
    NothingFed(got);
    for i := 0 to |chunks|
      invariant p.Valid() && (p.pBuf == null || p.pBuf == old(p.pBuf) || fresh(p.pBuf))
      invariant forall k | 0 <= k < |chunks| :: chunks[k] != p.pBuf
      invariant Feed(got, Stream(chunks[..i])) == (p.Held(), packets)
    {
      var more := ReadChunk(p, chunks[i]);
      FeedOfSum(got, Stream(chunks[..i]), chunks[i][..]);
      assert chunks[..i + 1][..i] == chunks[..i];
      packets := packets + more;
    }
    assert chunks[..|chunks|] == chunks;
  }

  /** The bytes of the chunks, one chunk after another. */
  ghost function Stream(chunks: seq<array<bv8>>): Bytes
    reads chunks
  {
    if chunks == [] then [] else Stream(chunks[..|chunks| - 1]) + chunks[|chunks| - 1][..]
  }

  /** `memcpy`. */
  method Copy(src: array<bv8>, off: nat, dst: array<bv8>, at: nat, n: nat)
    requires src != dst && off + n <= src.Length && at + n <= dst.Length
    modifies dst
    ensures dst[..at] == old(dst[..at]) && dst[at..at + n] == src[off..off + n]
    ensures dst[at + n..] == old(dst[at + n..])
  {
    forall i | 0 <= i < n {
      dst[at + i] := src[off + i];
    }
  }
}
