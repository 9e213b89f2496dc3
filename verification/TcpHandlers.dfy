/** The event handlers that drive one socket: `HandleSend` of tcp_server.cpp and `HandleReceive` of tcp_client.cpp. */
module TcpHandlers {
  import opened ReceiveLimits
  import opened SendQueues
  import opened SocketObjects

  /**
  Writes out the queue, packet by packet, for as long as the kernel takes something. `results` are the kernel's answers to
  the writes, in order, and after them it would block.
  */
  method HandleSend(s: SocketObject, results: seq<int>)
    requires s.Valid()
    modifies s, s.outPackets
    ensures s.Valid() && s.isValid == old(s.isValid)
    ensures s.Out() == if s.isValid then Sent(old(s.Out()), results) else old(s.Out())
  {
    hide Sent, DoStep, SocketObject.Queue;
    if !s.isValid {
      return;
    }
    var at := 0;
    assert results[0..] == results;
    var empty := s.OutPacketEmpty();
    while !empty
      invariant at <= |results| && s.isValid && s.Valid() && (empty <==> s.outPackets == [])
      invariant Sent(s.Out(), results[at..]) == Sent(old(s.Out()), results)
      invariant forall p :: p in s.outPackets ==> p in old(s.outPackets)
      decreases |s.outPackets|
    {
      var packet := s.FrontOutPacket();
      var size := packet.Size();
      ghost var packets := s.outPackets;
      assert packet in old(s.outPackets);
      while size > 0
        invariant at <= |results| && s.isValid && s.Valid() && s.outPackets == packets && size == |packet.Rest()|
        invariant Sent(s.Out(), results[at..]) == Sent(old(s.Out()), results)
        decreases |results| - at
      {
        if at == |results| || results[at] <= 0 {
          s.FrontQueue();
          SentAtEnd(s.Out(), results[at..]);
          return;
        }
        s.FrontQueue();
        SentAfterWrite(s.Out(), results[at..]);
        s.WriteFront(packet, if results[at] < size then results[at] else size);
        at := at + 1;
        size := packet.Size();
      }
      s.FrontQueue();
      SentAfterPop(s.Out(), results[at..]);
      s.PopOutPacket();
      empty := s.OutPacketEmpty();
    }
    s.FrontQueue();
    SentAtEnd(s.Out(), results[at..]);
  }

  /**
  Reads until the socket has nothing more, the byte limit is exceeded or, for an ordinary event, thirty reads are done.
  `input` is what the reads return, and after it they would block; `delivered` are the chunks passed to the listener.
  */
  method HandleReceive(s: SocketObject, flag: bool, input: seq<Read>) returns (ok: bool, delivered: seq<Chunk>)
    requires s.receiveLimit ==> s.maxRxPackets == 0
    modifies s`rxBytesCount, s`lastRxTimeMs
    ensures !s.isValid ==> !ok && delivered == [] && s.Limit() == old(s.Limit())
    ensures s.isValid ==>
              var l := old(s.Limit());
              var (chunks, success) := Received(s.receiveLimit, l, input, if flag then |input| else MAX_CONTINUE_READS);
              && ok == success
              && s.Limit() == (if s.receiveLimit then CountAll(l, chunks) else l)
              && delivered == (if s.receiveLimit then Delivered(l, chunks) else chunks)
  {
    hide Count, Overflows, Received, ReceivedAfter, CountAll, Delivered;
    delivered := [];
    if !s.isValid {
      return false, [];
    }
    var most := if flag then -1 else MAX_CONTINUE_READS;
    ghost var rounds := if flag then |input| else MAX_CONTINUE_READS;
    ghost var l, limited := s.Limit(), s.receiveLimit;
    ghost var seen: seq<Chunk> := [];
    ReceivedFirst(limited, l, input, rounds);
    NothingCounted(l);
    assert input[0..] == input;
    var i := 0;
    while i < most || most < 0
      invariant i <= |input| && i <= rounds
      invariant ReceivedAfter(limited, l, seen, input[i..], rounds - i) == Received(limited, l, input, rounds)
      invariant s.Limit() == (if limited then CountAll(l, seen) else l)
      invariant delivered == (if limited then Delivered(l, seen) else seen)
      decreases |input| - i
    {
      if i == |input| || !input[i].Data? {
        ReceivedEnds(limited, l, seen, input[i..], rounds - i);
        return i == |input| || input[i].WouldBlock?, delivered;
      }
      var c := input[i].chunk;
      assert input[i..][1..] == input[i + 1..];
      ReceivedStep(limited, l, seen, input[i..], rounds - i);
      OneMore(l, seen, c);
      seen := seen + [c];
      if s.receiveLimit {
        s.CountReceivedBytes(c.bytes, c.time);
        var overflow := s.IsReceiveOverflow();
        if overflow {
          return false, delivered;
        }
      }
      delivered := delivered + [c];
      i := i + 1;
    }
    ReceivedEnds(limited, l, seen, input[i..], rounds - i);
    return true, delivered;
  }
}
