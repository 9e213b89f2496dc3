/** The packets and the per-socket state of socket_object.h. */
module SocketObjects {
  import opened ReceiveLimits
  import opened SendQueues

  /** A size passed on as `int32_t`. */
  function AsInt32(n: nat): (r: int)
    ensures r <= n && -0x8000_0000 <= r < 0x8000_0000
    ensures n < 0x8000_0000 ==> r == n
  {
    var low := n % TWO32;
    if low < 0x8000_0000 then low else low - TWO32
  }

  predicate SizeOk(nbytes: int) {
    0 < nbytes < MAX_SIZE_OF_MSG_PACKET
  }

  /** A message that is taken at all is taken whole exactly when its size is in range before it is cut to 32 bits. */
  lemma TakenWholeIff(msg: Bytes)
    requires SizeOk(AsInt32(|msg|))
    ensures msg[..AsInt32(|msg|)] == msg <==> |msg| < 16 * 1024 * 1024
  {
    assert |msg[..AsInt32(|msg|)]| == AsInt32(|msg|);
  }

  /** The offsets stand for the pointers into the payload, which a packet of a size out of range leaves uninitialized. */
  class MsgPacket {
    const payload: Bytes
    var begin: nat // how much of the payload has gone
    const end: nat

    ghost predicate Valid()
      reads this
    {
      begin <= end == |payload|
    }

    ghost function Rest(): Bytes
      requires Valid()
      reads this
    {
      payload[begin..]
    }

    constructor (data: array<bv8>, nbytes: int)
      requires nbytes <= data.Length
      ensures SizeOk(nbytes) ==> Valid() && Rest() == data[..nbytes]
      ensures !SizeOk(nbytes) ==> payload == []
    {
      if 0 < nbytes < MAX_SIZE_OF_MSG_PACKET {
        payload := data[..nbytes];
        begin, end := 0, nbytes;
      } else {
        payload := [];
        begin, end := *, *;
      }
    }

    method Size() returns (n: nat)
      requires Valid()
      ensures n == |Rest()|
    {
      n := end - begin;
    }

    /** Takes bytes off the front, but never more than there are. */
    method Reduce(length: nat)
      requires Valid()
      modifies this
      ensures Valid()
      ensures Rest() == if length < |old(Rest())| then old(Rest())[length..] else []
    {
      var size := Size();
      begin := begin + if length < size then length else size;
    }
  }

  class SocketObject {
    var outPackets: seq<MsgPacket>
    ghost var written: Bytes // what the kernel has taken
    var isValid: bool

    var receiveLimit: bool
    var maxRxBytes: UInt32
    var maxRxPackets: UInt32
    var rxBytesCount: UInt32
    var rxPacketsCount: UInt32
    var lastRxTimeMs: UInt64

    /** The queued packets are different objects, all in order. */
    ghost predicate Valid()
      reads this, outPackets
    {
      && |outPackets| <= MAX_PACKETS
      && (forall i :: 0 <= i < |outPackets| ==> outPackets[i].Valid())
      && forall i, j :: 0 <= i < j < |outPackets| ==> outPackets[i] != outPackets[j]
    }

    ghost function Queue(): (q: seq<Bytes>)
      requires Valid()
      reads this, outPackets
      ensures |q| == |outPackets|
    {
      seq(|outPackets|, i requires 0 <= i < |outPackets| && outPackets[i].Valid() reads this, outPackets => outPackets[i].Rest())
    }

    lemma FrontQueue()
      requires Valid()
      ensures outPackets == [] <==> Queue() == []
      ensures outPackets != [] ==> Queue()[0] == outPackets[0].Rest()
    {
    }

    ghost function Out(): Outgoing
      requires Valid()
      reads this, outPackets
    {
      Outgoing(Queue(), written)
    }

    constructor ()
      ensures Valid() && Out() == Outgoing([], []) && !receiveLimit
    {
      outPackets, written := [], [];
      isValid, receiveLimit := false, false;
      maxRxBytes, maxRxPackets := *, *;
      rxBytesCount, rxPacketsCount, lastRxTimeMs := *, *, *;
    }

    /** The size is cut to 32 bits; a size out of range queues a packet that no other method may be used on. */
    method PushMsg(buf: array<bv8>, nbytes: nat) returns (rc: int)
      requires Valid() && nbytes <= buf.Length
      modifies this`outPackets
      ensures rc == if |old(outPackets)| < MAX_PACKETS then 0 else -1
      ensures rc == -1 || SizeOk(AsInt32(nbytes)) ==> Valid()
      ensures rc == -1 ==> Out() == old(Out())
      ensures SizeOk(AsInt32(nbytes)) ==> Out() == DoStep(old(Out()), Push(buf[..AsInt32(nbytes)]))
      ensures rc == 0 && SizeOk(AsInt32(nbytes)) ==> Queue() == old(Queue()) + [buf[..AsInt32(nbytes)]]
      ensures rc == 0 ==> |outPackets| == |old(outPackets)| + 1 && outPackets[..|old(outPackets)|] == old(outPackets)
      ensures rc == 0 && !SizeOk(AsInt32(nbytes)) ==> outPackets[|old(outPackets)|].payload == []
    {
      hide AsInt32;
      if |outPackets| >= MAX_PACKETS {
        return -1;
      }
      ghost var before := Queue();
      var pack := new MsgPacket(buf, AsInt32(nbytes));
      outPackets := outPackets + [pack];
      if SizeOk(AsInt32(nbytes)) {
        assert Queue() == before + [pack.Rest()];
      }
      return 0;
    }

    method FrontOutPacket() returns (packet: MsgPacket)
      requires Valid() && outPackets != []
      ensures packet == outPackets[0]
    {
      packet := outPackets[0];
    }

    method PopOutPacket()
      requires Valid() && outPackets != []
      modifies this`outPackets
      ensures Valid() && outPackets == old(outPackets)[1..] && Queue() == old(Queue())[1..]
      ensures old(outPackets[0].Rest()) == [] ==> Out() == DoStep(old(Out()), Pop)
    {
      outPackets := outPackets[1..];
    }

    /** Some of the first packet goes out: the kernel takes `n` bytes of a write, and the packet is reduced by as many. */
    method WriteFront(packet: MsgPacket, n: nat)
      requires Valid() && outPackets != [] && packet == outPackets[0] && 0 < n <= |packet.Rest()|
      modifies this`written, packet
      ensures Valid() && outPackets == old(outPackets)
      ensures Out() == Outgoing([old(Queue())[0][n..]] + old(Queue())[1..], old(written) + old(Queue())[0][..n])
    {
      ghost var before := Queue();
      written := written + packet.Rest()[..n];
      packet.Reduce(n);
      assert Queue() == [before[0][n..]] + before[1..];
    }

    method OutPacketEmpty() returns (b: bool)
      ensures b <==> outPackets == []
    {
      b := outPackets == [];
    }

    // ---- the receive limit ----

    function Limit(): Limiter
      reads this
    {
      Limiter(maxRxBytes, rxBytesCount, lastRxTimeMs)
    }

    method SetReceiveBytesLimit(bytes: UInt32)
      modifies this`receiveLimit, this`maxRxBytes, this`maxRxPackets, this`lastRxTimeMs
      ensures Limit() == Fresh(bytes, old(rxBytesCount)) && maxRxPackets == 0
      ensures receiveLimit <==> bytes > 0
    {
      if bytes > 0 {
        receiveLimit, maxRxBytes, maxRxPackets := true, bytes, 0;
      } else {
        receiveLimit, maxRxBytes, maxRxPackets := false, 0, 0;
      }
      lastRxTimeMs := 0;
    }

    method CountReceivedBytes(bytes: UInt32, nowInMs: UInt64)
      modifies this`rxBytesCount, this`lastRxTimeMs
      ensures Limit() == Count(old(Limit()), Chunk(bytes, nowInMs))
    {
      if (nowInMs - lastRxTimeMs) % TWO64 >= 1000 {
        rxBytesCount := 0;
        lastRxTimeMs := nowInMs;
      }
      rxBytesCount := (rxBytesCount + bytes) % TWO32;
    }

    method IsReceiveOverflow() returns (b: bool)
      ensures b <==> (maxRxPackets > 0 && rxPacketsCount > maxRxPackets) || Overflows(Limit())
    {
      b := (maxRxPackets > 0 && rxPacketsCount > maxRxPackets) || (maxRxBytes > 0 && rxBytesCount > maxRxBytes);
    }
  }
}
