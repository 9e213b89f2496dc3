/** The queue of outgoing packets of one socket, as a machine that any number of senders and the event loop drive. */
module SendQueues {
  type Bytes = seq<bv8>

  const MAX_PACKETS := 1000
  const MAX_SIZE_OF_MSG_PACKET := 1024 * 1024 * 16

  /** What is left of every queued packet, and what has been written to the socket. */
  datatype Outgoing = Outgoing(queue: seq<Bytes>, written: Bytes)

  /** `Write(n)` is a write of the rest of the first packet of which the kernel took `n` bytes. */
  datatype SendStep = Push(msg: Bytes) | Write(n: nat) | Pop

  function Concat(parts: seq<Bytes>): Bytes {
    if parts == [] then [] else parts[0] + Concat(parts[1..])
  }

  predicate MsgOk(msg: Bytes) {
    0 < |msg| < MAX_SIZE_OF_MSG_PACKET
  }

  predicate CanStep(o: Outgoing, step: SendStep) {
    match step
    case Push(msg) => MsgOk(msg)
    case Write(n) => o.queue != [] && o.queue[0] != [] && n <= |o.queue[0]|
    case Pop => o.queue != [] && o.queue[0] == []
  }

  function DoStep(o: Outgoing, step: SendStep): Outgoing
    requires CanStep(o, step)
  {
    match step
    case Push(msg) => if |o.queue| >= MAX_PACKETS then o else o.(queue := o.queue + [msg])
    case Write(n) => o.(queue := [o.queue[0][n..]] + o.queue[1..], written := o.written + o.queue[0][..n])
    case Pop => o.(queue := o.queue[1..])
  }

  predicate CanRun(o: Outgoing, steps: seq<SendStep>)
    decreases |steps|
  {
    steps == [] || (CanStep(o, steps[0]) && CanRun(DoStep(o, steps[0]), steps[1..]))
  }

  function DoRun(o: Outgoing, steps: seq<SendStep>): Outgoing
    requires CanRun(o, steps)
    decreases |steps|
  {
    if steps == [] then o else DoRun(DoStep(o, steps[0]), steps[1..])
  }

  lemma ConcatFirst(parts: seq<Bytes>)
    requires parts != []
    ensures Concat(parts) == parts[0] + Concat(parts[1..])
  {
  }

  lemma {:induction false} ConcatOfSum(a: seq<Bytes>, b: seq<Bytes>)
    ensures Concat(a + b) == Concat(a) + Concat(b)
  {
    hide Concat;
    if a == [] {
      assert a + b == b;
      assert Concat(a) == [] by { ConcatOfNone(); }
      assert [] + Concat(b) == Concat(b);
    } else {
      ConcatOfSum(a[1..], b);
      assert (a + b)[1..] == a[1..] + b;
      ConcatFirst(a + b);
      ConcatFirst(a);
      var x, y, z := a[0], Concat(a[1..]), Concat(b);
      assert x + y + z == x + (y + z);
    }
  }

  lemma ConcatOfNone()
    ensures Concat([]) == []
  {
  }

  /** The messages of a run that are accepted, read off its steps and the number of packets queued at each: those that find room. */
  function Accepted(queued: int, steps: seq<SendStep>): seq<Bytes>
    decreases |steps|
  {
    if steps == [] then []
    else
      match steps[0]
      case Push(msg) =>
        if queued < 1000 then [msg] + Accepted(queued + 1, steps[1..]) else Accepted(queued, steps[1..])
      case Write(_) => Accepted(queued, steps[1..])
      case Pop => Accepted(queued - 1, steps[1..])
  }

  /** The bytes on the wire followed by those still queued. */
  function Stream(o: Outgoing): Bytes {
    o.written + Concat(o.queue)
  }

  lemma StepKeepsStream(o: Outgoing, step: SendStep)
    requires CanStep(o, step)
    ensures Stream(DoStep(o, step)) == Stream(o) + (if step.Push? && |o.queue| < 1000 then step.msg else [])
    ensures |o.queue| <= 1000 ==> |DoStep(o, step).queue| <= 1000
  {
    assert Stream(o) + [] == Stream(o);
    match step {
      case Push(msg) =>
        ConcatOfSum(o.queue, [msg]);
        assert Concat([msg]) == msg + Concat([]) == msg;
        assert o.written + (Concat(o.queue) + msg) == o.written + Concat(o.queue) + msg;
      case Write(n) =>
        var first, rest := o.queue[0], Concat(o.queue[1..]);
        var queue := DoStep(o, step).queue;
        assert queue[1..] == o.queue[1..];
        assert Concat(queue) == first[n..] + rest;
        assert first[..n] + first[n..] == first;
        assert o.written + first[..n] + (first[n..] + rest) == o.written + (first[..n] + first[n..] + rest);
      case Pop =>
        assert Concat(o.queue) == Concat(o.queue[1..]);
    }
  }

  lemma AcceptedFirst(o: Outgoing, steps: seq<SendStep>)
    requires steps != [] && CanStep(o, steps[0])
    ensures Concat(Accepted(|o.queue|, steps)) ==
            (if steps[0].Push? && |o.queue| < 1000 then steps[0].msg else [])
            + Concat(Accepted(|DoStep(o, steps[0]).queue|, steps[1..]))
  {
    var rest := Accepted(|DoStep(o, steps[0]).queue|, steps[1..]);
    assert [] + Concat(rest) == Concat(rest);
    if steps[0].Push? && |o.queue| < 1000 {
      assert ([steps[0].msg] + rest)[1..] == rest;
    }
  }

  /**
  For every interleaving of senders and event loop, and every way the kernel takes bytes: the stream of bytes written and bytes
  queued grows by exactly the messages accepted, in order, so no byte is lost, added or moved; and no more packets wait than may.
  */
  lemma {:induction false} EveryRunKeepsTheStream(o: Outgoing, steps: seq<SendStep>)
    requires |o.queue| <= 1000 && CanRun(o, steps)
    ensures Stream(DoRun(o, steps)) == Stream(o) + Concat(Accepted(|o.queue|, steps))
    ensures |DoRun(o, steps).queue| <= 1000
    decreases |steps|
  {
    hide CanStep, DoStep, Stream, Concat, Accepted;
    if steps != [] {
      var next := DoStep(o, steps[0]);
      StepKeepsStream(o, steps[0]);
      AcceptedFirst(o, steps);
      EveryRunKeepsTheStream(next, steps[1..]);
      var a, m, r := Stream(o), if steps[0].Push? && |o.queue| < 1000 then steps[0].msg else [],
                     Concat(Accepted(|next.queue|, steps[1..]));
      assert a + m + r == a + (m + r);
    } else {
      NothingAccepted(|o.queue|);
      assert Stream(o) + [] == Stream(o);
    }
  }

  lemma NothingAccepted(queued: int)
    ensures Concat(Accepted(queued, [])) == []
  {
  }

  // ---- what one call of `HandleSend` does ----

  /** The rest of the queue and the bytes written, when the kernel answers the writes with `results`, and then that it would block. */
  function Drain(queue: seq<Bytes>, results: seq<int>): (seq<Bytes>, Bytes)
    decreases |queue| + |results|
  {
    if queue == [] then ([], [])
    else if queue[0] == [] then Drain(queue[1..], results)
    else if results == [] || results[0] <= 0 then (queue, [])
    else
      var n := if results[0] < |queue[0]| then results[0] else |queue[0]|;
      var (rest, more) := Drain([queue[0][n..]] + queue[1..], results[1..]);
      (rest, queue[0][..n] + more)
  }

  function Sent(o: Outgoing, results: seq<int>): Outgoing {
    var (rest, more) := Drain(o.queue, results);
    Outgoing(rest, o.written + more)
  }

  /** Of one write the kernel takes `results[0]` bytes, but no more than there are, and exactly those leave the first packet. */
  lemma SentAfterWrite(o: Outgoing, results: seq<int>)
    requires o.queue != [] && o.queue[0] != [] && results != [] && results[0] > 0
    ensures var n := if results[0] < |o.queue[0]| then results[0] else |o.queue[0]|;
            Sent(o, results) ==
            Sent(Outgoing([o.queue[0][n..]] + o.queue[1..], o.written + o.queue[0][..n]), results[1..])
  {
    var n := if results[0] < |o.queue[0]| then results[0] else |o.queue[0]|;
    var more := Drain([o.queue[0][n..]] + o.queue[1..], results[1..]).1;
    assert o.written + o.queue[0][..n] + more == o.written + (o.queue[0][..n] + more);
  }

  lemma SentAfterPop(o: Outgoing, results: seq<int>)
    requires o.queue != [] && o.queue[0] == []
    ensures Sent(o, results) == Sent(DoStep(o, Pop), results)
  {
  }

  lemma SentAtEnd(o: Outgoing, results: seq<int>)
    requires o.queue == [] || (o.queue[0] != [] && (results == [] || results[0] <= 0))
    ensures Sent(o, results) == o
  {
    assert o.written + [] == o.written;
  }

  /** A call of `HandleSend` is a run of write and pop steps of the machine. */
  lemma {:induction false} SentIsRun(o: Outgoing, results: seq<int>) returns (steps: seq<SendStep>)
    ensures CanRun(o, steps) && DoRun(o, steps) == Sent(o, results)
    ensures forall i :: 0 <= i < |steps| ==> !steps[i].Push?
    decreases |o.queue| + |results|
  {
    hide Sent;
    if o.queue == [] || (o.queue[0] != [] && (results == [] || results[0] <= 0)) {
      steps := [];
      SentAtEnd(o, results);
    } else if o.queue[0] == [] {
      SentAfterPop(o, results);
      var rest := SentIsRun(DoStep(o, Pop), results);
      steps := [Pop] + rest;
      assert steps[1..] == rest;
    } else {
      SentAfterWrite(o, results);
      var step := Write(if results[0] < |o.queue[0]| then results[0] else |o.queue[0]|);
      var rest := SentIsRun(DoStep(o, step), results[1..]);
      steps := [step] + rest;
      assert steps[1..] == rest;
    }
  }

  lemma HandleSendKeepsTheStream(o: Outgoing, results: seq<int>)
    requires |o.queue| <= 1000
    ensures Stream(Sent(o, results)) == Stream(o) && |Sent(o, results).queue| <= 1000
  {
    hide Stream, Sent, DoRun, CanRun, Accepted;
    var steps := SentIsRun(o, results);
    EveryRunKeepsTheStream(o, steps);
    NothingPushed(|o.queue|, steps);
    assert Stream(o) + [] == Stream(o);
  }

  lemma {:induction false} NothingPushed(queued: int, steps: seq<SendStep>)
    requires forall i :: 0 <= i < |steps| ==> !steps[i].Push?
    ensures Concat(Accepted(queued, steps)) == []
    decreases |steps|
  {
    if steps != [] {
      assert !steps[0].Push?;
      assert forall i :: 0 <= i < |steps[1..]| ==> steps[1..][i] == steps[i + 1];
      NothingPushed(if steps[0].Pop? then queued - 1 else queued, steps[1..]);
    }
  }

  /** The first answer that takes nothing ends the call, whatever the kernel would have answered next. */
  lemma {:induction false} SentStopsAtFailure(o: Outgoing, before: seq<int>, failure: int, after: seq<int>)
    requires failure <= 0
    ensures Sent(o, before + [failure] + after) == Sent(o, before)
    decreases |o.queue| + |before|
  {
    hide Sent;
    var all := before + [failure] + after;
    if o.queue == [] {
      SentAtEnd(o, all);
      SentAtEnd(o, before);
    } else if o.queue[0] == [] {
      SentAfterPop(o, all);
      SentAfterPop(o, before);
      SentStopsAtFailure(DoStep(o, Pop), before, failure, after);
    } else if before == [] || before[0] <= 0 {
      assert all[0] <= 0;
      SentAtEnd(o, all);
      SentAtEnd(o, before);
    } else {
      var n := if before[0] < |o.queue[0]| then before[0] else |o.queue[0]|;
      var next := Outgoing([o.queue[0][n..]] + o.queue[1..], o.written + o.queue[0][..n]);
      assert all[0] == before[0] && all[1..] == before[1..] + [failure] + after;
      SentAfterWrite(o, all);
      SentAfterWrite(o, before);
      SentStopsAtFailure(next, before[1..], failure, after);
    }
  }

  /** While the kernel takes something at every write, one answer per queued byte is enough to send everything. */
  lemma {:induction false} DrainCompletes(queue: seq<Bytes>, results: seq<int>)
    requires |results| >= |Concat(queue)| && forall i :: 0 <= i < |results| ==> results[i] > 0
    ensures Drain(queue, results) == ([], Concat(queue))
    decreases |queue| + |results|
  {
    if queue == [] {
    } else if queue[0] == [] {
      DrainCompletes(queue[1..], results);
      assert Concat(queue) == Concat(queue[1..]);
    } else {
      var n := if results[0] < |queue[0]| then results[0] else |queue[0]|;
      var next := [queue[0][n..]] + queue[1..];
      assert next[1..] == queue[1..];
      assert queue[0][..n] + (queue[0][n..] + Concat(queue[1..])) == Concat(queue);
      DrainCompletes(next, results[1..]);
    }
  }
}
