/** The order in which a pool with one worker handles messages that are posted blocking. */
module ThreadPoolOrder {
  import opened CircularQueue
  import opened MpmcQueue
  import opened ThreadPools

  /** The messages of the clients in a queue. */
  function Messages(items: seq<AsyncMsg>): seq<AsyncMsg> {
    if items == [] then [] else (if items[0] == Terminate then [] else [items[0]]) + Messages(items[1..])
  }

  function InHand(w: Worker): seq<AsyncMsg> {
    if w.Handling? then [w.msg] else []
  }

  predicate BlockingPosts(steps: seq<PoolStep>) {
    forall i :: 0 <= i < |steps| && steps[i].Post? ==> steps[i].policy == Block
  }

  /** What the one worker has handled, then what it is handling, then what is queued, is what was posted, in order. */
  ghost predicate InOrder(p: Pool) {
    |p.workers| == 1 && p.handled + InHand(p.workers[0]) + Messages(p.q.items) == p.posted
  }

  lemma {:induction false} MessagesOfAppended(items: seq<AsyncMsg>, msg: AsyncMsg)
    ensures Messages(items + [msg]) == Messages(items) + (if msg == Terminate then [] else [msg])
  {
    hide Messages;
    NoMessages();
    var last := if msg == Terminate then [] else [msg];
    if items == [] {
      MessagesOf(msg, []);
      assert [msg] + [] == [msg] && items + [msg] == [msg] && last + [] == last && [] + last == last;
    } else {
      var x, rest := items[0], items[1..];
      MessagesOfAppended(rest, msg);
      assert items == [x] + rest && items + [msg] == [x] + (rest + [msg]);
      MessagesOf(x, rest);
      MessagesOf(x, rest + [msg]);
      var first := if x == Terminate then [] else [x];
      assert first + (Messages(rest) + last) == first + Messages(rest) + last;
    }
  }

  lemma NoMessages()
    ensures Messages([]) == []
  {
  }

  lemma MessagesOf(first: AsyncMsg, rest: seq<AsyncMsg>)
    ensures Messages([first] + rest) == (if first == Terminate then [] else [first]) + Messages(rest)
  {
    assert ([first] + rest)[1..] == rest;
  }

  lemma OrderKept(p: Pool, step: PoolStep)
    requires InOrder(p) && CanDo(p, step) && (step.Post? ==> step.policy == Block)
    ensures InOrder(Do(p, step))
  {
    var done, hand, queued := p.handled, InHand(p.workers[0]), Messages(p.q.items);
    match step {
      case Post(msg, _) =>
        MessagesOfAppended(p.q.items, msg);
        assert done + hand + (queued + [msg]) == done + hand + queued + [msg];
      case PostTerminate =>
        MessagesOfAppended(p.q.items, Terminate);
        assert queued + [] == queued;
      case Take(w) =>
        var rest := Messages(p.q.items[1..]);
        var first := if p.q.items[0] == Terminate then [] else [p.q.items[0]];
        assert done + [] + (first + rest) == done + first + rest;
      case Finish(w) => assert done + hand + [] + queued == done + hand + queued;
      case _ =>
    }
  }

  lemma {:induction false} RunKeepsOrder(p: Pool, steps: seq<PoolStep>)
    requires InOrder(p) && CanRun(p, steps) && BlockingPosts(steps)
    ensures InOrder(RunPool(p, steps))
    decreases |steps|
  {
    hide InOrder, Do, CanDo;
    if steps != [] {
      OrderKept(p, steps[0]);
      RunKeepsOrder(Do(p, steps[0]), steps[1..]);
    }
  }

  /** One worker handles messages posted blocking in the order of the posts, and all of them by the end of a shutdown. */
  lemma OneWorkerHandlesInOrder(capacity: nat, steps: seq<PoolStep>)
    requires CanRun(NewPool(capacity, 1), steps) && BlockingPosts(steps)
    ensures var p := RunPool(NewPool(capacity, 1), steps);
            && |p.workers| == 1
            && p.handled + InHand(p.workers[0]) + Messages(p.q.items) == Posted(steps)
            && (Joined(p) ==> p.handled == Posted(steps))
  {
    RunPosts(NewPool(capacity, 1), steps);
    assert [] + Posted(steps) == Posted(steps);
    hide CanRun, RunPool;
    var p := RunPool(NewPool(capacity, 1), steps);
    RunKeepsOrder(NewPool(capacity, 1), steps);
    if Joined(p) {
      JoinedMeansDrained(capacity, 1, steps);
      assert p.workers[0] == Exited;
      assert p.handled + [] + [] == p.handled;
    }
  }
}
