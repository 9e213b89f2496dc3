/** The shutdown of a pool: it cannot get stuck, how long it takes, and when it can end at all. */
module ThreadPoolShutdown {
  import opened CircularQueue
  import opened MpmcQueue
  import opened ThreadPools

  /** A bound on what is left to do once the destructor runs. */
  ghost function Rank(p: Pool): int {
    3 * p.toPost + 2 * |p.q.items| + |p.workers| - Count(p.workers, Waiting)
  }

  /** Every step of a shutdown other than a time-out brings it exactly one step nearer to its end. */
  lemma ShutdownStepCounts(p: Pool, step: PoolStep)
    requires PoolInv(p) && p.closing && CanDo(p, step)
    ensures Rank(Do(p, step)) == Rank(p) - (if step.Idle? then 0 else 1)
    ensures Do(p, step).closing
  {
    hide Conserved, MessagesFirst, TerminatesAddUp;
    match step {
      case Take(w) => CountOfUpdated(p.workers, w, Do(p, step).workers[w], Waiting);
      case Finish(w) => CountOfUpdated(p.workers, w, Waiting, Waiting);
      case _ =>
    }
  }

  /** While the destructor waits, some thread other than one that only times out can always go on, given room for one message. */
  lemma ShutdownNeverStuck(p: Pool) returns (step: PoolStep)
    requires PoolInv(p) && p.closing && !Joined(p) && p.q.capacity >= 1
    ensures CanDo(p, step) && !step.Idle?
  {
    hide Conserved, MessagesFirst;
    if w :| 0 <= w < |p.workers| && p.workers[w].Handling? {
      step := Finish(w);
    } else if w :| 0 <= w < |p.workers| && p.workers[w] == Waiting {
      if p.q.items != [] {
        step := Take(w);
      } else {
        NotAllExited(p.workers, w);
        step := PostTerminate;
      }
    } else {
      CountOfAll(p.workers, Exited);
      assert false;
    }
  }

  lemma NotAllExited(workers: seq<Worker>, w: nat)
    requires w < |workers| && workers[w] != Exited
    ensures Count(workers, Exited) < |workers|
  {
    assert multiset(workers)[workers[w]] > 0;
    assert |multiset(workers)| == |workers|;
    assert multiset(workers) == multiset(workers)[Exited := 0] + multiset{}[Exited := Count(workers, Exited)];
  }

  lemma CountAtMostAll<T>(s: seq<T>, x: T)
    ensures Count(s, x) <= |s|
  {
    assert multiset(s) == multiset(s)[x := 0] + multiset{}[x := Count(s, x)];
  }

  /** From any state of the destructor there is a way to the end, given room for one message. */
  lemma {:induction false} ShutdownCanFinish(p: Pool) returns (steps: seq<PoolStep>)
    requires PoolInv(p) && p.closing && p.q.capacity >= 1
    ensures CanRun(p, steps) && Joined(RunPool(p, steps))
    decreases Rank(p)
  {
    hide PoolInv, Do, CanDo, Joined;
    if Joined(p) {
      steps := [];
    } else {
      var step := ShutdownNeverStuck(p);
      StepKeepsPoolInv(p, step);
      ShutdownStepCounts(p, step);
      CountAtMostAll(p.workers, Waiting);
      CountAtMostAll(Do(p, step).workers, Waiting);
      var rest := ShutdownCanFinish(Do(p, step));
      steps := [step] + rest;
      assert steps[1..] == rest;
    }
  }

  /** Leaving time-outs aside, no shutdown can go on for more steps than are left to do. */
  lemma {:induction false} ShutdownRunCounts(p: Pool, steps: seq<PoolStep>)
    requires PoolInv(p) && p.closing && CanRun(p, steps)
    requires forall i :: 0 <= i < |steps| ==> !steps[i].Idle?
    ensures Rank(RunPool(p, steps)) == Rank(p) - |steps|
    ensures RunPool(p, steps).closing
    decreases |steps|
  {
    hide PoolInv, Do, CanDo, Rank;
    if steps != [] {
      StepKeepsPoolInv(p, steps[0]);
      ShutdownStepCounts(p, steps[0]);
      ShutdownRunCounts(Do(p, steps[0]), steps[1..]);
    }
  }

  /** Every shutdown that ends takes the same number of steps, whatever the interleaving. */
  lemma ShutdownLength(p: Pool, steps: seq<PoolStep>)
    requires PoolInv(p) && p.closing && CanRun(p, steps)
    requires forall i :: 0 <= i < |steps| ==> !steps[i].Idle?
    ensures |steps| <= Rank(p)
    ensures Joined(RunPool(p, steps)) ==> |steps| == Rank(p) - |p.workers|
  {
    var r := RunPool(p, steps);
    ShutdownRunCounts(p, steps);
    RunKeepsPoolInv(p, steps);
    CountAtMostAll(r.workers, Waiting);
    if Joined(r) {
      CountOfAll(r.workers, Exited);
      CountOfNone(r.workers, Waiting);
      assert Count(r.q.items, Terminate) == 0;
      assert Exited == r.workers[0];
      assert Terminate !in r.q.items;
      assert r.q.items == [];
    }
  }

  /** With no room at all the destructor never gets its first terminate into the queue. */
  lemma {:induction false} NoRoomNoShutdown(p: Pool, steps: seq<PoolStep>)
    requires PoolInv(p) && p.q.capacity == 0 && (p.closing ==> p.toPost == |p.workers|) && CanRun(p, steps)
    ensures var r := RunPool(p, steps); !Joined(r) && (r.closing ==> r.toPost == |p.workers|)
    decreases |steps|
  {
    hide Conserved, MessagesFirst, TerminatesAddUp;
    if steps != [] {
      StepKeepsPoolInv(p, steps[0]);
      NoRoomNoShutdown(Do(p, steps[0]), steps[1..]);
    }
  }

  /** The destructor can return from a reachable state exactly when the queue was made with room for at least one message. */
  lemma ShutdownEndsExactlyWithRoom(capacity: nat, threads: nat, history: seq<PoolStep>)
    requires ThreadsOk(threads) && CanRun(NewPool(capacity, threads), history)
    requires RunPool(NewPool(capacity, threads), history).closing
    ensures var p := RunPool(NewPool(capacity, threads), history);
            (exists steps :: CanRun(p, steps) && Joined(RunPool(p, steps))) <==> capacity >= 1
  {
    hide PoolInv, Do, CanDo, Joined, CanRun, RunPool;
    var start := NewPool(capacity, threads);
    var p := RunPool(start, history);
    NewPoolInv(capacity, threads);
    RunKeepsPoolInv(start, history);
    if capacity >= 1 {
      var steps := ShutdownCanFinish(p);
    } else {
      NoRoomNoShutdown(start, history);
      forall steps | CanRun(p, steps)
        ensures !Joined(RunPool(p, steps))
      {
        NoRoomNoShutdown(p, steps);
      }
    }
  }
}
