/**
The asynchronous logging pool of details/thread_pool.h: clients post messages, workers take and handle them, and the
destructor posts one terminate message per worker and joins them. One step is one section under the queue's mutex, or the
handling of one message, which happens outside it.
*/
module ThreadPools {
  import opened CircularQueue
  import opened MpmcQueue

  datatype AsyncMsg = Log(payload: string) | Flush | Terminate

  datatype OverflowPolicy = Block | OverrunOldest

  /** Where a worker thread is: waiting for a message, in the backend with one, or returned from its loop. */
  datatype Worker = Waiting | Handling(msg: AsyncMsg) | Exited

  /** The pool, with the history of what clients posted, what was overrun and what the workers have handled. */
  datatype Pool = Pool(q: Queue<AsyncMsg>, workers: seq<Worker>, closing: bool, toPost: nat,
                       posted: seq<AsyncMsg>, overrun: seq<AsyncMsg>, handled: seq<AsyncMsg>)

  datatype PoolStep =
    | Post(msg: AsyncMsg, policy: OverflowPolicy)
    | Close                // the destructor begins
    | PostTerminate        // one round of the destructor's loop
    | Take(w: nat)         // `dequeue_for` gives worker `w` a message
    | Idle(w: nat)         // `dequeue_for` of worker `w` timed out
    | Finish(w: nat)       // worker `w` has handled its message

  predicate ThreadsOk(threads: nat) {
    1 <= threads <= 1000
  }

  function NewPool(capacity: nat, threads: nat): Pool {
    Pool(Queue([], capacity, 0), seq(threads, _ => Waiting), false, 0, [], [], [])
  }

  /** Clients stop posting before the destructor runs: that the pool outlives its users is the caller's duty. */
  predicate CanDo(p: Pool, step: PoolStep) {
    match step
    case Post(msg, policy) => !p.closing && msg != Terminate && (policy == OverrunOldest || !IsFull(p.q))
    case Close => !p.closing
    case PostTerminate => p.closing && p.toPost > 0 && !IsFull(p.q)
    case Take(w) => w < |p.workers| && p.workers[w] == Waiting && |p.q.items| > 0
    case Idle(w) => w < |p.workers| && p.workers[w] == Waiting && |p.q.items| == 0
    case Finish(w) => w < |p.workers| && p.workers[w].Handling?
  }

  function Do(p: Pool, step: PoolStep): Pool
    requires CanDo(p, step)
  {
    match step
    case Post(msg, _) => p.(q := Push(p.q, msg), posted := p.posted + [msg],
                            overrun := p.overrun + if IsFull(p.q) then [(p.q.items + [msg])[0]] else [])
    case Close => p.(closing := true, toPost := |p.workers|)
    case PostTerminate => p.(q := Push(p.q, Terminate), toPost := p.toPost - 1)
    case Take(w) =>
      var msg := p.q.items[0];
      p.(q := Pop(p.q), workers := p.workers[w := if msg == Terminate then Exited else Handling(msg)])
    case Idle(_) => p
    case Finish(w) => p.(workers := p.workers[w := Waiting], handled := p.handled + [p.workers[w].msg])
  }

  predicate CanRun(p: Pool, steps: seq<PoolStep>)
    decreases |steps|
  {
    steps == [] || (CanDo(p, steps[0]) && CanRun(Do(p, steps[0]), steps[1..]))
  }

  function RunPool(p: Pool, steps: seq<PoolStep>): Pool
    requires CanRun(p, steps)
    decreases |steps|
  {
    if steps == [] then p else RunPool(Do(p, steps[0]), steps[1..])
  }

  /** The destructor's last `join` returns. */
  predicate Joined(p: Pool) {
    p.closing && p.toPost == 0 && forall w :: 0 <= w < |p.workers| ==> p.workers[w] == Exited
  }

  function Count<T(==)>(s: seq<T>, x: T): nat {
    multiset(s)[x]
  }

  /** Terminates still to be posted, terminates queued and workers that exited always add up to the number of workers. */
  ghost predicate TerminatesAddUp(p: Pool) {
    p.toPost + Count(p.q.items, Terminate) + Count(p.workers, Exited) == if p.closing then |p.workers| else 0
  }

  ghost predicate OnlyTerminates(items: seq<AsyncMsg>) {
    forall i :: 0 <= i < |items| ==> items[i] == Terminate
  }

  /** No message is queued behind a terminate, and once a worker has exited no message is queued at all. */
  ghost predicate MessagesFirst(p: Pool) {
    && (forall i, j :: 0 <= i < j < |p.q.items| && p.q.items[i] == Terminate ==> p.q.items[j] == Terminate)
    && (Count(p.workers, Exited) > 0 ==> OnlyTerminates(p.q.items))
  }

  /** Every posted message is handled, overrun, queued or in some worker's hands, as often as it was posted. */
  ghost predicate Conserved(p: Pool) {
    forall m: AsyncMsg :: m != Terminate ==>
      Count(p.posted, m) == Count(p.handled, m) + Count(p.overrun, m) + Count(p.q.items, m) + Count(p.workers, Handling(m))
  }

  ghost predicate PoolInv(p: Pool) {
    && Fits(p.q)
    && |p.workers| > 0
    && Handling(Terminate) !in p.workers
    && |p.overrun| == p.q.overruns
    && TerminatesAddUp(p)
    && MessagesFirst(p)
    && Conserved(p)
  }

  lemma CountOfPushed<T>(q: Queue<T>, item: T, x: T)
    requires Fits(q)
    ensures Count(Push(q, item).items, x) + (if IsFull(q) && (q.items + [item])[0] == x then 1 else 0)
         == Count(q.items, x) + (if item == x then 1 else 0)
  {
    var all := q.items + [item];
    assert all == [all[0]] + all[1..];
    assert Count(all, x) == Count(q.items, x) + (if item == x then 1 else 0);
    assert Count(all, x) == (if all[0] == x then 1 else 0) + Count(all[1..], x);
  }

  lemma CountOfPopped<T>(q: Queue<T>, x: T)
    requires q.items != []
    ensures Count(q.items, x) == Count(Pop(q).items, x) + (if q.items[0] == x then 1 else 0)
  {
    assert q.items == [q.items[0]] + q.items[1..];
  }

  lemma CountOfUpdated<T>(s: seq<T>, i: nat, y: T, x: T)
    requires i < |s|
    ensures Count(s[i := y], x) + (if s[i] == x then 1 else 0) == Count(s, x) + (if y == x then 1 else 0)
  {
  }

  lemma CountOfAppended<T>(s: seq<T>, y: T, x: T)
    ensures Count(s + [y], x) == Count(s, x) + (if y == x then 1 else 0)
  {
  }

  lemma {:induction false} CountOfAll<T>(s: seq<T>, x: T)
    requires forall i :: 0 <= i < |s| ==> s[i] == x
    ensures Count(s, x) == |s|
  {
    if s != [] {
      var n := |s| - 1;
      assert s == s[..n] + [s[n]];
      CountOfAll(s[..n], x);
    }
  }

  lemma CountOfNone<T>(s: seq<T>, x: T)
    requires x !in s
    ensures Count(s, x) == 0
  {
  }

  lemma NewPoolInv(capacity: nat, threads: nat)
    requires ThreadsOk(threads)
    ensures PoolInv(NewPool(capacity, threads))
  {
    var p := NewPool(capacity, threads);
    CountOfNone(p.workers, Exited);
    forall m: AsyncMsg | m != Terminate
      ensures Count(p.workers, Handling(m)) == 0
    {
      CountOfNone(p.workers, Handling(m));
    }
  }

  lemma TerminatesStep(p: Pool, step: PoolStep)
    requires PoolInv(p) && CanDo(p, step)
    ensures TerminatesAddUp(Do(p, step))
  {
    hide Conserved, Count, MessagesFirst;
    match step {
      case Post(msg, _) =>
        CountOfPushed(p.q, msg, Terminate);
        assert Count(p.q.items, Terminate) == 0;
      case PostTerminate => CountOfPushed(p.q, Terminate, Terminate);
      case Take(w) =>
        CountOfPopped(p.q, Terminate);
        CountOfUpdated(p.workers, w, Do(p, step).workers[w], Exited);
      case Finish(w) => CountOfUpdated(p.workers, w, Waiting, Exited);
      case _ =>
    }
  }

  lemma NoneCounted<T>(s: seq<T>, x: T)
    requires Count(s, x) == 0
    ensures x !in s
  {
  }

  /** The part of the invariant about the queue's order, for a queue with no terminate in it yet. */
  lemma OrderOfPush(p: Pool, msg: AsyncMsg)
    requires Count(p.q.items, Terminate) == 0 && Count(p.workers, Exited) == 0 && msg != Terminate
    ensures MessagesFirst(p.(q := Push(p.q, msg)))
  {
    hide Count;
    NoneCounted(p.q.items, Terminate);
  }

  lemma OrderStep(p: Pool, step: PoolStep)
    requires PoolInv(p) && CanDo(p, step)
    ensures MessagesFirst(Do(p, step))
  {
    hide Conserved, Count;
    match step {
      case Post(msg, _) => OrderOfPush(p, msg);
      case Take(w) => CountOfUpdated(p.workers, w, Do(p, step).workers[w], Exited);
      case Finish(w) => CountOfUpdated(p.workers, w, Waiting, Exited);
      case _ =>
    }
  }

  lemma ConservedStep(p: Pool, step: PoolStep, m: AsyncMsg)
    requires PoolInv(p) && CanDo(p, step) && m != Terminate
    ensures var d := Do(p, step);
            Count(d.posted, m) == Count(d.handled, m) + Count(d.overrun, m) + Count(d.q.items, m) + Count(d.workers, Handling(m))
  {
    hide TerminatesAddUp, MessagesFirst, Count;
    match step {
      case Post(msg, _) =>
        CountOfPushed(p.q, msg, m);
        CountOfAppended(p.posted, msg, m);
        if IsFull(p.q) {
          CountOfAppended(p.overrun, (p.q.items + [msg])[0], m);
        } else {
          assert p.overrun + [] == p.overrun;
        }
      case PostTerminate => CountOfPushed(p.q, Terminate, m);
      case Take(w) =>
        CountOfPopped(p.q, m);
        CountOfUpdated(p.workers, w, Do(p, step).workers[w], Handling(m));
      case Finish(w) =>
        CountOfUpdated(p.workers, w, Waiting, Handling(m));
        CountOfAppended(p.handled, p.workers[w].msg, m);
      case _ =>
    }
  }

  /** Every step of clients, workers and destructor keeps the invariant. */
  lemma StepKeepsPoolInv(p: Pool, step: PoolStep)
    requires PoolInv(p) && CanDo(p, step)
    ensures PoolInv(Do(p, step))
    ensures |Do(p, step).workers| == |p.workers| && Do(p, step).q.capacity == p.q.capacity
  {
    hide MessagesFirst, TerminatesAddUp, Count, Conserved;
    TerminatesStep(p, step);
    OrderStep(p, step);
    SizesStep(p, step);
    AllConserved(p, step);
  }

  lemma SizesStep(p: Pool, step: PoolStep)
    requires PoolInv(p) && CanDo(p, step)
    ensures var d := Do(p, step);
            && Fits(d.q) && |d.workers| == |p.workers| && Handling(Terminate) !in d.workers
            && |d.overrun| == d.q.overruns && d.q.capacity == p.q.capacity
  {
    hide MessagesFirst, TerminatesAddUp, Conserved;
  }

  lemma AllConserved(p: Pool, step: PoolStep)
    requires PoolInv(p) && CanDo(p, step)
    ensures Conserved(Do(p, step))
  {
    hide MessagesFirst, TerminatesAddUp, Count, Do, CanDo, PoolInv;
    forall m: AsyncMsg | m != Terminate
      ensures var d := Do(p, step);
        Count(d.posted, m) == Count(d.handled, m) + Count(d.overrun, m) + Count(d.q.items, m) + Count(d.workers, Handling(m))
    {
      ConservedStep(p, step, m);
    }
  }

  lemma {:induction false} RunKeepsPoolInv(p: Pool, steps: seq<PoolStep>)
    requires PoolInv(p) && CanRun(p, steps)
    ensures PoolInv(RunPool(p, steps))
    ensures |RunPool(p, steps).workers| == |p.workers| && RunPool(p, steps).q.capacity == p.q.capacity
    decreases |steps|
  {
    hide PoolInv, Do, CanDo;
    if steps != [] {
      StepKeepsPoolInv(p, steps[0]);
      RunKeepsPoolInv(Do(p, steps[0]), steps[1..]);
    }
  }

  /** The messages that the clients of a run pass in, read off its steps. */
  function Posted(steps: seq<PoolStep>): seq<AsyncMsg>
    decreases |steps|
  {
    if steps == [] then [] else (if steps[0].Post? then [steps[0].msg] else []) + Posted(steps[1..])
  }

  /** The history field records them. */
  lemma {:induction false} RunPosts(p: Pool, steps: seq<PoolStep>)
    requires CanRun(p, steps)
    ensures RunPool(p, steps).posted == p.posted + Posted(steps)
    decreases |steps|
  {
    if steps == [] {
      assert p.posted + [] == p.posted;
    } else {
      hide CanRun, RunPool, Posted;
      RunUnfolds(p, steps);
      RunPosts(Do(p, steps[0]), steps[1..]);
      var first, rest := if steps[0].Post? then [steps[0].msg] else [], Posted(steps[1..]);
      assert p.posted + first + rest == p.posted + (first + rest);
      assert p.posted + [] == p.posted;
    }
  }

  lemma RunUnfolds(p: Pool, steps: seq<PoolStep>)
    requires steps != [] && CanRun(p, steps)
    ensures CanDo(p, steps[0]) && CanRun(Do(p, steps[0]), steps[1..])
    ensures RunPool(p, steps) == RunPool(Do(p, steps[0]), steps[1..])
    ensures Posted(steps) == (if steps[0].Post? then [steps[0].msg] else []) + Posted(steps[1..])
  {
  }

  /** In every reachable state, no message is still queued once any worker has exited. */
  lemma MessagesBeforeExits(capacity: nat, threads: nat, steps: seq<PoolStep>)
    requires ThreadsOk(threads) && CanRun(NewPool(capacity, threads), steps)
    ensures var p := RunPool(NewPool(capacity, threads), steps);
            Exited in p.workers ==> OnlyTerminates(p.q.items)
  {
    NewPoolInv(capacity, threads);
    RunKeepsPoolInv(NewPool(capacity, threads), steps);
  }

  /** When the destructor returns the queue is empty and every posted message was either handled or overrun. */
  lemma JoinedMeansDrained(capacity: nat, threads: nat, steps: seq<PoolStep>)
    requires ThreadsOk(threads) && CanRun(NewPool(capacity, threads), steps)
    requires Joined(RunPool(NewPool(capacity, threads), steps))
    ensures var p := RunPool(NewPool(capacity, threads), steps);
            && p.q.items == []
            && |p.overrun| == p.q.overruns
            && forall m: AsyncMsg :: m != Terminate ==> Count(Posted(steps), m) == Count(p.handled, m) + Count(p.overrun, m)
  {
    RunPosts(NewPool(capacity, threads), steps);
    assert [] + Posted(steps) == Posted(steps);
    NewPoolInv(capacity, threads);
    RunKeepsPoolInv(NewPool(capacity, threads), steps);
    var p := RunPool(NewPool(capacity, threads), steps);
    CountOfAll(p.workers, Exited);
    assert Exited == p.workers[0];
    assert Count(p.q.items, Terminate) == 0;
    assert Terminate !in p.q.items;
    assert p.q.items == [];
    forall m: AsyncMsg | m != Terminate
      ensures Count(p.workers, Handling(m)) == 0
    {
      CountOfNone(p.workers, Handling(m));
    }
  }

  /** How many terminate messages worker `w` takes in a run. */
  function TerminatesTaken(p: Pool, steps: seq<PoolStep>, w: nat): nat
    requires CanRun(p, steps)
    decreases |steps|
  {
    if steps == [] then 0
    else (if steps[0] == Take(w) && p.q.items[0] == Terminate then 1 else 0) + TerminatesTaken(Do(p, steps[0]), steps[1..], w)
  }

  /** A worker takes no more than one terminate, and has exited exactly when it has taken one. */
  lemma {:induction false} OneTerminateEach(p: Pool, steps: seq<PoolStep>, w: nat)
    requires CanRun(p, steps) && w < |p.workers|
    ensures |RunPool(p, steps).workers| == |p.workers|
    ensures TerminatesTaken(p, steps, w) + (if p.workers[w] == Exited then 1 else 0)
         == if RunPool(p, steps).workers[w] == Exited then 1 else 0
    decreases |steps|
  {
    if steps != [] {
      OneTerminateEach(Do(p, steps[0]), steps[1..], w);
    }
  }

  /** The pool object; every method is one atomic section, and says which step of the machine it is. */
  class ThreadPool {
    const q: MpmcBlockingQueue<AsyncMsg>
    const threads: array<Worker>
    var posting: bool
    var leftToPost: nat
    ghost var p: Pool

    ghost predicate Valid()
      reads this, q, q.ring, q.ring.v, threads
    {
      && q.Valid()
      && q.m.q == p.q && threads[..] == p.workers
      && posting == p.closing && leftToPost == p.toPost
    }

    constructor (maxItems: nat, threadsN: nat)
      requires ThreadsOk(threadsN)
      ensures Valid() && p == NewPool(maxItems, threadsN)
      ensures fresh(q) && fresh(q.ring) && fresh(q.ring.v) && fresh(threads)
    {
      q := new MpmcBlockingQueue<AsyncMsg>(maxItems);
      threads := new Worker[threadsN](_ => Waiting);
      posting, leftToPost := false, 0;
      p := NewPool(maxItems, threadsN);
      new;
      assert threads[..] == p.workers;
    }

    /** The check at the head of the source's constructor, which throws. */
    static method Create(maxItems: nat, threadsN: nat) returns (pool: Option<ThreadPool>)
      ensures pool.Some? <==> 1 <= threadsN <= 1000
      ensures pool.Some? ==> fresh(pool.value) && pool.value.Valid() && pool.value.p == NewPool(maxItems, threadsN)
    {
      if threadsN == 0 || threadsN > 1000 {
        return None;
      }
      var made := new ThreadPool(maxItems, threadsN);
      return Some(made);
    }

    method PostAsyncMsg(msg: AsyncMsg, policy: OverflowPolicy) returns (waits: bool)
      requires Valid() && !posting && msg != Terminate
      modifies this, q, q.ring, q.ring.v
      ensures Valid()
      ensures waits <==> !CanDo(old(p), Post(msg, policy))
      ensures p == if waits then old(p) else Do(old(p), Post(msg, policy))
      ensures !waits ==> p.q == Push(old(p).q, msg) && p.posted == old(p).posted + [msg]
    {
      if policy == Block {
        waits := q.Enqueue(msg);
      } else {
        q.EnqueueNowait(msg);
        waits := false;
      }
      if !waits {
        p := Do(p, Post(msg, policy));
      }
    }

    method BeginDestroy()
      requires Valid() && !posting
      modifies this
      ensures Valid() && p == Do(old(p), Close)
    {
      posting, leftToPost := true, threads.Length;
      p := Do(p, Close);
    }

    /** One pass through the destructor's posting loop, which blocks while there is no room. */
    method PostTerminate() returns (waits: bool)
      requires Valid() && posting && leftToPost > 0
      modifies this, q, q.ring, q.ring.v
      ensures Valid()
      ensures waits <==> !CanDo(old(p), PoolStep.PostTerminate)
      ensures p == if waits then old(p) else Do(old(p), PoolStep.PostTerminate)
    {
      waits := q.Enqueue(Terminate);
      if !waits {
        leftToPost := leftToPost - 1;
        p := Do(p, PoolStep.PostTerminate);
      }
    }

    /** Worker `w` leaves `dequeue_for` in `process_next_msg_`; the result says whether its loop goes on. */
    method TakeMsg(w: nat) returns (active: bool)
      requires Valid() && w < threads.Length && threads[w] == Waiting
      modifies this, q, q.ring, threads
      ensures Valid()
      ensures p == Do(old(p), if old(p).q.items == [] then Idle(w) else Take(w))
      ensures active <==> threads[w] != Exited
    {
      var popped := q.DequeueFor();
      if popped == None {
        return true;
      }
      active := popped.value != Terminate;
      threads[w] := if active then Handling(popped.value) else Exited;
      p := Do(p, Take(w));
    }

    /** Worker `w` returns from the backend. */
    method FinishMsg(w: nat)
      requires Valid() && w < threads.Length && threads[w].Handling?
      modifies this, threads
      ensures Valid() && p == Do(old(p), Finish(w))
    {
      threads[w] := Waiting;
      p := Do(p, Finish(w));
    }
  }
}
