/**
The multi-producer multi-consumer queue of details/mpmc_blocking_q.h. Every section under the mutex is one atomic step; a
thread that waits on a condition variable takes its step only once the condition it waits for holds.
*/
module MpmcQueue {
  import opened CircularQueue

  datatype Option<T> = None | Some(value: T)

  /** How an element left the queue: handed to a consumer, or overrun by a producer. */
  datatype Removal<T> = Taken(item: T) | Lost(item: T)

  /** The queue together with the history of everything that left it. */
  datatype Monitor<T> = Monitor(q: Queue<T>, removed: seq<Removal<T>>)

  datatype Step<T> = Enqueue(item: T) | EnqueueNowait(item: T) | Dequeue | TimedOut

  function Start<T>(capacity: nat): Monitor<T> {
    Monitor(Queue([], capacity, 0), [])
  }

  /** What the waiting thread waits for; a time-out is reported only while there still is nothing to take. */
  predicate Enabled<T>(m: Monitor<T>, step: Step<T>) {
    match step
    case Enqueue(_) => !IsFull(m.q)
    case EnqueueNowait(_) => true
    case Dequeue => |m.q.items| > 0
    case TimedOut => |m.q.items| == 0
  }

  function Add<T>(m: Monitor<T>, item: T): Monitor<T> {
    var lost := if IsFull(m.q) then [Lost((m.q.items + [item])[0])] else [];
    Monitor(Push(m.q, item), m.removed + lost)
  }

  function Next<T>(m: Monitor<T>, step: Step<T>): Monitor<T>
    requires Enabled(m, step)
  {
    match step
    case Enqueue(item) => Add(m, item)
    case EnqueueNowait(item) => Add(m, item)
    case Dequeue => Monitor(Pop(m.q), m.removed + [Taken(m.q.items[0])])
    case TimedOut => m
  }

  predicate LegalRun<T>(m: Monitor<T>, steps: seq<Step<T>>)
    decreases |steps|
  {
    steps == [] || (Enabled(m, steps[0]) && LegalRun(Next(m, steps[0]), steps[1..]))
  }

  function Run<T>(m: Monitor<T>, steps: seq<Step<T>>): Monitor<T>
    requires LegalRun(m, steps)
    decreases |steps|
  {
    if steps == [] then m else Run(Next(m, steps[0]), steps[1..])
  }

  /** The elements that the producers of a run passed in, in the order of their steps. */
  function Produced<T>(steps: seq<Step<T>>): seq<T>
    decreases |steps|
  {
    if steps == [] then []
    else (if steps[0].Enqueue? || steps[0].EnqueueNowait? then [steps[0].item] else []) + Produced(steps[1..])
  }

  function Items<T>(removed: seq<Removal<T>>): seq<T> {
    seq(|removed|, i requires 0 <= i < |removed| => removed[i].item)
  }

  /** What has left the queue, followed by what is in it. */
  function Passed<T>(m: Monitor<T>): seq<T> {
    Items(m.removed) + m.q.items
  }

  /** What the consumers got, in order. */
  function Consumed<T>(removed: seq<Removal<T>>): (r: seq<T>)
    ensures |r| <= |removed|
  {
    if removed == [] then []
    else Consumed(removed[..|removed| - 1]) + (if removed[|removed| - 1].Taken? then [removed[|removed| - 1].item] else [])
  }

  ghost predicate Inv<T>(m: Monitor<T>) {
    && Fits(m.q)
    && |m.removed| == |Consumed(m.removed)| + m.q.overruns
  }

  lemma ConsumedOfOne<T>(removed: seq<Removal<T>>, r: Removal<T>)
    ensures Consumed(removed + [r]) == Consumed(removed) + (if r.Taken? then [r.item] else [])
    ensures Items(removed + [r]) == Items(removed) + [r.item]
  {
    assert (removed + [r])[..|removed|] == removed;
  }

  /** One step keeps the counts, and what has left followed by what is still queued grows by what was passed in. */
  lemma StepIsFifo<T>(m: Monitor<T>, step: Step<T>)
    requires Inv(m) && Enabled(m, step)
    ensures Inv(Next(m, step))
    ensures Passed(Next(m, step)) == Passed(m) + Produced([step])
    ensures !step.EnqueueNowait? ==> Next(m, step).q.overruns == m.q.overruns
  {
    hide Consumed, Items;
    match step {
      case Enqueue(item) => AddIsFifo(m, item);
      case EnqueueNowait(item) => AddIsFifo(m, item);
      case Dequeue =>
        ConsumedOfOne(m.removed, Taken(m.q.items[0]));
        assert m.q.items == [m.q.items[0]] + m.q.items[1..];
      case TimedOut =>
    }
  }

  lemma AddIsFifo<T>(m: Monitor<T>, item: T)
    requires Inv(m)
    ensures Inv(Add(m, item))
    ensures Passed(Add(m, item)) == Passed(m) + [item]
    ensures !IsFull(m.q) ==> Add(m, item).q.overruns == m.q.overruns
  {
    hide Consumed, Items;
    var all := m.q.items + [item];
    assert m.removed + [] == m.removed;
    if IsFull(m.q) {
      ConsumedOfOne(m.removed, Lost(all[0]));
      assert all == [all[0]] + all[1..];
    }
  }

  predicate BlockingOnly<T>(steps: seq<Step<T>>) {
    forall i :: 0 <= i < |steps| ==> !steps[i].EnqueueNowait?
  }

  /** For every interleaving of producers and consumers: what left, in order, then what is queued, is what was passed in. */
  lemma {:induction false} RunIsFifo<T>(m: Monitor<T>, steps: seq<Step<T>>)
    requires Inv(m) && LegalRun(m, steps)
    ensures Inv(Run(m, steps)) && Run(m, steps).q.capacity == m.q.capacity
    ensures Passed(Run(m, steps)) == Passed(m) + Produced(steps)
    ensures BlockingOnly(steps) ==> Run(m, steps).q.overruns == m.q.overruns
    decreases |steps|
  {
    hide Consumed, Items, Next, Inv, Enabled, Passed, Produced;
    if steps == [] {
      NothingProduced<T>();
      assert Passed(m) + [] == Passed(m);
    } else {
      var next := Next(m, steps[0]);
      StepIsFifo(m, steps[0]);
      RunIsFifo(next, steps[1..]);
      ProducedFirst(steps);
      var before, first, rest := Passed(m), Produced([steps[0]]), Produced(steps[1..]);
      assert before + first + rest == before + (first + rest);
      CapacityStays(m, steps[0]);
    }
  }

  lemma NothingProduced<T>()
    ensures Produced<T>([]) == []
  {
  }

  lemma ProducedFirst<T>(steps: seq<Step<T>>)
    requires steps != []
    ensures Produced(steps) == Produced([steps[0]]) + Produced(steps[1..])
  {
    assert Produced([steps[0]][1..]) == [];
  }

  lemma CapacityStays<T>(m: Monitor<T>, step: Step<T>)
    requires Enabled(m, step)
    ensures Next(m, step).q.capacity == m.q.capacity
  {
  }

  /** Conservation: elements passed in = elements consumed + elements overrun + elements queued, and never too many queued. */
  lemma NothingIsLostUncounted<T>(capacity: nat, steps: seq<Step<T>>)
    requires LegalRun(Start(capacity), steps)
    ensures var r := Run(Start(capacity), steps);
            && |Produced(steps)| == |Consumed(r.removed)| + r.q.overruns + |r.q.items|
            && |r.q.items| <= capacity
            && Items(r.removed) + r.q.items == Produced(steps)
  {
    hide Consumed, Items, Run, LegalRun, Produced;
    RunIsFifo(Start(capacity), steps);
    NothingPassed<T>(capacity);
    assert [] + Produced(steps) == Produced(steps);
    var r := Run(Start(capacity), steps);
    ItemsLength(r.removed);
  }

  lemma ItemsLength<T>(removed: seq<Removal<T>>)
    ensures |Items(removed)| == |removed|
  {
  }

  /** With blocking producers only, nothing is overrun and the consumers get the elements in the order they came in. */
  lemma BlockingIsFifo<T>(capacity: nat, steps: seq<Step<T>>)
    requires LegalRun(Start(capacity), steps)
    requires BlockingOnly(steps)
    ensures var r := Run(Start(capacity), steps);
            r.q.overruns == 0 && Consumed(r.removed) + r.q.items == Produced(steps)
  {
    hide Consumed, Items, Run, LegalRun, Produced;
    RunIsFifo(Start(capacity), steps);
    AllConsumed(Run(Start(capacity), steps).removed);
    NothingPassed<T>(capacity);
    assert [] + Produced(steps) == Produced(steps);
  }

  lemma NothingPassed<T>(capacity: nat)
    ensures Passed(Start<T>(capacity)) == [] && Inv(Start<T>(capacity))
  {
  }

  lemma {:induction false} AllConsumed<T>(removed: seq<Removal<T>>)
    requires |Consumed(removed)| == |removed|
    ensures Consumed(removed) == Items(removed)
  {
    if removed != [] {
      var n := |removed| - 1;
      assert removed == removed[..n] + [removed[n]];
      ConsumedOfOne(removed[..n], removed[n]);
      AllConsumed(removed[..n]);
    }
  }

  class MpmcBlockingQueue<T(0)> {
    const ring: CircularQ<T>
    ghost var m: Monitor<T>

    ghost predicate Valid()
      reads this, ring, ring.v
    {
      ring.Valid() && ring.Abstract() == m.q
    }

    constructor (maxItems: nat)
      ensures Valid() && fresh(ring) && fresh(ring.v)
      ensures m == Start(maxItems)
    {
      ring := new CircularQ<T>(maxItems);
      m := Start(maxItems);
    }

    /** One pass of `enqueue` under the mutex: with no room the thread waits again and nothing has changed. */
    method Enqueue(item: T) returns (waits: bool)
      requires Valid()
      modifies this, ring, ring.v
      ensures Valid()
      ensures waits <==> !Enabled(old(m), Step.Enqueue(item))
      ensures m == if waits then old(m) else Next(old(m), Step.Enqueue(item))
    {
      waits := ring.Full();
      if !waits {
        ring.PushBack(item);
        m := Next(m, Step.Enqueue(item));
      }
    }

    method EnqueueNowait(item: T)
      requires Valid()
      modifies this, ring, ring.v
      ensures Valid() && m == Next(old(m), Step.EnqueueNowait(item))
    {
      ring.PushBack(item);
      m := Next(m, Step.EnqueueNowait(item));
    }

    /** The end of `dequeue_for`, when there is something to take or the time is up; nothing comes out only when empty. */
    method DequeueFor() returns (popped: Option<T>)
      requires Valid()
      modifies this, ring
      ensures Valid()
      ensures popped == if Enabled(old(m), Dequeue) then Some(old(m).q.items[0]) else None
      ensures m == Next(old(m), if Enabled(old(m), Dequeue) then Dequeue else TimedOut)
    {
      var empty := ring.Empty();
      if empty {
        return None;
      }
      var item := ring.PopFront();
      m := Next(m, Dequeue);
      return Some(item);
    }

    method OverrunCounter() returns (n: nat)
      requires Valid()
      ensures n == m.q.overruns
    {
      n := ring.OverrunCounter();
    }
  }
}
