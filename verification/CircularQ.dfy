/** The bounded ring buffer of details/circular_q.h, refining a FIFO that drops its oldest element when it is full. */
module CircularQueue {

  /** The abstract queue: `capacity` is what the user asked for, `overruns` counts the elements that were dropped. */
  datatype Queue<T> = Queue(items: seq<T>, capacity: nat, overruns: nat)

  ghost predicate Fits<T>(q: Queue<T>) {
    |q.items| <= q.capacity
  }

  predicate IsFull<T>(q: Queue<T>) {
    |q.items| >= q.capacity
  }

  /** Appends; when that is one too many, the oldest element goes, which with no capacity is the new one itself. */
  function Push<T>(q: Queue<T>, item: T): Queue<T> {
    var all := q.items + [item];
    if |all| <= q.capacity then q.(items := all) else q.(items := all[1..], overruns := q.overruns + 1)
  }

  function Pop<T>(q: Queue<T>): Queue<T>
    requires q.items != []
  {
    q.(items := q.items[1..])
  }

  function PushAll<T>(q: Queue<T>, items: seq<T>): Queue<T>
    decreases |items|
  {
    if items == [] then q else PushAll(Push(q, items[0]), items[1..])
  }

  /** What any number of pushes leaves: the newest elements that fit, the rest counted as overruns. */
  lemma {:induction false} PushAllKeepsTheNewest<T>(q: Queue<T>, items: seq<T>)
    requires Fits(q)
    ensures var all := q.items + items; var r := PushAll(q, items);
            var lost := if |all| <= q.capacity then 0 else |all| - q.capacity;
            r == Queue(all[lost..], q.capacity, q.overruns + lost)
    decreases |items|
  {
    var all := q.items + items;
    if items == [] {
      assert all == q.items;
    } else {
      var next := Push(q, items[0]);
      PushAllKeepsTheNewest(next, items[1..]);
      if |q.items| < q.capacity {
        assert next.items + items[1..] == all;
      } else {
        assert next.items + items[1..] == all[1..];
        assert forall k :: 0 <= k < |all| ==> all[1..][k..] == all[k + 1..];
      }
    }
  }

  /** The slot that follows `i` in a ring of `n` slots. */
  function After(i: nat, n: nat): (r: nat)
    requires i < n
    ensures r < n && r == (i + 1) % n
  {
    NextSlot(i, n);
    if i + 1 == n then 0 else i + 1
  }

  lemma NextSlot(i: nat, n: nat)
    requires i < n
    ensures (i + 1) % n == if i + 1 == n then 0 else i + 1
  {
  }

  /** The slots from `head` round to just before `tail`. */
  function Ring<T>(v: seq<T>, head: nat, tail: nat): (s: seq<T>)
    requires head < |v| && tail < |v|
    ensures |s| == if head <= tail then tail - head else |v| - head + tail
  {
    if head <= tail then v[head..tail] else v[head..] + v[..tail]
  }

  lemma RingWithout<T>(v: seq<T>, head: nat, tail: nat)
    requires head < |v| && tail < |v| && head != tail
    ensures Ring(v, After(head, |v|), tail) == Ring(v, head, tail)[1..]
    ensures Ring(v, head, tail)[0] == v[head]
  {
  }

  lemma RingWith<T>(v: seq<T>, head: nat, tail: nat, item: T)
    requires head < |v| && tail < |v| && After(tail, |v|) != head
    ensures Ring(v[tail := item], head, After(tail, |v|)) == Ring(v, head, tail) + [item]
  {
    var n := After(tail, |v|);
    var w := v[tail := item];
    if head <= tail && n != 0 {
      assert w[head..n] == v[head..tail] + [item];
    } else if head <= tail {
      assert w[head..] == v[head..tail] + [item];
    } else {
      assert w[head..] == v[head..];
      assert w[..n] == v[..tail] + [item];
    }
  }

  /** All the slots, from `head` round to just before `head` again. */
  function Around<T>(v: seq<T>, head: nat): seq<T>
    requires head < |v|
  {
    v[head..] + v[..head]
  }

  lemma AroundWith<T>(v: seq<T>, head: nat, tail: nat, item: T)
    requires head < |v| && tail < |v| && After(tail, |v|) == head
    ensures Around(v[tail := item], head) == Ring(v, head, tail) + [item]
  {
    var w := v[tail := item];
    if head == 0 {
      assert w == v[..tail] + [item];
    } else {
      assert w[head..] == v[head..];
      assert w[..head] == v[..tail] + [item];
    }
  }

  lemma AroundWithout<T>(w: seq<T>, head: nat)
    requires head < |w|
    ensures Ring(w, After(head, |w|), head) == Around(w, head)[1..]
  {
    assert w[head..][1..] == w[head + 1..];
    if head == 0 {
      assert Around(w, head) == w;
    } else {
      assert Around(w, head)[1..] == w[head + 1..] + w[..head];
    }
  }

  class CircularQ<T(0)> {
    const maxItems: nat // one slot more than the capacity, to tell full from empty
    const v: array<T>
    var head: nat
    var tail: nat
    var overrunCounter: nat

    ghost predicate Valid()
      reads this
    {
      maxItems == v.Length && head < maxItems && tail < maxItems
    }

    /** The elements from `head` round to `tail`, oldest first. */
    ghost function Contents(): (s: seq<T>)
      requires Valid()
      reads this, v
      ensures |s| < maxItems
    {
      Ring(v[..], head, tail)
    }

    ghost function Abstract(): (q: Queue<T>)
      requires Valid()
      reads this, v
      ensures Fits(q)
    {
      Queue(Contents(), maxItems - 1, overrunCounter)
    }

    constructor (capacity: nat)
      ensures Valid() && fresh(v)
      ensures Abstract() == Queue([], capacity, 0)
    {
      maxItems := capacity + 1;
      v := new T[capacity + 1];
      head, tail, overrunCounter := 0, 0, 0;
    }

    method PushBack(item: T)
      requires Valid()
      modifies this, v
      ensures Valid() && Abstract() == Push(old(Abstract()), item)
    {
      hide Ring, Around;
      ghost var before := v[..];
      v[tail] := item;
      assert v[..] == before[tail := item];
      NextSlot(tail, maxItems);
      tail := (tail + 1) % maxItems;
      if tail == head {
        AroundWith(before, head, old(tail), item);
        AroundWithout(v[..], head);
        NextSlot(head, maxItems);
        head := (head + 1) % maxItems;
        overrunCounter := overrunCounter + 1;
      } else {
        RingWith(before, head, old(tail), item);
      }
    }

    method PopFront() returns (item: T)
      requires Valid() && Contents() != []
      modifies this
      ensures Valid() && item == old(Contents()[0])
      ensures Abstract() == Pop(old(Abstract()))
    {
      RingWithout(v[..], head, tail);
      NextSlot(head, maxItems);
      item := v[head];
      head := (head + 1) % maxItems;
    }

    method Empty() returns (b: bool)
      requires Valid()
      ensures b <==> Contents() == []
    {
      b := tail == head;
    }

    method Full() returns (b: bool)
      requires Valid()
      ensures b <==> IsFull(Abstract())
    {
      NextSlot(tail, maxItems);
      b := (tail + 1) % maxItems == head;
    }

    method OverrunCounter() returns (n: nat)
      ensures n == overrunCounter
    {
      n := overrunCounter;
    }
  }
}
