/**
The links of the application-order list and the list operations that rewrite them in place: appending, inserting,
unlinking, and the bottom-up merge sort of `HASH_SRT`.
*/
module UtHashLinks {
  import opened UtHashSort
  import opened UtHashModel

  /** The element at a position, or null beside the list. */
  ghost function At(s: seq<Handle>, i: int): Handle? {
    if 0 <= i < |s| then s[i] else null
  }

  /** `next` of every element from position `from` on leads to its successor. */
  ghost predicate NextLinked(s: seq<Handle>, from: nat)
    reads s`next
  {
    forall i {:trigger s[i].next} | from <= i < |s| :: s[i].next == At(s, i + 1)
  }

  ghost predicate AppLinked(s: seq<Handle>)
    reads s`next, s`prev
  {
    && NextLinked(s, 0)
    && (forall i {:trigger s[i].prev} | 0 <= i < |s| :: s[i].prev == At(s, i - 1))
  }

  /** The list built so far: every link but the `next` of the last element is in place. */
  ghost predicate OpenLinked(s: seq<Handle>)
    reads s`next, s`prev
  {
    && (forall i {:trigger s[i].next} | 0 <= i < |s| - 1 :: s[i].next == s[i + 1])
    && (forall i {:trigger s[i].prev} | 0 <= i < |s| :: s[i].prev == At(s, i - 1))
  }

  /** Appends `e` to the list under construction (src/include/uthash.h:933-943). */
  method AppendOutput(list: Handle?, tail: Handle?, e: Handle, ghost out: seq<Handle>) returns (list': Handle?)
    requires list == At(out, 0) && tail == At(out, |out| - 1)
    requires OpenLinked(out) && Distinct(out) && e !in out
    modifies e`prev, (if tail == null then {} else {tail})`next
    ensures list' == At(out + [e], 0) && OpenLinked(out + [e])
  {
    list' := list;
    if tail != null {
      tail.next := e;
    } else {
      list' := e;
    }
    e.prev := tail;
  }

  /** Steps over a run of at most `insize` elements (src/include/uthash.h:893-902). */
  method TakeRun(p: Handle, insize: nat, ghost s: seq<Handle>, ghost base: nat) returns (psize: nat, q: Handle?)
    requires insize > 0 && base < |s| && p == s[base] && NextLinked(s, base)
    ensures psize == Min(insize, |s| - base) && q == At(s, base + psize)
  {
    q := p;
    psize := 0;
    var i := 0;
    while i < insize
      invariant i == psize <= Min(insize, |s| - base) && q == At(s, base + psize) && q != null
    {
      psize := psize + 1;
      q := q.next;
      if q == null {
        break;
      }
      i := i + 1;
    }
  }

  /** The elements of `s` that a merge has yet to take: the left run from `i` up to `mid`, and everything from `j` on. */
  ghost predicate Untaken(s: seq<Handle>, i: nat, mid: nat, j: nat, out: seq<Handle>) {
    forall k | i <= k < |s| && (k < mid || j <= k) :: s[k] !in out
  }

  ghost predicate LinkedAhead(s: seq<Handle>, i: nat, mid: nat, j: nat)
    reads s`next
  {
    forall k {:trigger s[k].next} | i <= k < |s| && (k < mid || j <= k) :: s[k].next == At(s, k + 1)
  }

  /** What a merge has still to deliver. */
  ghost function Pending(cmp: (Handle, Handle) -> int, s: seq<Handle>, i: nat, mid: nat, j: nat, end: nat): seq<Handle>
    requires i <= mid <= j <= end <= |s|
  {
    Merge(cmp, s[i..mid], s[j..end])
  }

  /** What the output will be when the merge is done. */
  ghost function Total(cmp: (Handle, Handle) -> int, s: seq<Handle>, i: nat, mid: nat, j: nat, end: nat,
                       out: seq<Handle>): seq<Handle>
    requires i <= mid <= j <= end <= |s|
  {
    out + Pending(cmp, s, i, mid, j, end)
  }

  lemma PendingStep(cmp: (Handle, Handle) -> int, s: seq<Handle>, i: nat, mid: nat, j: nat, end: nat, left: bool,
                    out: seq<Handle>)
    requires i <= mid <= j <= end <= |s| && (i < mid || j < end)
    requires left <==> i < mid && (j == end || Le(cmp, s[i], s[j]))
    ensures Total(cmp, s, i, mid, j, end, out) ==
            if left then Total(cmp, s, i + 1, mid, j, end, out + [s[i]])
            else Total(cmp, s, i, mid, j + 1, end, out + [s[j]])
  {
    if left {
      assert s[i..mid] == [s[i]] + s[i + 1..mid];
    } else {
      assert s[j..end] == [s[j]] + s[j + 1..end];
    }
  }

  /** Chooses and removes the next element of two runs (src/include/uthash.h:905-932). */
  method TakeNext(cmp: (Handle, Handle) -> int, p: Handle?, q: Handle?, psize: nat, qsize: nat,
                  ghost s: seq<Handle>, ghost i: nat, ghost mid: nat, ghost j: nat, ghost end: nat)
    returns (e: Handle, p': Handle?, q': Handle?, psize': nat, qsize': nat, ghost left: bool)
    requires i <= mid <= j <= end <= |s| && psize == mid - i && (j < end <==> qsize != 0 && q != null)
    requires psize != 0 || (qsize != 0 && q != null)
    requires (psize != 0 ==> p == s[i]) && q == At(s, j) && LinkedAhead(s, i, mid, j)
    ensures left <==> i < mid && (j == end || Le(cmp, s[i], s[j]))
    ensures left ==> e == s[i] && p' == At(s, i + 1) && q' == q && psize' == psize - 1 && qsize' == qsize
    ensures !left ==> e == s[j] && p' == p && q' == At(s, j + 1) && psize' == psize && qsize' == qsize - 1
  {
    p', q', psize', qsize' := p, q, psize, qsize;
    if psize == 0 {
      left, e := false, q;
      q' := q.next;
      qsize' := qsize - 1;
    } else if qsize == 0 || q == null {
      left, e := true, p;
      p' := p.next;
      psize' := psize - 1;
    } else if cmp(p, q) <= 0 {
      left, e := true, p;
      p' := p.next;
      psize' := psize - 1;
    } else {
      left, e := false, q;
      q' := q.next;
      qsize' := qsize - 1;
    }
  }

  /** Moving the next element of a run to the output leaves the links of all elements still to be taken alone. */
  method MoveToOutput(list: Handle?, tail: Handle?, e: Handle, ghost out: seq<Handle>,
                      ghost s: seq<Handle>, ghost i: nat, ghost mid: nat, ghost j: nat, ghost left: bool)
    returns (list': Handle?)
    requires Distinct(s) && i <= mid <= j <= |s| && (if left then i < mid && e == s[i] else j < |s| && e == s[j])
    requires list == At(out, 0) && tail == At(out, |out| - 1)
    requires OpenLinked(out) && Distinct(out) && Untaken(s, i, mid, j, out) && LinkedAhead(s, i, mid, j)
    modifies e`prev, (if tail == null then {} else {tail})`next
    ensures list' == At(out + [e], 0) && OpenLinked(out + [e]) && Distinct(out + [e])
    ensures var i', j' := if left then i + 1 else i, if left then j else j + 1;
            Untaken(s, i', mid, j', out + [e]) && LinkedAhead(s, i', mid, j')
  {
    list' := AppendOutput(list, tail, e, out);
  }

  /** One round of the merge: the next element goes from its run to the output (src/include/uthash.h:905-942). */
  method MergeOne(cmp: (Handle, Handle) -> int, list0: Handle?, tail0: Handle?, p0: Handle?, q0: Handle?,
                  psize0: nat, qsize0: nat, ghost s: seq<Handle>, ghost i: nat, ghost mid: nat, ghost j: nat,
                  ghost end: nat, ghost out: seq<Handle>)
    returns (list: Handle?, tail: Handle, p: Handle?, q: Handle?, psize: nat, qsize: nat, ghost left: bool)
    requires Distinct(s) && i <= mid <= j <= end <= |s| && psize0 == mid - i && (j < end <==> qsize0 != 0 && q0 != null)
    requires psize0 != 0 || (qsize0 != 0 && q0 != null)
    requires (psize0 != 0 ==> p0 == s[i]) && q0 == At(s, j) && LinkedAhead(s, i, mid, j)
    requires list0 == At(out, 0) && tail0 == At(out, |out| - 1)
    requires OpenLinked(out) && Distinct(out) && Untaken(s, i, mid, j, out)
    modifies s`prev, (if tail0 == null then {} else {tail0})`next
    ensures left <==> i < mid && (j == end || Le(cmp, s[i], s[j]))
    ensures var i', j' := if left then i + 1 else i, if left then j else j + 1;
            && i' <= mid && j' <= end && tail == (if left then s[i] else s[j])
            && psize == mid - i' && qsize == qsize0 - (j' - j)
            && (psize != 0 ==> p == s[i']) && q == At(s, j')
            && Untaken(s, i', mid, j', out + [tail]) && LinkedAhead(s, i', mid, j')
    ensures list == At(out + [tail], 0) && tail == At(out + [tail], |out|)
    ensures OpenLinked(out + [tail]) && Distinct(out + [tail])
  {
    hide Distinct, OpenLinked, Untaken, LinkedAhead, Le;
    var e: Handle;
    e, p, q, psize, qsize, left := TakeNext(cmp, p0, q0, psize0, qsize0, s, i, mid, j, end);
    NextOfRun(s, i, mid, j, left);
    list := MoveToOutput(list0, tail0, e, out, s, i, mid, j, left);
    tail := e;
  }

  lemma AtIsThere(s: seq<Handle>, j: nat)
    ensures At(s, j) != null <==> j < |s|
  {
  }

  lemma LastIsThere(out: seq<Handle>, s: seq<Handle>)
    requires Within(out, Elements(s))
    ensures At(out, |out| - 1) == null || At(out, |out| - 1) in s
  {
  }

  lemma NextOfRun(s: seq<Handle>, i: nat, mid: nat, j: nat, left: bool)
    requires i <= mid <= j <= |s|
    ensures left && i + 1 < mid ==> At(s, i + 1) == s[i + 1]
  {
  }

  /**
  Merges the run of `psize` elements at `p` with the run of at most `insize` elements at `q`
  (src/include/uthash.h:903-945).
  */
  method MergeRuns(cmp: (Handle, Handle) -> int, list0: Handle?, tail0: Handle?, p0: Handle, q0: Handle?,
                   psize0: nat, insize: nat, ghost s: seq<Handle>, ghost base: nat, ghost out0: seq<Handle>)
    returns (list: Handle?, tail: Handle?, q: Handle?, ghost out: seq<Handle>)
    requires Distinct(s) && 0 < insize && 0 < psize0 && base + psize0 <= |s|
    requires p0 == s[base] && q0 == At(s, base + psize0) && NextLinked(s, base)
    requires list0 == At(out0, 0) && tail0 == At(out0, |out0| - 1) && OpenLinked(out0) && Distinct(out0)
    requires Untaken(s, base, |s|, |s|, out0) && Within(out0, Elements(s))
    modifies s`prev, s`next
    ensures var mid := base + psize0; var end := Min(mid + insize, |s|);
            && out == out0 + Merge(cmp, s[base..mid], s[mid..end])
            && q == At(s, end) && Untaken(s, end, |s|, |s|, out) && NextLinked(s, end)
    ensures list == At(out, 0) && tail == At(out, |out| - 1) && OpenLinked(out) && Distinct(out)
  {
    hide Distinct, OpenLinked, Untaken, LinkedAhead, NextLinked, Pending, Total, Merge, Le, At;
    ghost var mid, end := base + psize0, Min(base + psize0 + insize, |s|);
    RunsUntaken(s, base, mid, out0);
    list, tail, q, out := MergeLoop(cmp, list0, tail0, p0, q0, psize0, insize, s, base, mid, end, out0);
    RunsTaken(cmp, s, base, mid, end, out0, out);
  }

  /** The loop of the merge, over the runs from `base` to `mid` and from `mid` to `end`. */
  method MergeLoop(cmp: (Handle, Handle) -> int, list0: Handle?, tail0: Handle?, p0: Handle, q0: Handle?,
                   psize0: nat, insize: nat, ghost s: seq<Handle>, ghost base: nat, ghost mid: nat, ghost end: nat,
                   ghost out0: seq<Handle>)
    returns (list: Handle?, tail: Handle?, q: Handle?, ghost out: seq<Handle>)
    requires Distinct(s) && base + psize0 == mid <= end <= |s| && 0 < psize0 && end == Min(mid + insize, |s|)
    requires p0 == s[base] && q0 == At(s, mid) && LinkedAhead(s, base, mid, mid)
    requires list0 == At(out0, 0) && tail0 == At(out0, |out0| - 1) && OpenLinked(out0) && Distinct(out0)
    requires Untaken(s, base, mid, mid, out0) && Within(out0, Elements(s))
    modifies s`prev, s`next
    ensures Total(cmp, s, mid, mid, end, end, out) == Total(cmp, s, base, mid, mid, end, out0)
    ensures q == At(s, end) && Untaken(s, mid, mid, end, out) && LinkedAhead(s, mid, mid, end)
    ensures list == At(out, 0) && tail == At(out, |out| - 1) && OpenLinked(out) && Distinct(out)
  {
    hide Distinct, OpenLinked, Untaken, LinkedAhead, NextLinked, Pending, Total, Merge, Le, At;
    LastIsThere(out0, s);
    ghost var i, j := base, mid;
    list, tail, q, out := list0, tail0, q0, out0;
    var p: Handle? := p0;
    var psize, qsize := psize0, insize;
    while psize != 0 || (qsize != 0 && q != null)
      invariant base <= i <= mid <= j <= end && psize == mid - i && qsize == mid + insize - j
      invariant (psize != 0 ==> p == s[i]) && q == At(s, j)
      invariant list == At(out, 0) && tail == At(out, |out| - 1) && OpenLinked(out) && Distinct(out)
      invariant Untaken(s, i, mid, j, out) && LinkedAhead(s, i, mid, j)
      invariant tail == null || tail in s
      invariant Total(cmp, s, i, mid, j, end, out) == Total(cmp, s, base, mid, mid, end, out0)
      decreases psize + qsize
    {
      AtIsThere(s, j);
      ghost var left;
      list, tail, p, q, psize, qsize, left := MergeOne(cmp, list, tail, p, q, psize, qsize, s, i, mid, j, end, out);
      PendingStep(cmp, s, i, mid, j, end, left, out);
      out := out + [tail];
      i, j := if left then i + 1 else i, if left then j else j + 1;
    }
    AtIsThere(s, j);
  }

  lemma RunsUntaken(s: seq<Handle>, base: nat, mid: nat, out: seq<Handle>)
    requires base <= mid <= |s| && NextLinked(s, base) && Untaken(s, base, |s|, |s|, out)
    ensures LinkedAhead(s, base, mid, mid) && Untaken(s, base, mid, mid, out)
  {
  }

  lemma RunsTaken(cmp: (Handle, Handle) -> int, s: seq<Handle>, base: nat, mid: nat, end: nat,
                  out0: seq<Handle>, out: seq<Handle>)
    requires base <= mid <= end <= |s| && LinkedAhead(s, mid, mid, end) && Untaken(s, mid, mid, end, out)
    requires Total(cmp, s, mid, mid, end, end, out) == Total(cmp, s, base, mid, mid, end, out0)
    ensures out == out0 + Merge(cmp, s[base..mid], s[mid..end])
    ensures NextLinked(s, end) && Untaken(s, end, |s|, |s|, out)
  {
    assert out + [] == out;
  }

  /** One round of a pass: the next two runs are found and merged (src/include/uthash.h:893-945). */
  method MergeNextRuns(cmp: (Handle, Handle) -> int, list0: Handle?, tail0: Handle?, p: Handle, insize: nat,
                       ghost s: seq<Handle>, ghost base: nat, ghost out0: seq<Handle>)
    returns (list: Handle?, tail: Handle?, q: Handle?, ghost out: seq<Handle>)
    requires Distinct(s) && base < |s| && p == s[base] && NextLinked(s, base) && insize > 0
    requires list0 == At(out0, 0) && tail0 == At(out0, |out0| - 1) && OpenLinked(out0) && Distinct(out0)
    requires Untaken(s, base, |s|, |s|, out0) && Within(out0, Elements(s))
    modifies s`prev, s`next
    ensures var end := Min(base + 2 * insize, |s|);
            && out + Pass(cmp, s[end..], insize) == out0 + Pass(cmp, s[base..], insize)
            && q == At(s, end) && Untaken(s, end, |s|, |s|, out) && NextLinked(s, end)
    ensures Within(out, Elements(s))
    ensures list == At(out, 0) && tail == At(out, |out| - 1) && OpenLinked(out) && Distinct(out)
  {
    hide Distinct, OpenLinked, NextLinked, Untaken, Pass, Merge, At;
    var psize;
    psize, q := TakeRun(p, insize, s, base);
    ghost var mid, end := base + psize, Min(base + 2 * insize, |s|);
    PassFrom(cmp, s, base, insize);
    Reassociate(out0, Merge(cmp, s[base..mid], s[mid..end]), Pass(cmp, s[end..], insize));
    MergeTakesFromBoth(cmp, s[base..mid], s[mid..end], Elements(s));
    list, tail, q, out := MergeRuns(cmp, list0, tail0, p, q, psize, insize, s, base, out0);
  }

  /** One pass over the list (src/include/uthash.h:887-949). */
  method SortPass(cmp: (Handle, Handle) -> int, list0: Handle, insize: nat, ghost s: seq<Handle>)
    returns (list: Handle?, tail: Handle?, nmerges: nat, ghost out: seq<Handle>)
    requires s != [] && list0 == s[0] && Distinct(s) && NextLinked(s, 0) && insize > 0
    modifies s`prev, s`next
    ensures out == Pass(cmp, s, insize) && list == At(out, 0) && tail == At(out, |out| - 1)
    ensures AppLinked(out) && Distinct(out)
    ensures nmerges <= 1 <==> |s| <= 2 * insize
  {
    hide Distinct, OpenLinked, Untaken, NextLinked, Within, Pass;
    var p: Handle? := list0;
    list, tail, nmerges, out := null, null, 0, [];
    ghost var base := 0;
    PassStarts(cmp, s, insize);
    while p != null
      invariant base <= |s| && p == At(s, base) && NextLinked(s, base)
      invariant list == At(out, 0) && tail == At(out, |out| - 1) && OpenLinked(out) && Distinct(out)
      invariant Untaken(s, base, |s|, |s|, out) && Within(out, Elements(s))
      invariant out + Pass(cmp, s[base..], insize) == Pass(cmp, s, insize)
      invariant nmerges == 0 <==> base == 0
      invariant nmerges == 1 ==> base == Min(2 * insize, |s|)
      invariant nmerges > 1 ==> |s| > 2 * insize
      decreases |s| - base
    {
      nmerges := nmerges + 1;
      list, tail, p, out := MergeNextRuns(cmp, list, tail, p, insize, s, base, out);
      base := Min(base + 2 * insize, |s|);
    }
    PassEnds(cmp, s, insize, out);
    CloseOutput(tail, out);
  }

  lemma PassStarts(cmp: (Handle, Handle) -> int, s: seq<Handle>, k: nat)
    requires k > 0
    ensures [] + Pass(cmp, s[0..], k) == Pass(cmp, s, k)
    ensures OpenLinked([]) && Distinct<Handle>([]) && Untaken(s, 0, |s|, |s|, []) && Within([], Elements(s))
  {
    assert s[0..] == s;
  }

  lemma PassEnds(cmp: (Handle, Handle) -> int, s: seq<Handle>, k: nat, out: seq<Handle>)
    requires k > 0 && Within(out, Elements(s))
    ensures out + Pass(cmp, s[|s|..], k) == out
    ensures var tail := At(out, |out| - 1); tail != null ==> tail in s
  {
  }

  method CloseOutput(tail: Handle?, ghost out: seq<Handle>)
    requires tail == At(out, |out| - 1) && OpenLinked(out) && Distinct(out)
    modifies (if tail == null then {} else {tail})`next
    ensures AppLinked(out)
  {
    if tail != null {
      tail.next := null;
    }
  }

  lemma PassUnfolds(cmp: (Handle, Handle) -> int, t: seq<Handle>, k: nat)
    requires t != [] && k > 0
    ensures var n, m := Min(k, |t|), Min(2 * k, |t|);
            Pass(cmp, t, k) == Merge(cmp, t[..n], t[n..m]) + Pass(cmp, t[m..], k)
  {
  }

  lemma PassFrom(cmp: (Handle, Handle) -> int, s: seq<Handle>, base: nat, k: nat)
    requires base < |s| && k > 0
    ensures var mid := base + Min(k, |s| - base); var end := Min(mid + k, |s|);
            Pass(cmp, s[base..], k) == Merge(cmp, s[base..mid], s[mid..end]) + Pass(cmp, s[end..], k)
  {
    hide Pass, Merge;
    var t := s[base..];
    var n, m := Min(k, |t|), Min(2 * k, |t|);
    PassUnfolds(cmp, t, k);
    RunOfSuffix(s, base, n, m);
  }

  lemma RunOfSuffix<T>(s: seq<T>, base: nat, n: nat, m: nat)
    requires n <= m && base + m <= |s|
    ensures s[base..][..n] == s[base..base + n] && s[base..][n..m] == s[base + n..base + m]
    ensures s[base..][m..] == s[base + m..]
  {
  }

  /** All passes (src/include/uthash.h:883-956): the links and the ends of the list become those of the sorted list. */
  method SortLinks(cmp: (Handle, Handle) -> int, head: Handle, ghost s: seq<Handle>)
    returns (list: Handle?, tail: Handle?)
    requires s != [] && head == s[0] && Distinct(s) && AppLinked(s)
    modifies s`prev, s`next
    ensures var r := Sort(cmp, s);
            AppLinked(r) && Distinct(r) && list == r[0] && tail == r[|r| - 1]
  {
    var insize, looping := 1, true;
    ghost var cur := s;
    list, tail := head, null;
    while looping
      invariant insize > 0 && |cur| == |s| && Within(cur, Elements(s))
      invariant list == cur[0] && Distinct(cur) && AppLinked(cur)
      invariant looping ==> SortFrom(cmp, cur, insize) == Sort(cmp, s)
      invariant !looping ==> cur == Sort(cmp, s) && tail == cur[|cur| - 1]
      decreases looping, |s| - insize
    {
      PassTakesFrom(cmp, cur, insize, Elements(s));
      var nmerges;
      list, tail, nmerges, cur := SortPass(cmp, list, insize, cur);
      if nmerges <= 1 {
        looping := false;
      }
      insize := insize * 2;
    }
  }
}
