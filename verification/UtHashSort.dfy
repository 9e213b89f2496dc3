/**
The merge sort of `HASH_SRT` on sequences: one pass merges neighbouring runs of a given size, and passes with
doubled sizes follow until one merge covers the whole list.
*/
module UtHashSort {

  /** The order a C comparator induces: `x` may stand before `y` when `cmp(x, y) <= 0`. */
  ghost predicate Le<T>(cmp: (T, T) -> int, x: T, y: T) {
    cmp(x, y) <= 0
  }

  ghost predicate TotalPreorder<T>(cmp: (T, T) -> int, d: set<T>) {
    && (forall x, y | x in d && y in d :: Le(cmp, x, y) || Le(cmp, y, x))
    && (forall x, y, z | x in d && y in d && z in d :: Le(cmp, x, y) && Le(cmp, y, z) ==> Le(cmp, x, z))
  }

  ghost function Elements<T>(s: seq<T>): set<T> {
    set x | x in s
  }

  ghost predicate Within<T>(s: seq<T>, d: set<T>) {
    forall i | 0 <= i < |s| :: s[i] in d
  }

  ghost predicate Sorted<T>(cmp: (T, T) -> int, s: seq<T>) {
    forall i, j | 0 <= i < j < |s| :: Le(cmp, s[i], s[j])
  }

  ghost predicate Distinct<T>(s: seq<T>) {
    forall i, j | 0 <= i < j < |s| :: s[i] != s[j]
  }

  /** The elements of `s` that the comparator does not tell from `x`, in the order in which they stand. */
  ghost function Ties<T>(cmp: (T, T) -> int, x: T, s: seq<T>): seq<T> {
    if s == [] then []
    else TiesOfOne(cmp, x, s[0]) + Ties(cmp, x, s[1..])
  }

  ghost function TiesOfOne<T>(cmp: (T, T) -> int, x: T, y: T): seq<T> {
    if Le(cmp, x, y) && Le(cmp, y, x) then [y] else []
  }

  /** `r` is `s` sorted: in order, the same elements, and those that tie in the order in which they stood. */
  ghost predicate StablySorted<T>(cmp: (T, T) -> int, r: seq<T>, s: seq<T>) {
    Sorted(cmp, r) && multiset(r) == multiset(s) && forall x | x in s :: Ties(cmp, x, r) == Ties(cmp, x, s)
  }

  function Min(a: nat, b: nat): nat { if a < b then a else b }

  /** Merging two runs; the left run wins ties. */
  ghost function Merge<T>(cmp: (T, T) -> int, p: seq<T>, q: seq<T>): (r: seq<T>)
    ensures |r| == |p| + |q|
    decreases |p| + |q|
  {
    if p == [] then q
    else if q == [] then p
    else if Le(cmp, p[0], q[0]) then [p[0]] + Merge(cmp, p[1..], q)
    else [q[0]] + Merge(cmp, p, q[1..])
  }

  /** One pass: neighbouring runs of `k` elements are merged pairwise. */
  ghost function Pass<T>(cmp: (T, T) -> int, s: seq<T>, k: nat): (r: seq<T>)
    requires k > 0
    ensures |r| == |s|
    decreases |s|
  {
    if s == [] then []
    else
      var n, m := Min(k, |s|), Min(2 * k, |s|);
      Merge(cmp, s[..n], s[n..m]) + Pass(cmp, s[m..], k)
  }

  /** The passes from run size `k` on; the pass that made at most one merge is the last. */
  ghost function SortFrom<T>(cmp: (T, T) -> int, s: seq<T>, k: nat): (r: seq<T>)
    requires k > 0
    ensures |r| == |s|
    decreases |s| - k
  {
    var r := Pass(cmp, s, k);
    if |s| <= 2 * k then r else SortFrom(cmp, r, 2 * k)
  }

  ghost function Sort<T>(cmp: (T, T) -> int, s: seq<T>): (r: seq<T>)
    ensures |r| == |s|
  {
    SortFrom(cmp, s, 1)
  }

  // ---- permutation ----

  lemma {:induction false} MergePermutes<T>(cmp: (T, T) -> int, p: seq<T>, q: seq<T>)
    ensures multiset(Merge(cmp, p, q)) == multiset(p) + multiset(q)
    decreases |p| + |q|
  {
    if p == [] || q == [] {
    } else {
      assert p == [p[0]] + p[1..] && q == [q[0]] + q[1..];
      MergePermutes(cmp, p[1..], q);
      MergePermutes(cmp, p, q[1..]);
    }
  }

  lemma MultisetOfThree<T>(s: seq<T>, n: nat, m: nat)
    requires n <= m <= |s|
    ensures multiset(s) == multiset(s[..n]) + multiset(s[n..m]) + multiset(s[m..])
  {
    assert s[..m] == s[..n] + s[n..m];
    assert s == s[..m] + s[m..];
  }

  lemma {:induction false} PassPermutes<T>(cmp: (T, T) -> int, s: seq<T>, k: nat)
    requires k > 0
    ensures multiset(Pass(cmp, s, k)) == multiset(s)
    decreases |s|
  {
    if s != [] {
      var n, m := Min(k, |s|), Min(2 * k, |s|);
      MergePermutes(cmp, s[..n], s[n..m]);
      PassPermutes(cmp, s[m..], k);
      MultisetOfThree(s, n, m);
    }
  }

  lemma {:induction false} SortFromPermutes<T>(cmp: (T, T) -> int, s: seq<T>, k: nat)
    requires k > 0
    ensures multiset(SortFrom(cmp, s, k)) == multiset(s)
    decreases |s| - k
  {
    PassPermutes(cmp, s, k);
    if |s| > 2 * k {
      SortFromPermutes(cmp, Pass(cmp, s, k), 2 * k);
    }
  }

  lemma {:induction false} MergeTakesFromBoth<T>(cmp: (T, T) -> int, p: seq<T>, q: seq<T>, d: set<T>)
    requires Within(p, d) && Within(q, d)
    ensures Within(Merge(cmp, p, q), d)
    decreases |p| + |q|
  {
    if p == [] || q == [] {
    } else {
      MergeTakesFromBoth(cmp, p[1..], q, d);
      MergeTakesFromBoth(cmp, p, q[1..], d);
    }
  }

  lemma {:induction false} PassTakesFrom<T>(cmp: (T, T) -> int, s: seq<T>, k: nat, d: set<T>)
    requires k > 0 && Within(s, d)
    ensures Within(Pass(cmp, s, k), d)
    decreases |s|
  {
    if s != [] {
      var n, m := Min(k, |s|), Min(2 * k, |s|);
      MergeTakesFromBoth(cmp, s[..n], s[n..m], d);
      PassTakesFrom(cmp, s[m..], k, d);
    }
  }

  // ---- order ----

  /** Every run of `k` elements is in order. */
  ghost predicate RunsSorted<T>(cmp: (T, T) -> int, s: seq<T>, k: nat)
    requires k > 0
    decreases |s|
  {
    s == [] || (Sorted(cmp, s[..Min(k, |s|)]) && RunsSorted(cmp, s[Min(k, |s|)..], k))
  }

  lemma {:induction false} MergeSorts<T>(cmp: (T, T) -> int, d: set<T>, p: seq<T>, q: seq<T>)
    requires TotalPreorder(cmp, d) && Within(p, d) && Within(q, d) && Sorted(cmp, p) && Sorted(cmp, q)
    ensures Sorted(cmp, Merge(cmp, p, q)) && Within(Merge(cmp, p, q), d)
    ensures forall x | x in d && (p != [] ==> Le(cmp, x, p[0])) && (q != [] ==> Le(cmp, x, q[0])) ::
              Merge(cmp, p, q) != [] ==> Le(cmp, x, Merge(cmp, p, q)[0])
    decreases |p| + |q|
  {
    if p == [] || q == [] {
    } else if Le(cmp, p[0], q[0]) {
      MergeSorts(cmp, d, p[1..], q);
      PrependSorted(cmp, d, p[0], Merge(cmp, p[1..], q));
    } else {
      MergeSorts(cmp, d, p, q[1..]);
      PrependSorted(cmp, d, q[0], Merge(cmp, p, q[1..]));
    }
  }

  lemma PrependSorted<T>(cmp: (T, T) -> int, d: set<T>, x: T, s: seq<T>)
    requires TotalPreorder(cmp, d) && x in d && Within(s, d) && Sorted(cmp, s)
    requires s != [] ==> Le(cmp, x, s[0])
    ensures Sorted(cmp, [x] + s) && Within([x] + s, d)
  {
    forall j | 0 <= j < |s| ensures Le(cmp, x, s[j]) {
      assert j == 0 || Le(cmp, s[0], s[j]);
    }
  }

  lemma {:induction false} PassSorts<T>(cmp: (T, T) -> int, d: set<T>, s: seq<T>, k: nat)
    requires k > 0 && TotalPreorder(cmp, d) && Within(s, d) && RunsSorted(cmp, s, k)
    ensures RunsSorted(cmp, Pass(cmp, s, k), 2 * k) && Within(Pass(cmp, s, k), d)
    decreases |s|
  {
    hide TotalPreorder, Sorted, Merge, RunsSorted;
    if s == [] {
      NoRun(cmp, s, 0, 0, 2 * k);
    } else {
      var n, m := Min(k, |s|), Min(2 * k, |s|);
      SecondRun(cmp, s, k);
      MergeSorts(cmp, d, s[..n], s[n..m]);
      PassSorts(cmp, d, s[m..], k);
      RunInFront(cmp, Merge(cmp, s[..n], s[n..m]), Pass(cmp, s[m..], k), 2 * k);
    }
  }

  lemma RunInFront<T>(cmp: (T, T) -> int, run: seq<T>, rest: seq<T>, k: nat)
    requires 0 < |run| <= k && (rest != [] ==> |run| == k) && Sorted(cmp, run) && RunsSorted(cmp, rest, k)
    ensures RunsSorted(cmp, run + rest, k)
  {
    hide Sorted;
    var m := Min(k, |run + rest|);
    assert m == |run|;
    assert (run + rest)[..m] == run && (run + rest)[m..] == rest;
  }

  lemma SecondRun<T>(cmp: (T, T) -> int, s: seq<T>, k: nat)
    requires k > 0 && s != [] && RunsSorted(cmp, s, k)
    ensures var n, m := Min(k, |s|), Min(2 * k, |s|);
            Sorted(cmp, s[..n]) && Sorted(cmp, s[n..m]) && RunsSorted(cmp, s[m..], k)
  {
    hide Sorted;
    var n, m := Min(k, |s|), Min(2 * k, |s|);
    FirstRun(cmp, s, k);
    var rest := s[n..];
    SliceTwice(s, n, m);
    if rest != [] {
      FirstRun(cmp, rest, k);
    } else {
      NoRun(cmp, s, n, m, k);
    }
  }

  lemma FirstRun<T>(cmp: (T, T) -> int, s: seq<T>, k: nat)
    requires k > 0 && s != [] && RunsSorted(cmp, s, k)
    ensures Sorted(cmp, s[..Min(k, |s|)]) && RunsSorted(cmp, s[Min(k, |s|)..], k)
  {
  }

  lemma NoRun<T>(cmp: (T, T) -> int, s: seq<T>, n: nat, m: nat, k: nat)
    requires k > 0 && n == m == |s|
    ensures Sorted(cmp, s[n..m]) && RunsSorted(cmp, s[m..], k)
  {
  }

  lemma SliceTwice<T>(s: seq<T>, n: nat, m: nat)
    requires n <= m <= |s|
    ensures s[n..][..m - n] == s[n..m] && s[n..][m - n..] == s[m..]
  {
  }

  lemma {:induction false} SortFromSorts<T>(cmp: (T, T) -> int, d: set<T>, s: seq<T>, k: nat)
    requires k > 0 && TotalPreorder(cmp, d) && Within(s, d) && RunsSorted(cmp, s, k)
    ensures Sorted(cmp, SortFrom(cmp, s, k))
    decreases |s| - k
  {
    var r := Pass(cmp, s, k);
    PassSorts(cmp, d, s, k);
    if |s| <= 2 * k {
      assert r[..|r|] == r;
    } else {
      SortFromSorts(cmp, d, r, 2 * k);
    }
  }

  lemma {:induction false} RunsOfOneAreSorted<T>(cmp: (T, T) -> int, s: seq<T>)
    ensures RunsSorted(cmp, s, 1)
    decreases |s|
  {
    if s != [] {
      RunsOfOneAreSorted(cmp, s[1..]);
    }
  }

  // ---- stability ----

  lemma {:induction false} TiesOfSum<T>(cmp: (T, T) -> int, x: T, s: seq<T>, t: seq<T>)
    ensures Ties(cmp, x, s + t) == Ties(cmp, x, s) + Ties(cmp, x, t)
  {
    if s == [] {
      assert s + t == t;
    } else {
      assert (s + t)[0] == s[0] && (s + t)[1..] == s[1..] + t;
      TiesOfSum(cmp, x, s[1..], t);
    }
  }

  /** Nothing in a sorted run ties with `x` when its first element is already strictly behind something that does. */
  lemma {:induction false} NoTies<T>(cmp: (T, T) -> int, x: T, s: seq<T>)
    requires forall i | 0 <= i < |s| :: TiesOfOne(cmp, x, s[i]) == []
    ensures Ties(cmp, x, s) == []
  {
    if s != [] {
      NoTies(cmp, x, s[1..]);
    }
  }

  lemma TiesOfCons<T>(cmp: (T, T) -> int, x: T, y: T, s: seq<T>)
    ensures Ties(cmp, x, [y] + s) == TiesOfOne(cmp, x, y) + Ties(cmp, x, s)
  {
    assert ([y] + s)[1..] == s;
  }

  lemma TiesOfHead<T>(cmp: (T, T) -> int, x: T, s: seq<T>)
    requires s != []
    ensures Ties(cmp, x, s) == TiesOfOne(cmp, x, s[0]) + Ties(cmp, x, s[1..])
  {
  }

  /** A right element that overtakes the left run ties with nothing that is left in that run. */
  lemma OvertakenDoNotTie<T>(cmp: (T, T) -> int, d: set<T>, x: T, p: seq<T>, y: T)
    requires TotalPreorder(cmp, d) && x in d && y in d && Within(p, d) && Sorted(cmp, p)
    requires p != [] && !Le(cmp, p[0], y) && TiesOfOne(cmp, x, y) != []
    ensures Ties(cmp, x, p) == []
  {
    forall i | 0 <= i < |p| ensures TiesOfOne(cmp, x, p[i]) == [] {
      var z := p[i];
      assert i == 0 || Le(cmp, p[0], z);
      assert Le(cmp, z, x) && Le(cmp, x, y) ==> Le(cmp, z, y);
    }
    NoTies(cmp, x, p);
  }

  lemma SortedTail<T>(cmp: (T, T) -> int, p: seq<T>)
    requires p != [] && Sorted(cmp, p)
    ensures Sorted(cmp, p[1..])
  {
  }

  lemma Reassociate<T>(a: seq<T>, b: seq<T>, c: seq<T>)
    ensures a + (b + c) == a + b + c
  {
  }

  lemma {:induction false} MergeIsStable<T>(cmp: (T, T) -> int, d: set<T>, x: T, p: seq<T>, q: seq<T>)
    requires TotalPreorder(cmp, d) && x in d && Within(p, d) && Within(q, d) && Sorted(cmp, p)
    ensures Ties(cmp, x, Merge(cmp, p, q)) == Ties(cmp, x, p) + Ties(cmp, x, q)
    decreases |p| + |q|
  {
    hide Sorted, TotalPreorder, TiesOfOne, Ties;
    if p == [] || q == [] {
      TiesOfEmpty(cmp, x);
    } else if Le(cmp, p[0], q[0]) {
      SortedTail(cmp, p);
      MergeIsStable(cmp, d, x, p[1..], q);
      TiesOfCons(cmp, x, p[0], Merge(cmp, p[1..], q));
      TiesOfHead(cmp, x, p);
      Reassociate(TiesOfOne(cmp, x, p[0]), Ties(cmp, x, p[1..]), Ties(cmp, x, q));
    } else {
      MergeIsStable(cmp, d, x, p, q[1..]);
      TiesOfCons(cmp, x, q[0], Merge(cmp, p, q[1..]));
      TiesOfHead(cmp, x, q);
      if TiesOfOne(cmp, x, q[0]) != [] {
        OvertakenDoNotTie(cmp, d, x, p, q[0]);
      }
    }
  }

  lemma TiesOfEmpty<T>(cmp: (T, T) -> int, x: T)
    ensures Ties(cmp, x, []) == []
  {
  }

  lemma TiesOfThree<T>(cmp: (T, T) -> int, x: T, p: seq<T>, q: seq<T>, r: seq<T>)
    ensures Ties(cmp, x, p + q + r) == Ties(cmp, x, p) + Ties(cmp, x, q) + Ties(cmp, x, r)
  {
    TiesOfSum(cmp, x, p, q);
    TiesOfSum(cmp, x, p + q, r);
  }

  lemma {:induction false} PassIsStable<T>(cmp: (T, T) -> int, d: set<T>, x: T, s: seq<T>, k: nat)
    requires k > 0 && TotalPreorder(cmp, d) && x in d && Within(s, d) && RunsSorted(cmp, s, k)
    ensures Ties(cmp, x, Pass(cmp, s, k)) == Ties(cmp, x, s)
    decreases |s|
  {
    hide Ties, TiesOfOne, Merge, Le, TotalPreorder, Sorted, RunsSorted;
    if s != [] {
      var n, m := Min(k, |s|), Min(2 * k, |s|);
      var p, q, rest := s[..n], s[n..m], s[m..];
      SecondRun(cmp, s, k);
      MergeIsStable(cmp, d, x, p, q);
      PassIsStable(cmp, d, x, rest, k);
      TiesOfSum(cmp, x, Merge(cmp, p, q), Pass(cmp, rest, k));
      TiesOfThree(cmp, x, p, q, rest);
      assert s == p + q + rest;
    }
  }

  lemma {:induction false} SortFromIsStable<T>(cmp: (T, T) -> int, d: set<T>, x: T, s: seq<T>, k: nat)
    requires k > 0 && TotalPreorder(cmp, d) && x in d && Within(s, d) && RunsSorted(cmp, s, k)
    ensures Ties(cmp, x, SortFrom(cmp, s, k)) == Ties(cmp, x, s)
    decreases |s| - k
  {
    PassIsStable(cmp, d, x, s, k);
    if |s| > 2 * k {
      PassSorts(cmp, d, s, k);
      SortFromIsStable(cmp, d, x, Pass(cmp, s, k), 2 * k);
    }
  }

  // ---- the sort ----

  /** For every list and every total preorder, the sort returns a sorted, stable permutation. */
  lemma SortIsCorrect<T>(cmp: (T, T) -> int, s: seq<T>)
    requires TotalPreorder(cmp, Elements(s))
    ensures StablySorted(cmp, Sort(cmp, s), s)
  {
    RunsOfOneAreSorted(cmp, s);
    SortFromSorts(cmp, Elements(s), s, 1);
    SortPermutes(cmp, s);
    forall x | x in s ensures Ties(cmp, x, Sort(cmp, s)) == Ties(cmp, x, s) {
      SortFromIsStable(cmp, Elements(s), x, s, 1);
    }
  }

  /** The permutation half needs nothing of the comparator. */
  lemma SortPermutes<T>(cmp: (T, T) -> int, s: seq<T>)
    ensures multiset(Sort(cmp, s)) == multiset(s)
  {
    SortFromPermutes(cmp, s, 1);
  }

  // ---- ordered insertion ----

  /** Where `HASH_ADD_INORDER` stops: at the first element that the comparator puts after `x`. */
  ghost function InsertionPoint<T>(cmp: (T, T) -> int, s: seq<T>, x: T): (i: nat)
    ensures i <= |s|
    ensures forall j | 0 <= j < i :: Le(cmp, s[j], x)
    ensures i < |s| ==> !Le(cmp, s[i], x)
  {
    if s == [] || !Le(cmp, s[0], x) then 0 else 1 + InsertionPoint(cmp, s[1..], x)
  }

  ghost function InsertInOrder<T>(cmp: (T, T) -> int, s: seq<T>, x: T): (r: seq<T>) {
    var i := InsertionPoint(cmp, s, x);
    s[..i] + [x] + s[i..]
  }

  lemma BehindInsertionPoint<T>(cmp: (T, T) -> int, d: set<T>, s: seq<T>, x: T)
    requires TotalPreorder(cmp, d) && x in d && Within(s, d) && Sorted(cmp, s)
    ensures forall j | InsertionPoint(cmp, s, x) <= j < |s| :: Le(cmp, x, s[j]) && !Le(cmp, s[j], x)
  {
    var i := InsertionPoint(cmp, s, x);
    forall j | i <= j < |s| ensures Le(cmp, x, s[j]) && !Le(cmp, s[j], x) {
      assert i == j || Le(cmp, s[i], s[j]);
    }
  }

  /** Ordered insertion puts the new element behind all its ties. */
  lemma InsertInOrderIsStable<T>(cmp: (T, T) -> int, d: set<T>, s: seq<T>, x: T)
    requires TotalPreorder(cmp, d) && x in d && Within(s, d) && Sorted(cmp, s)
    ensures Ties(cmp, x, InsertInOrder(cmp, s, x)) == Ties(cmp, x, s) + [x]
  {
    InsertInOrderTies(cmp, d, s, x, x);
  }

  /** Ordered insertion keeps a sorted list sorted. */
  lemma InsertInOrderSorts<T>(cmp: (T, T) -> int, d: set<T>, s: seq<T>, x: T)
    requires TotalPreorder(cmp, d) && x in d && Within(s, d) && Sorted(cmp, s)
    ensures Sorted(cmp, InsertInOrder(cmp, s, x))
  {
    BehindInsertionPoint(cmp, d, s, x);
  }

  /** The new element comes last among its ties, and nothing else changes for any element. */
  lemma InsertInOrderTies<T>(cmp: (T, T) -> int, d: set<T>, s: seq<T>, x: T, y: T)
    requires TotalPreorder(cmp, d) && x in d && y in d && Within(s, d) && Sorted(cmp, s)
    ensures Ties(cmp, y, InsertInOrder(cmp, s, x)) == Ties(cmp, y, s) + TiesOfOne(cmp, y, x)
  {
    hide Sorted, Ties, TiesOfOne, TotalPreorder, InsertionPoint;
    var i := InsertionPoint(cmp, s, x);
    var front, back := s[..i], s[i..];
    assert s == front + back;
    TiesOfSum(cmp, y, front, back);
    TiesOfThree(cmp, y, front, [x], back);
    TiesOfSingle(cmp, y, x);
    TiesEitherWay(cmp, d, s, x, y);
    var f := Ties(cmp, y, front);
    assert f + [] == f && f + [x] + [] == f + [x];
  }

  /** Either the two do not tie, or nothing behind the insertion point ties with the new element. */
  lemma TiesEitherWay<T>(cmp: (T, T) -> int, d: set<T>, s: seq<T>, x: T, y: T)
    requires TotalPreorder(cmp, d) && x in d && y in d && Within(s, d) && Sorted(cmp, s)
    ensures TiesOfOne(cmp, y, x) == []
         || (TiesOfOne(cmp, y, x) == [x] && Ties(cmp, y, s[InsertionPoint(cmp, s, x)..]) == [])
  {
    hide Ties;
    if TiesOfOne(cmp, y, x) == [x] {
      BehindInsertionPoint(cmp, d, s, x);
      NoTies(cmp, y, s[InsertionPoint(cmp, s, x)..]);
    }
  }

  lemma TiesOfSingle<T>(cmp: (T, T) -> int, y: T, x: T)
    ensures Ties(cmp, y, [x]) == TiesOfOne(cmp, y, x)
  {
    assert Ties(cmp, y, [x][1..]) == [];
  }

  // ---- a stable sort is unique ----

  lemma HeadOfTies<T>(cmp: (T, T) -> int, x: T, s: seq<T>)
    requires s != [] && Le(cmp, x, s[0]) && Le(cmp, s[0], x)
    ensures Ties(cmp, x, s) == [s[0]] + Ties(cmp, x, s[1..])
  {
  }

  /** Two stable sorts of one list are the same list. */
  lemma {:induction false} SortedTiesUnique<T>(cmp: (T, T) -> int, d: set<T>, r: seq<T>, r': seq<T>)
    requires TotalPreorder(cmp, d) && Within(r, d) && Within(r', d) && Sorted(cmp, r) && Sorted(cmp, r') && |r| == |r'|
    requires forall x | x in d :: Ties(cmp, x, r) == Ties(cmp, x, r')
    requires multiset(r) == multiset(r')
    ensures r == r'
    decreases |r|
  {
    hide Ties, Sorted, TotalPreorder;
    if r != [] {
      HeadsTie(cmp, d, r, r');
      var x := r[0];
      HeadOfTies(cmp, x, r);
      HeadOfTies(cmp, x, r');
      assert r[0] == Ties(cmp, x, r)[0] == Ties(cmp, x, r')[0] == r'[0];
      SameTails(r, r');
      forall y | y in d ensures Ties(cmp, y, r[1..]) == Ties(cmp, y, r'[1..]) {
        TailTies(cmp, y, r, r');
      }
      SortedTail(cmp, r);
      SortedTail(cmp, r');
      SortedTiesUnique(cmp, d, r[1..], r'[1..]);
    }
  }

  lemma TailTies<T>(cmp: (T, T) -> int, y: T, r: seq<T>, r': seq<T>)
    requires r != [] && r' != [] && r[0] == r'[0] && Ties(cmp, y, r) == Ties(cmp, y, r')
    ensures Ties(cmp, y, r[1..]) == Ties(cmp, y, r'[1..])
  {
    var one, a, b := TiesOfOne(cmp, y, r[0]), Ties(cmp, y, r[1..]), Ties(cmp, y, r'[1..]);
    assert (one + a)[|one|..] == a && (one + b)[|one|..] == b;
  }

  lemma SameTails<T>(r: seq<T>, r': seq<T>)
    requires r != [] && r' != [] && r[0] == r'[0] && multiset(r) == multiset(r')
    ensures multiset(r[1..]) == multiset(r'[1..])
  {
    assert r == [r[0]] + r[1..] && r' == [r[0]] + r'[1..];
    assert multiset(r[1..]) == multiset(r) - multiset{r[0]} && multiset(r'[1..]) == multiset(r') - multiset{r[0]};
  }

  lemma HeadsTie<T>(cmp: (T, T) -> int, d: set<T>, r: seq<T>, r': seq<T>)
    requires TotalPreorder(cmp, d) && Within(r, d) && Within(r', d) && Sorted(cmp, r) && Sorted(cmp, r')
    requires r != [] && multiset(r) == multiset(r')
    ensures r' != [] && Le(cmp, r[0], r'[0]) && Le(cmp, r'[0], r[0]) && Le(cmp, r[0], r[0])
  {
    assert r[0] in multiset(r');
    assert r' != [];
    assert r'[0] in multiset(r);
    var i :| 0 <= i < |r| && r[i] == r'[0];
    var j :| 0 <= j < |r'| && r'[j] == r[0];
    assert Le(cmp, r[0], r[i]) && Le(cmp, r'[0], r'[j]);
  }
}
