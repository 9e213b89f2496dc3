/**
What the operations do to the application order, stated without the functions that the model computes it with; and when a
table doubles, what doubling leaves in the heuristic fields, and how long chains can get.
*/
module UtHashOrder {
  import opened Bits
  import opened UtHashSort
  import opened UtHashModel
  import opened UtHashTheorems

  /** `r` is `s` with `h` put in before the first element that the comparator puts after it, or at the end. */
  ghost predicate PutInOrder(r: seq<Handle>, s: seq<Handle>, h: Handle, cmp: (Handle, Handle) -> int) {
    exists i :: 0 <= i <= |s| && IsPlace(r, s, h, cmp, i)
  }

  ghost predicate IsPlace(r: seq<Handle>, s: seq<Handle>, h: Handle, cmp: (Handle, Handle) -> int, i: nat)
    requires i <= |s|
  {
    && r == s[..i] + [h] + s[i..]
    && (forall j | 0 <= j < i :: cmp(s[j], h) <= 0)
    && (i < |s| ==> cmp(s[i], h) > 0)
  }

  /** `r` is `s` with one occurrence of `h` taken out. */
  ghost predicate TakenOut(r: seq<Handle>, s: seq<Handle>, h: Handle) {
    exists i :: 0 <= i < |s| && s[i] == h && r == s[..i] + s[i + 1..]
  }

  lemma AddAsItems(t: Table, h: Handle, app: seq<Handle>)
    requires t.Table? ==> 0 < |t.chains| == |t.mult|
    ensures Items(AddAs(t, h, app)) == app
  {
  }

  // ---- single operations ----

  lemma AddAppends(t: Table, h: Handle)
    requires t.Table? ==> 0 < |t.chains| == |t.mult|
    ensures Items(Add(t, h)) == Items(t) + [h]
  {
    hide AddAs;
    AddAsItems(t, h, Items(t) + [h]);
  }

  /** For every comparator and every list, sorted or not. */
  lemma AddInOrderPlaces(t: Table, h: Handle, cmp: (Handle, Handle) -> int)
    requires t.Table? ==> 0 < |t.chains| == |t.mult|
    ensures PutInOrder(Items(AddInOrder(t, h, cmp)), Items(t), h, cmp)
  {
    hide AddAs;
    AddAsItems(t, h, InsertInOrder(cmp, Items(t), h));
    assert IsPlace(Items(AddInOrder(t, h, cmp)), Items(t), h, cmp, InsertionPoint(cmp, Items(t), h));
  }

  /** On a sorted list: it stays sorted, it gains the one element, and that one stands last among its ties. */
  lemma AddInOrderKeepsOrder(t: Table, h: Handle, cmp: (Handle, Handle) -> int, d: set<Handle>)
    requires t.Table? ==> 0 < |t.chains| == |t.mult|
    requires TotalPreorder(cmp, d) && Within(Items(t), d) && h in d && Sorted(cmp, Items(t))
    ensures var r := Items(AddInOrder(t, h, cmp));
            && Sorted(cmp, r) && multiset(r) == multiset(Items(t)) + multiset{h} && Within(r, d)
            && Ties(cmp, h, r) == Ties(cmp, h, Items(t)) + [h]
            && forall y | y in d :: Ties(cmp, y, r) == Ties(cmp, y, Items(t) + [h])
  {
    hide AddAs, Ties, TotalPreorder, Sorted, InsertionPoint;
    var s := Items(t);
    AddAsItems(t, h, InsertInOrder(cmp, s, h));
    InsertInOrderSorts(cmp, d, s, h);
    InsertInOrderIsStable(cmp, d, s, h);
    InsertInOrderMembers(cmp, s, h);
    forall y | y in d ensures Ties(cmp, y, InsertInOrder(cmp, s, h)) == Ties(cmp, y, s + [h]) {
      InsertInOrderTies(cmp, d, s, h, y);
      TiesOfSum(cmp, y, s, [h]);
      TiesOfSingle(cmp, y, h);
    }
  }

  lemma InsertInOrderMembers(cmp: (Handle, Handle) -> int, s: seq<Handle>, h: Handle)
    ensures multiset(InsertInOrder(cmp, s, h)) == multiset(s) + multiset{h}
    ensures forall k | 0 <= k < |InsertInOrder(cmp, s, h)| :: InsertInOrder(cmp, s, h)[k] == h || InsertInOrder(cmp, s, h)[k] in s
  {
    hide InsertionPoint;
    var i := InsertionPoint(cmp, s, h);
    assert s == s[..i] + s[i..];
    assert multiset(s) == multiset(s[..i]) + multiset(s[i..]);
  }

  lemma DeleteTakesOut(t: Table, h: Handle, hash: Key -> nat)
    requires t.Table? && Inv(t, hash) && h in t.app
    ensures TakenOut(Items(Delete(t, h)), Items(t), h)
  {
    hide Delete, Placed, Without;
    DeleteKeepsInv(t, h, hash);
    var k :| 0 <= k < |t.app| && t.app[k] == h;
    WithoutIs(t.app, k);
  }

  /** The element found, if there is one, is gone; the others keep their order; the new one is last. */
  lemma ReplaceMovesToEnd(t: Table, h: Handle, hash: Key -> nat)
    requires Inv(t, hash) && Legal(t, ReplaceOp(h), hash)
    ensures var found := Find(t, h.key, hash(h.key)); var r := Items(Replace(t, h));
            && r != [] && r[|r| - 1] == h
            && (found == null ==> r[..|r| - 1] == Items(t))
            && (found != null ==> TakenOut(r[..|r| - 1], Items(t), found))
  {
    hide Delete, Add, Placed, TakenOut, FindIn;
    FindIsComplete(t, h.key, hash);
    var found := Find(t, h.key, h.hashv);
    if found == null {
      AddAppends(t, h);
      assert (Items(t) + [h])[..|Items(t)|] == Items(t);
    } else {
      DeleteTakesOut(t, found, hash);
      DeleteKeepsInv(t, found, hash);
      var t1 := Delete(t, found);
      AddAppends(t1, h);
      assert (Items(t1) + [h])[..|Items(t1)|] == Items(t1);
    }
  }

  lemma SortSorts(t: Table, cmp: (Handle, Handle) -> int)
    ensures multiset(Items(SortTable(t, cmp))) == multiset(Items(t))
    ensures TotalPreorder(cmp, Elements(Items(t))) ==> StablySorted(cmp, Items(SortTable(t, cmp)), Items(t))
  {
    hide UtHashSort.Sort, Ties;
    if t.Table? {
      SortPermutes(cmp, t.app);
      if TotalPreorder(cmp, Elements(t.app)) {
        SortIsCorrect(cmp, t.app);
      }
    }
  }

  // ---- runs ----

  ghost function Adds(hs: seq<Handle>): (ops: seq<Op>)
    ensures |ops| == |hs|
  {
    seq(|hs|, i requires 0 <= i < |hs| => AddOp(hs[i]))
  }

  ghost function OrderedAdds(hs: seq<Handle>, cmp: (Handle, Handle) -> int): (ops: seq<Op>)
    ensures |ops| == |hs|
  {
    seq(|hs|, i requires 0 <= i < |hs| => AddInOrderOp(hs[i], cmp))
  }

  /** Plain additions leave the elements in the order of the additions. */
  lemma {:induction false} AddsKeepOrder(t: Table, hs: seq<Handle>, hash: Key -> nat)
    requires Inv(t, hash) && LegalRun(t, Adds(hs), hash)
    ensures Items(Run(t, Adds(hs), hash)) == Items(t) + hs
    decreases |hs|
  {
    hide Inv, Add, Legal;
    if hs != [] {
      assert Adds(hs)[1..] == Adds(hs[1..]);
      StepIsCorrect(t, AddOp(hs[0]), hash);
      TableSizes(t, hash);
      AddAppends(t, hs[0]);
      AddsKeepOrder(Add(t, hs[0]), hs[1..], hash);
      assert Items(t) + [hs[0]] + hs[1..] == Items(t) + hs;
    } else {
      assert Items(t) + hs == Items(t);
    }
  }

  lemma TableSizes(t: Table, hash: Key -> nat)
    requires Inv(t, hash)
    ensures t.Table? ==> 0 < |t.chains| == |t.mult|
  {
  }

  /** Ordered additions to a sorted table leave it sorted, with the new elements behind their ties in the order they came. */
  lemma {:induction false} OrderedAddsKeepSorted(t: Table, hs: seq<Handle>, cmp: (Handle, Handle) -> int, hash: Key -> nat,
                                                 d: set<Handle>)
    requires Inv(t, hash) && LegalRun(t, OrderedAdds(hs, cmp), hash)
    requires TotalPreorder(cmp, d) && Within(Items(t), d) && Within(hs, d) && Sorted(cmp, Items(t))
    ensures var r := Items(Run(t, OrderedAdds(hs, cmp), hash));
            && Sorted(cmp, r) && Within(r, d) && multiset(r) == multiset(Items(t) + hs)
            && forall y | y in d :: Ties(cmp, y, r) == Ties(cmp, y, Items(t) + hs)
    decreases |hs|
  {
    hide Inv, AddInOrder, Legal, Ties, TotalPreorder, Sorted;
    if hs != [] {
      var h, rest := hs[0], hs[1..];
      assert OrderedAdds(hs, cmp)[1..] == OrderedAdds(rest, cmp);
      StepIsCorrect(t, AddInOrderOp(h, cmp), hash);
      TableSizes(t, hash);
      AddInOrderKeepsOrder(t, h, cmp, d);
      var t1 := AddInOrder(t, h, cmp);
      OrderedAddsKeepSorted(t1, rest, cmp, hash, d);
      forall y | y in d ensures Ties(cmp, y, Items(t1) + rest) == Ties(cmp, y, Items(t) + hs) {
        TiesOfSum(cmp, y, Items(t1), rest);
        TiesOfSum(cmp, y, Items(t) + [h], rest);
        assert Items(t) + [h] + rest == Items(t) + hs;
      }
      MembersOfThree(Items(t), h, rest, hs);
    } else {
      assert Items(t) + hs == Items(t);
    }
  }

  lemma MembersOfThree(s: seq<Handle>, h: Handle, rest: seq<Handle>, hs: seq<Handle>)
    requires hs == [h] + rest
    ensures multiset(s + hs) == multiset(s) + multiset{h} + multiset(rest)
  {
    assert s + hs == s + [h] + rest;
  }

  /** Adding in order from the start gives the very list that adding and then sorting gives. */
  lemma OrderedAddsAreSortedAdds(hs: seq<Handle>, cmp: (Handle, Handle) -> int, hash: Key -> nat)
    requires LegalRun(NoTable, OrderedAdds(hs, cmp), hash) && TotalPreorder(cmp, Elements(hs))
    ensures var r := Items(Run(NoTable, OrderedAdds(hs, cmp), hash));
            StablySorted(cmp, r, hs) && r == Sort(cmp, hs)
  {
    hide Ties, TotalPreorder, Sorted, Run, LegalRun, UtHashSort.Sort;
    var d := Elements(hs);
    NothingSorted(cmp);
    OrderedAddsKeepSorted(NoTable, hs, cmp, hash, d);
    assert Items(NoTable) + hs == hs;
    var r := Items(Run(NoTable, OrderedAdds(hs, cmp), hash));
    SortIsCorrect(cmp, hs);
    SameMembers(Sort(cmp, hs), hs);
    SortedTiesUnique(cmp, d, r, Sort(cmp, hs));
  }

  lemma NothingSorted(cmp: (Handle, Handle) -> int)
    ensures Sorted(cmp, [])
  {
  }

  // ---- doubling ----

  /** A table doubles exactly when the chain that grows reaches ten for every `expand_mult` and one, unless that is given up. */
  lemma DoublesExactlyWhenLong(t: Table, h: Handle, app: seq<Handle>)
    requires t.Table? && 0 < |t.chains| == |t.mult|
    ensures var b, r := ToBkt(h.hashv, |t.chains|), AddAs(t, h, app);
            && |r.chains| == (if !t.noexpand && |t.chains[b]| + 1 >= (t.mult[b] + 1) * 10 then 2 * |t.chains| else |t.chains|)
            && (|r.chains| == |t.chains| ==> r == t.(app := app, chains := t.chains[b := [h] + t.chains[b]]))
  {
    hide Expand;
    ExpandDoubles(t.(app := app, chains := PushFront(t.chains, h)));
  }

  /** So while doubling is not given up, a chain that grows stays below ten for every `expand_mult` and one. */
  lemma ChainStaysShort(t: Table, h: Handle, app: seq<Handle>)
    requires t.Table? && 0 < |t.chains| == |t.mult| && !t.noexpand
    ensures var b, r := ToBkt(h.hashv, |t.chains|), AddAs(t, h, app);
            |r.chains| == 2 * |t.chains| || |r.chains[b]| < (r.mult[b] + 1) * 10
  {
    hide Expand, AddAs;
    DoublesExactlyWhenLong(t, h, app);
  }

  /**
  What doubling leaves: the ideal length is the least that could hold all items, `expand_mult` says how many times the ideal a
  longer chain is, and doubling is given up after two in a row that left more than half of the items beyond the ideal.
  */
  lemma FieldsAfterDoubling(t: Table, b: nat)
    requires t.Table? && 0 < |t.chains| && t.app != [] && b < 2 * |t.chains|
    ensures var r := Expand(t); var c, i, m := |r.chains[b]|, r.ideal, r.mult[b];
            && i > 0 && (i - 1) * (2 * |t.chains|) < |t.app| <= i * (2 * |t.chains|)
            && (c <= i ==> m == 0)
            && (c > i ==> m * i <= c < (m + 1) * i)
            && (r.noexpand <==> t.noexpand || (t.ineff >= 1 && 2 * r.nonideal > |t.app|))
            && r.ineff == (if 2 * r.nonideal > |t.app| then t.ineff + 1 else 0)
  {
    hide Redistribute, Flatten, Excess;
    var n := 2 * |t.chains|;
    LeastQuotient(|t.app|, n);
    WholeTimes(|Expand(t).chains[b]|, CeilOf(|t.app|, n));
  }

  lemma LeastQuotient(a: nat, n: nat)
    requires a > 0 && n > 0
    ensures var i := CeilOf(a, n); i > 0 && (i - 1) * n < a <= i * n
  {
    var i, r := (a + n - 1) / n, (a + n - 1) % n;
    assert a + n - 1 == n * i + r;
    assert n * i == i * n && (i - 1) * n == i * n - n;
  }

  lemma WholeTimes(c: nat, i: nat)
    requires i > 0
    ensures c / i * i <= c < (c / i + 1) * i
  {
    var q, r := c / i, c % i;
    assert c == i * q + r && i * q == q * i;
  }
}
