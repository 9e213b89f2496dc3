/** What every run of table operations keeps, and the map that the table represents. */
module UtHashTheorems {
  import opened Bits
  import opened UtHashSort
  import opened UtHashModel

  // ---- expansion ----

  /** The handles of `s` that belong in bucket `b` of `n`, last first. */
  ghost function Chosen(s: seq<Handle>, n: nat, b: nat): seq<Handle>
    requires n > 0
  {
    if s == [] then []
    else
      var h := s[|s| - 1];
      (if ToBkt(h.hashv, n) == b then [h] else []) + Chosen(s[..|s| - 1], n, b)
  }

  lemma {:induction false} RedistributeChooses(s: seq<Handle>, n: nat, b: nat)
    requires b < n
    ensures Redistribute(s, n)[b] == Chosen(s, n, b)
  {
    if s != [] {
      RedistributeChooses(s[..|s| - 1], n, b);
    }
  }

  lemma {:induction false} ChosenOfSum(s: seq<Handle>, t: seq<Handle>, n: nat, b: nat)
    requires n > 0
    ensures Chosen(s + t, n, b) == Chosen(t, n, b) + Chosen(s, n, b)
  {
    hide Chosen;
    if t == [] {
      ChosenOfNone(n, b);
      assert s + t == s && [] + Chosen(s, n, b) == Chosen(s, n, b);
    } else {
      var front := t[..|t| - 1];
      assert (s + t)[..|s + t| - 1] == s + front;
      ChosenLast(s + t, n, b);
      ChosenLast(t, n, b);
      ChosenOfSum(s, front, n, b);
      var last := if ToBkt(t[|t| - 1].hashv, n) == b then [t[|t| - 1]] else [];
      assert last + (Chosen(front, n, b) + Chosen(s, n, b)) == last + Chosen(front, n, b) + Chosen(s, n, b);
    }
  }

  lemma ChosenOfNone(n: nat, b: nat)
    requires n > 0
    ensures Chosen([], n, b) == []
  {
  }

  lemma ChosenLast(s: seq<Handle>, n: nat, b: nat)
    requires n > 0 && s != []
    ensures var h := s[|s| - 1];
            Chosen(s, n, b) == (if ToBkt(h.hashv, n) == b then [h] else []) + Chosen(s[..|s| - 1], n, b)
  {
  }

  lemma {:induction false} ChosenNone(s: seq<Handle>, n: nat, b: nat)
    requires n > 0 && forall i | 0 <= i < |s| :: ToBkt(s[i].hashv, n) != b
    ensures Chosen(s, n, b) == []
  {
    if s != [] {
      ChosenNone(s[..|s| - 1], n, b);
    }
  }

  /** `r` holds exactly the elements of `s` that belong in bucket `b` of `n`. */
  ghost predicate IsChoice(r: seq<Handle>, s: seq<Handle>, n: nat, b: nat)
    requires n > 0
  {
    && (forall i | 0 <= i < |r| :: r[i] in s && ToBkt(r[i].hashv, n) == b)
    && (forall i | 0 <= i < |s| && ToBkt(s[i].hashv, n) == b :: s[i] in r)
  }

  lemma {:induction false} ChosenIn(s: seq<Handle>, n: nat, b: nat)
    requires n > 0
    ensures IsChoice(Chosen(s, n, b), s, n, b)
    ensures Distinct(s) ==> Distinct(Chosen(s, n, b))
  {
    if s != [] {
      var h, front := s[|s| - 1], s[..|s| - 1];
      ChosenIn(front, n, b);
      assert s == front + [h];
      var rest, r := Chosen(front, n, b), Chosen(s, n, b);
      assert r == (if ToBkt(h.hashv, n) == b then [h] else []) + rest;
    }
  }

  lemma HalfBucket(hashv: nat, n: nat)
    requires n > 0
    ensures ToBkt(hashv, 2 * n) == ToBkt(hashv, n) || ToBkt(hashv, 2 * n) == ToBkt(hashv, n) + n
    ensures ToBkt(hashv, 2 * n) % n == ToBkt(hashv, n)
  {
    var q, r := hashv / (2 * n), hashv % (2 * n);
    assert hashv == (2 * n) * q + r;
    if r < n {
      DivModUnique(hashv, n, 2 * q, r);
      DivModUnique(r, n, 0, r);
    } else {
      DivModUnique(hashv, n, 2 * q + 1, r - n);
      DivModUnique(r, n, 1, r - n);
    }
  }

  /** From the chains `i` on, only chain `i` of the old table contributes to the new buckets `i` and `i + b`. */
  lemma {:induction false} ChosenOfFlatten(chains: Chains, from: nat, b: nat)
    requires from <= |chains| && b < 2 * |chains|
    requires forall c, k | 0 <= c < |chains| && 0 <= k < |chains[c]| :: ToBkt(chains[c][k].hashv, |chains|) == c
    ensures var n := |chains|; var c := b % n;
            Chosen(Flatten(chains[from..]), 2 * n, b) == if from <= c then Chosen(chains[c], 2 * n, b) else []
    decreases |chains| - from
  {
    var n := |chains|;
    var c := b % n;
    if from < n {
      var rest := Flatten(chains[from + 1..]);
      assert chains[from..][1..] == chains[from + 1..];
      ChosenOfFlatten(chains, from + 1, b);
      ChosenOfSum(chains[from], rest, 2 * n, b);
      if from != c {
        forall k | 0 <= k < |chains[from]| ensures ToBkt(chains[from][k].hashv, 2 * n) != b {
          HalfBucket(chains[from][k].hashv, n);
        }
        ChosenNone(chains[from], 2 * n, b);
      }
    }
  }

  /**
  Expansion moves exactly the elements of old bucket `b % n` whose hash value says so to the new bucket `b`, in
  reversed order, and leaves the application list alone.
  */
  lemma ExpandSplitsBuckets(t: Table, hash: Key -> nat, b: nat)
    requires t.Table? && Inv(t, hash) && b < 2 * |t.chains|
    ensures Expand(t).chains[b] == Chosen(t.chains[b % |t.chains|], 2 * |t.chains|, b)
    ensures IsChoice(Expand(t).chains[b], t.chains[b % |t.chains|], 2 * |t.chains|, b)
    ensures Expand(t).app == t.app
  {
    var n := |t.chains|;
    RedistributeChooses(Flatten(t.chains), 2 * n, b);
    ChosenOfFlatten(t.chains, 0, b);
    assert t.chains[0..] == t.chains;
    ChosenIn(t.chains[b % n], 2 * n, b);
  }

  lemma ExpandChainOk(t: Table, hash: Key -> nat, b: nat)
    requires t.Table? && Inv(t, hash) && b < 2 * |t.chains|
    ensures ChainOk(Expand(t).chains[b], b, 2 * |t.chains|, t.app)
  {
    var n := |t.chains|;
    ExpandSplitsBuckets(t, hash, b);
    assert ChainOk(t.chains[b % n], b % n, n, t.app);
    ChosenIn(t.chains[b % n], 2 * n, b);
  }

  lemma ExpandPlaces(t: Table, hash: Key -> nat)
    requires t.Table? && Inv(t, hash)
    ensures Placed(Expand(t).chains, t.app)
  {
    hide Expand, Distinct;
    var n := |t.chains|;
    var r := Expand(t).chains;
    ExpandDoubles(t);
    forall b | 0 <= b < 2 * n ensures ChainOk(r[b], b, 2 * n, t.app) {
      ExpandChainOk(t, hash, b);
    }
    forall i | 0 <= i < |t.app| ensures t.app[i] in r[ToBkt(t.app[i].hashv, 2 * n)] {
      HalfBucket(t.app[i].hashv, n);
      ExpandSplitsBuckets(t, hash, ToBkt(t.app[i].hashv, 2 * n));
    }
  }

  lemma ExpandDoubles(t: Table)
    requires t.Table? && |t.chains| > 0
    ensures |Expand(t).chains| == |Expand(t).mult| == 2 * |t.chains| && Expand(t).log2 == t.log2 + 1
  {
  }

  lemma ExpandKeepsInv(t: Table, hash: Key -> nat)
    requires t.Table? && Inv(t, hash)
    ensures Inv(Expand(t), hash)
  {
    hide Expand, Distinct, Placed;
    ExpandPlaces(t, hash);
    ExpandDoubles(t);
  }

  // ---- additions and deletions ----

  /** `app` is `items` with `h` put in somewhere. */
  ghost predicate IsInsertion(app: seq<Handle>, items: seq<Handle>, h: Handle) {
    exists i :: 0 <= i <= |items| && app == InsertAt(items, i, h)
  }

  ghost function InsertAt<T>(s: seq<T>, i: nat, x: T): seq<T>
    requires i <= |s|
  {
    s[..i] + [x] + s[i..]
  }

  lemma EmptyTableIsPlaced()
    ensures Placed(EmptyTable().chains, [])
  {
  }

  lemma PushFrontPlaces(chains: Chains, items: seq<Handle>, app: seq<Handle>, h: Handle)
    requires |chains| > 0 && Placed(chains, items) && h !in items && IsInsertion(app, items, h)
    ensures Placed(PushFront(chains, h), app)
  {
    var n, r := |chains|, PushFront(chains, h);
    var i :| 0 <= i <= |items| && app == InsertAt(items, i, h);
    forall b | 0 <= b < n ensures ChainOk(r[b], b, n, app) {
      assert ChainOk(chains[b], b, n, items);
      assert h !in chains[b];
    }
    forall k | 0 <= k < |app| ensures app[k] in r[ToBkt(app[k].hashv, n)] {
      assert app[k] in items || app[k] == h;
    }
  }

  /** The table after the list and the chain have the new handle, before any expansion. */
  ghost function Pushed(t: Table, h: Handle, app: seq<Handle>): Table
    requires t.Table? ==> |t.chains| > 0
  {
    var t0 := if t.NoTable? then EmptyTable() else t;
    t0.(app := app, chains := PushFront(t0.chains, h))
  }

  lemma PushKeepsInv(t: Table, h: Handle, app: seq<Handle>, hash: Key -> nat)
    requires Inv(t, hash) && h !in Items(t) && h.hashv == hash(h.key) && IsInsertion(app, Items(t), h)
    ensures Inv(Pushed(t, h, app), hash)
  {
    hide Placed, Distinct, IsInsertion, PushFront;
    var t0 := if t.NoTable? then EmptyTable() else t;
    EmptyTableIsPlaced();
    PushFrontPlaces(t0.chains, Items(t), app, h);
    InsertionMembers(app, Items(t), h);
    EmptyTableSizes();
    PushFrontSize(t0.chains, h);
  }

  lemma InsertionMembers(app: seq<Handle>, items: seq<Handle>, h: Handle)
    requires IsInsertion(app, items, h) && Distinct(items) && h !in items
    ensures Distinct(app) && app != []
    ensures forall k | 0 <= k < |app| :: app[k] == h || app[k] in items
  {
    var i :| 0 <= i <= |items| && app == InsertAt(items, i, h);
  }

  lemma EmptyTableSizes()
    ensures |EmptyTable().chains| == |EmptyTable().mult| == Pow2(EmptyTable().log2) && Distinct<Handle>([])
  {
    assert Pow2(3) == 8;
  }

  lemma PushFrontSize(chains: Chains, h: Handle)
    requires |chains| > 0
    ensures |PushFront(chains, h)| == |chains|
  {
  }

  lemma AddKeepsInv(t: Table, h: Handle, app: seq<Handle>, hash: Key -> nat)
    requires Inv(t, hash) && h !in Items(t) && h.hashv == hash(h.key) && IsInsertion(app, Items(t), h)
    ensures Inv(AddAs(t, h, app), hash)
    ensures AddAs(t, h, app).app == app
  {
    hide Distinct, Placed, IsInsertion;
    PushKeepsInv(t, h, app, hash);
    ExpandKeepsInv(Pushed(t, h, app), hash);
  }

  lemma {:induction false} WithoutIs<T>(s: seq<T>, k: nat)
    requires Distinct(s) && k < |s|
    ensures Without(s, s[k]) == s[..k] + s[k + 1..]
  {
    if k != 0 {
      WithoutIs(s[1..], k - 1);
      assert s[0] != s[k];
      assert s[..k] + s[k + 1..] == [s[0]] + (s[1..][..k - 1] + s[1..][k..]);
    }
  }

  lemma WithoutIn<T>(s: seq<T>, x: T)
    requires Distinct(s) && x in s
    ensures Distinct(Without(s, x)) && x !in Without(s, x) && |Without(s, x)| == |s| - 1
    ensures forall i | 0 <= i < |Without(s, x)| :: Without(s, x)[i] in s
    ensures forall i | 0 <= i < |s| && s[i] != x :: s[i] in Without(s, x)
  {
    hide Without;
    var k :| 0 <= k < |s| && s[k] == x;
    WithoutIs(s, k);
    WithoutOne(s, k);
  }

  lemma WithoutOne<T>(s: seq<T>, k: nat)
    requires Distinct(s) && k < |s|
    ensures var r := s[..k] + s[k + 1..];
            && |r| == |s| - 1 && Distinct(r) && s[k] !in r
            && (forall i | 0 <= i < |r| :: r[i] == s[if i < k then i else i + 1])
            && (forall i | 0 <= i < |s| && i != k :: s[i] == r[if i < k then i else i - 1])
  {
  }

  lemma DeletePlaces(chains: Chains, app: seq<Handle>, h: Handle)
    requires |chains| > 0 && Placed(chains, app) && Distinct(app) && h in app
    ensures var b := ToBkt(h.hashv, |chains|);
            Placed(chains[b := Without(chains[b], h)], Without(app, h))
  {
    var n := |chains|;
    var b := ToBkt(h.hashv, n);
    var r, app' := chains[b := Without(chains[b], h)], Without(app, h);
    assert h in chains[b];
    assert ChainOk(chains[b], b, n, app);
    WithoutIn(chains[b], h);
    WithoutIn(app, h);
    forall c | 0 <= c < n ensures ChainOk(r[c], c, n, app') {
      assert ChainOk(chains[c], c, n, app);
      assert h !in r[c];
    }
    forall k | 0 <= k < |app'| ensures app'[k] in r[ToBkt(app'[k].hashv, n)] {
      assert app'[k] in app;
    }
  }

  lemma DeleteKeepsInv(t: Table, h: Handle, hash: Key -> nat)
    requires t.Table? && Inv(t, hash) && h in t.app
    ensures Inv(Delete(t, h), hash)
    ensures Items(Delete(t, h)) == Without(t.app, h)
  {
    WithoutIn(t.app, h);
    if |t.app| > 1 {
      DeletePlaces(t.chains, t.app, h);
    }
  }

  lemma SortKeepsInv(t: Table, cmp: (Handle, Handle) -> int, hash: Key -> nat)
    requires Inv(t, hash)
    ensures Inv(SortTable(t, cmp), hash)
  {
    if t.Table? {
      SortPermutes(cmp, t.app);
      PermutedPlaces(t.chains, t.app, Sort(cmp, t.app), hash);
    }
  }

  lemma PermutedPlaces(chains: Chains, app: seq<Handle>, app': seq<Handle>, hash: Key -> nat)
    requires |chains| > 0 && Placed(chains, app) && Distinct(app) && multiset(app) == multiset(app')
    requires forall i | 0 <= i < |app| :: app[i].hashv == hash(app[i].key)
    ensures Placed(chains, app') && Distinct(app')
    ensures forall i | 0 <= i < |app'| :: app'[i].hashv == hash(app'[i].key)
  {
    SameMembers(app, app');
    SameMembers(app', app);
    forall b | 0 <= b < |chains| ensures ChainOk(chains[b], b, |chains|, app') {
      assert ChainOk(chains[b], b, |chains|, app);
    }
    DistinctByCount(app, app');
  }

  lemma SameMembers<T>(s: seq<T>, t: seq<T>)
    requires multiset(s) == multiset(t)
    ensures forall i | 0 <= i < |s| :: s[i] in t
  {
    forall i | 0 <= i < |s| ensures s[i] in t {
      assert s[i] in multiset(s);
    }
  }

  lemma {:induction false} DistinctCounts<T>(s: seq<T>)
    ensures Distinct(s) <==> forall x | x in multiset(s) :: multiset(s)[x] == 1
  {
    if s != [] {
      var rest := s[1..];
      DistinctCounts(rest);
      assert s == [s[0]] + rest;
      if Distinct(s) {
        assert s[0] !in rest;
      } else if Distinct(rest) {
        assert s[0] in rest;
        assert multiset(s)[s[0]] == 1 + multiset(rest)[s[0]];
      } else {
        var x :| x in multiset(rest) && multiset(rest)[x] != 1;
        assert multiset(s)[x] > 1;
      }
    }
  }

  lemma DistinctByCount<T>(s: seq<T>, t: seq<T>)
    requires multiset(s) == multiset(t) && Distinct(s)
    ensures Distinct(t)
  {
    DistinctCounts(s);
    DistinctCounts(t);
  }

  // ---- lookup ----

  lemma {:induction false} FindInFinds(chain: seq<Handle>, key: Key, hashv: nat)
    ensures FindIn(chain, key, hashv) == null <==>
            forall i | 0 <= i < |chain| :: !(chain[i].hashv == hashv && chain[i].key == key)
  {
    if chain != [] {
      FindInFinds(chain[1..], key, hashv);
    }
  }

  /** A lookup returns an element of the table with the key, and fails exactly when there is none. */
  lemma FindIsComplete(t: Table, key: Key, hash: Key -> nat)
    requires Inv(t, hash)
    ensures var r := Find(t, key, hash(key));
            && (r != null ==> r in Items(t) && r.key == key)
            && (r == null <==> forall i | 0 <= i < |Items(t)| :: Items(t)[i].key != key)
  {
    if t.Table? {
      var n := |t.chains|;
      var b := ToBkt(hash(key), n);
      var chain := t.chains[b];
      assert ChainOk(chain, b, n, t.app);
      FindInFinds(chain, key, hash(key));
      if k :| 0 <= k < |t.app| && t.app[k].key == key {
        assert t.app[k] in t.chains[ToBkt(t.app[k].hashv, n)];
      }
    }
  }

  /** What the Bloom test relies on: an absent hash value means an absent key. */
  lemma NoHashNoFind(t: Table, key: Key, hashv: nat, hash: Key -> nat)
    requires Inv(t, hash) && forall i | 0 <= i < |Items(t)| :: Items(t)[i].hashv != hashv
    ensures Find(t, key, hashv) == null
  {
    if t.Table? {
      var b := ToBkt(hashv, |t.chains|);
      var chain := t.chains[b];
      assert ChainOk(chain, b, |t.chains|, t.app);
      forall i | 0 <= i < |chain| ensures chain[i].hashv != hashv {
        var k :| 0 <= k < |t.app| && Items(t)[k] == chain[i];
      }
      FindInFinds(chain, key, hashv);
    }
  }

  ghost predicate KeysUnique(items: seq<Handle>) {
    forall i, j | 0 <= i < j < |items| :: items[i].key != items[j].key
  }

  ghost predicate HasKey(items: seq<Handle>, key: Key) {
    exists i :: 0 <= i < |items| && items[i].key == key
  }

  /** The map from keys to elements that a table with unique keys represents. */
  ghost function AsMap(items: seq<Handle>): map<Key, Handle> {
    if items == [] then map[] else AsMap(items[1..])[items[0].key := items[0]]
  }

  lemma {:induction false} AsMapLooksUp(items: seq<Handle>, key: Key)
    requires KeysUnique(items)
    ensures key in AsMap(items) <==> HasKey(items, key)
    ensures forall i | 0 <= i < |items| && items[i].key == key :: key in AsMap(items) && AsMap(items)[key] == items[i]
  {
    if items != [] {
      AsMapLooksUp(items[1..], key);
      if HasKey(items[1..], key) {
        var i :| 0 <= i < |items[1..]| && items[1..][i].key == key;
        assert items[i + 1].key == key;
      }
    }
  }

  /** After any run, a lookup is a lookup in the map. */
  lemma FindIsMapLookup(t: Table, key: Key, hash: Key -> nat)
    requires Inv(t, hash) && KeysUnique(Items(t))
    ensures Find(t, key, hash(key)) == if key in AsMap(Items(t)) then AsMap(Items(t))[key] else null
  {
    FindIsComplete(t, key, hash);
    AsMapLooksUp(Items(t), key);
    var r := Find(t, key, hash(key));
    if r != null {
      var i :| 0 <= i < |Items(t)| && Items(t)[i] == r;
    }
  }

  lemma InsertionInMap(app: seq<Handle>, items: seq<Handle>, h: Handle)
    requires IsInsertion(app, items, h) && KeysUnique(items) && !HasKey(items, h.key)
    ensures KeysUnique(app) && AsMap(app) == AsMap(items)[h.key := h]
  {
    hide AsMap;
    var i :| 0 <= i <= |items| && app == InsertAt(items, i, h);
    InsertionAt(app, items, i, h);
    KeysWithOne(app, items, i, h);
    MapsAgree(app, items, h.key, h);
  }

  lemma InsertionAt(app: seq<Handle>, items: seq<Handle>, i: nat, h: Handle)
    requires i <= |items| && app == InsertAt(items, i, h)
    ensures |app| == |items| + 1 && app[i] == h
    ensures forall k | 0 <= k < |app| && k != i :: app[k] == items[if k < i then k else k - 1]
    ensures forall k | 0 <= k < |items| :: items[k] == app[if k < i then k else k + 1]
  {
  }

  lemma KeysWithOne(app: seq<Handle>, items: seq<Handle>, i: nat, h: Handle)
    requires |app| == |items| + 1 && i <= |items| && app[i] == h && KeysUnique(items) && !HasKey(items, h.key)
    requires forall k | 0 <= k < |app| && k != i :: app[k] == items[if k < i then k else k - 1]
    ensures KeysUnique(app)
  {
  }

  lemma MapsAgree(app: seq<Handle>, items: seq<Handle>, key: Key, h: Handle)
    requires KeysUnique(app) && KeysUnique(items) && h in app && h.key == key
    requires forall k | 0 <= k < |app| :: app[k] == h || app[k] in items
    requires forall k | 0 <= k < |items| :: items[k].key == key || items[k] in app
    ensures AsMap(app) == AsMap(items)[key := h]
  {
    var m, m' := AsMap(app), AsMap(items)[key := h];
    forall x ensures x in m <==> x in m'
             ensures x in m && x in m' ==> m[x] == m'[x] {
      AsMapLooksUp(app, x);
      AsMapLooksUp(items, x);
    }
  }

  lemma DeletionInMap(items: seq<Handle>, h: Handle)
    requires Distinct(items) && KeysUnique(items) && h in items
    ensures KeysUnique(Without(items, h)) && !HasKey(Without(items, h), h.key)
    ensures AsMap(Without(items, h)) == AsMap(items) - {h.key}
  {
    var k :| 0 <= k < |items| && items[k] == h;
    hide Without, Distinct, AsMap;
    WithoutIs(items, k);
    WithoutOne(items, k);
    var r := Without(items, h);
    KeysWithoutOne(items, r, k);
    MapWithout(items, r, k);
  }

  lemma MapWithout(items: seq<Handle>, r: seq<Handle>, k: nat)
    requires KeysUnique(items) && KeysUnique(r) && k < |items| && |r| == |items| - 1 && !HasKey(r, items[k].key)
    requires forall i | 0 <= i < |r| :: r[i] == items[if i < k then i else i + 1]
    ensures AsMap(r) == AsMap(items) - {items[k].key}
  {
    hide AsMap, KeysUnique, HasKey;
    forall x
      ensures x in AsMap(r) <==> x in AsMap(items) && x != items[k].key
      ensures x in AsMap(r) ==> AsMap(r)[x] == AsMap(items)[x]
    {
      LookupWithout(items, r, k, x);
    }
  }

  lemma LookupWithout(items: seq<Handle>, r: seq<Handle>, k: nat, x: Key)
    requires KeysUnique(items) && KeysUnique(r) && k < |items| && |r| == |items| - 1 && !HasKey(r, items[k].key)
    requires forall i | 0 <= i < |r| :: r[i] == items[if i < k then i else i + 1]
    ensures x in AsMap(r) <==> x in AsMap(items) && x != items[k].key
    ensures x in AsMap(r) ==> AsMap(r)[x] == AsMap(items)[x]
  {
    hide AsMap, KeysUnique;
    AsMapLooksUp(r, x);
    AsMapLooksUp(items, x);
    if HasKey(r, x) {
      var i :| 0 <= i < |r| && r[i].key == x;
      assert items[if i < k then i else i + 1].key == x;
    }
    if HasKey(items, x) && x != items[k].key {
      var i :| 0 <= i < |items| && items[i].key == x;
      assert r[if i < k then i else i - 1].key == x;
    }
  }

  lemma KeysWithoutOne(items: seq<Handle>, r: seq<Handle>, k: nat)
    requires KeysUnique(items) && k < |items| && |r| == |items| - 1
    requires forall i | 0 <= i < |r| :: r[i] == items[if i < k then i else i + 1]
    ensures KeysUnique(r) && !HasKey(r, items[k].key)
  {
  }

  lemma PermutationInMap(s: seq<Handle>, t: seq<Handle>)
    requires multiset(s) == multiset(t) && Distinct(s) && KeysUnique(s)
    ensures KeysUnique(t) && AsMap(t) == AsMap(s)
  {
    DistinctByCount(s, t);
    SameMembers(s, t);
    SameMembers(t, s);
    forall x ensures x in AsMap(s) <==> x in AsMap(t)
             ensures x in AsMap(s) && x in AsMap(t) ==> AsMap(s)[x] == AsMap(t)[x] {
      AsMapLooksUp(s, x);
      AsMapLooksUp(t, x);
    }
  }

  // ---- runs ----

  datatype Op =
    | AddOp(h: Handle)
    | AddInOrderOp(h: Handle, cmp: (Handle, Handle) -> int)
    | ReplaceOp(h: Handle)
    | DeleteOp(h: Handle)
    | SortOp(cmp: (Handle, Handle) -> int)

  /** What the macros ask of their callers: add only what is not in the table, delete only what is. */
  ghost predicate Legal(t: Table, op: Op, hash: Key -> nat) {
    match op
    case AddOp(h) => h !in Items(t) && h.hashv == hash(h.key)
    case AddInOrderOp(h, _) => h !in Items(t) && h.hashv == hash(h.key)
    case ReplaceOp(h) => h !in Items(t) && h.hashv == hash(h.key)
    case DeleteOp(h) => h in Items(t)
    case SortOp(_) => true
  }

  /** A caller that keeps keys unique adds only absent keys. */
  ghost predicate KeepsKeys(t: Table, op: Op) {
    match op
    case AddOp(h) => !HasKey(Items(t), h.key)
    case AddInOrderOp(h, _) => !HasKey(Items(t), h.key)
    case _ => true
  }

  ghost function Apply(t: Table, op: Op, hash: Key -> nat): Table
    requires Inv(t, hash) && Legal(t, op, hash)
  {
    match op
    case AddOp(h) => Add(t, h)
    case AddInOrderOp(h, cmp) => AddInOrder(t, h, cmp)
    case ReplaceOp(h) => Replace(t, h)
    case DeleteOp(h) => Delete(t, h)
    case SortOp(cmp) => SortTable(t, cmp)
  }

  ghost function MapApply(m: map<Key, Handle>, op: Op): map<Key, Handle> {
    match op
    case AddOp(h) => m[h.key := h]
    case AddInOrderOp(h, _) => m[h.key := h]
    case ReplaceOp(h) => m[h.key := h]
    case DeleteOp(h) => m - {h.key}
    case SortOp(_) => m
  }

  lemma AddStep(t: Table, h: Handle, app: seq<Handle>, hash: Key -> nat)
    requires Inv(t, hash) && Legal(t, AddOp(h), hash) && IsInsertion(app, Items(t), h)
    ensures Inv(AddAs(t, h, app), hash)
    ensures KeysUnique(Items(t)) && !HasKey(Items(t), h.key) ==>
              && KeysUnique(Items(AddAs(t, h, app)))
              && AsMap(Items(AddAs(t, h, app))) == AsMap(Items(t))[h.key := h]
  {
    AddKeepsInv(t, h, app, hash);
    if KeysUnique(Items(t)) && !HasKey(Items(t), h.key) {
      InsertionInMap(app, Items(t), h);
    }
  }

  lemma ReplaceIs(t: Table, h: Handle, hash: Key -> nat)
    requires Inv(t, hash) && Legal(t, ReplaceOp(h), hash)
    ensures Inv(Replace(t, h), hash)
    ensures KeysUnique(Items(t)) ==>
              KeysUnique(Items(Replace(t, h))) && AsMap(Items(Replace(t, h))) == AsMap(Items(t))[h.key := h]
  {
    hide Inv, Delete, AddAs, KeysUnique, AsMap, Distinct;
    var t1 := FoundLeaves(t, h, hash);
    var app := Items(t1) + [h];
    assert app == InsertAt(Items(t1), |Items(t1)|, h);
    AddStep(t1, h, app, hash);
  }

  /** The first half of a replacement: the element found under the key is gone, and with it the key. */
  lemma FoundLeaves(t: Table, h: Handle, hash: Key -> nat) returns (t1: Table)
    requires Inv(t, hash) && Legal(t, ReplaceOp(h), hash)
    ensures Inv(t1, hash) && Legal(t1, AddOp(h), hash) && Add(t1, h) == Replace(t, h)
    ensures forall x | x in Items(t1) :: x in Items(t)
    ensures KeysUnique(Items(t)) ==>
              && KeysUnique(Items(t1)) && !HasKey(Items(t1), h.key)
              && AsMap(Items(t1)) == AsMap(Items(t)) - {h.key}
  {
    hide Delete, KeysUnique, AsMap, Distinct;
    FindIsComplete(t, h.key, hash);
    var found := Find(t, h.key, h.hashv);
    if found != null {
      t1 := Delete(t, found);
      DeleteStep(t, found, hash);
    } else {
      t1 := t;
      if KeysUnique(Items(t)) {
        AsMapLooksUp(Items(t), h.key);
        assert AsMap(Items(t)) - {h.key} == AsMap(Items(t));
      }
    }
  }

  lemma DeleteStep(t: Table, h: Handle, hash: Key -> nat)
    requires t.Table? && Inv(t, hash) && h in t.app
    ensures Inv(Delete(t, h), hash)
    ensures forall x | x in Items(Delete(t, h)) :: x in t.app
    ensures KeysUnique(t.app) ==>
              && KeysUnique(Items(Delete(t, h))) && !HasKey(Items(Delete(t, h)), h.key)
              && AsMap(Items(Delete(t, h))) == AsMap(t.app) - {h.key}
  {
    hide Delete, AsMap;
    DeleteKeepsInv(t, h, hash);
    WithoutIn(t.app, h);
    if KeysUnique(t.app) {
      DeletionInMap(t.app, h);
    }
  }

  /** One legal step keeps the invariant and acts on the map as its operation says. */
  lemma StepIsCorrect(t: Table, op: Op, hash: Key -> nat)
    requires Inv(t, hash) && Legal(t, op, hash)
    ensures Inv(Apply(t, op, hash), hash)
    ensures KeysUnique(Items(t)) && KeepsKeys(t, op) ==>
              && KeysUnique(Items(Apply(t, op, hash)))
              && AsMap(Items(Apply(t, op, hash))) == MapApply(AsMap(Items(t)), op)
  {
    var items, t' := Items(t), Apply(t, op, hash);
    match op
    case AddOp(h) =>
      assert items + [h] == InsertAt(items, |items|, h);
      AddStep(t, h, items + [h], hash);
    case AddInOrderOp(h, cmp) =>
      assert InsertInOrder(cmp, items, h) == InsertAt(items, InsertionPoint(cmp, items, h), h);
      AddStep(t, h, InsertInOrder(cmp, items, h), hash);
    case ReplaceOp(h) =>
      ReplaceIs(t, h, hash);
    case DeleteOp(h) =>
      DeleteStep(t, h, hash);
    case SortOp(cmp) =>
      SortKeepsInv(t, cmp, hash);
      SortPermutes(cmp, items);
      if t.Table? && KeysUnique(items) {
        PermutationInMap(items, Sort(cmp, items));
      }
  }

  ghost predicate LegalRun(t: Table, ops: seq<Op>, hash: Key -> nat)
    requires Inv(t, hash)
    decreases |ops|
  {
    ops == [] ||
    (Legal(t, ops[0], hash) &&
     (StepIsCorrect(t, ops[0], hash); LegalRun(Apply(t, ops[0], hash), ops[1..], hash)))
  }

  ghost function Run(t: Table, ops: seq<Op>, hash: Key -> nat): Table
    requires Inv(t, hash) && LegalRun(t, ops, hash)
    decreases |ops|
  {
    if ops == [] then t
    else
      StepIsCorrect(t, ops[0], hash);
      Run(Apply(t, ops[0], hash), ops[1..], hash)
  }

  ghost function MapRun(m: map<Key, Handle>, ops: seq<Op>): map<Key, Handle>
    decreases |ops|
  {
    if ops == [] then m else MapRun(MapApply(m, ops[0]), ops[1..])
  }

  /** The run adds no key that is already there, other than by replacing. */
  ghost predicate KeyedRun(t: Table, ops: seq<Op>, hash: Key -> nat)
    requires Inv(t, hash) && LegalRun(t, ops, hash)
    decreases |ops|
  {
    ops == [] ||
    (KeepsKeys(t, ops[0]) && (StepIsCorrect(t, ops[0], hash); KeyedRun(Apply(t, ops[0], hash), ops[1..], hash)))
  }

  /** Every legal run, expansions included, keeps the invariant of the table. */
  lemma {:induction false} RunKeepsInv(t: Table, ops: seq<Op>, hash: Key -> nat)
    requires Inv(t, hash) && LegalRun(t, ops, hash)
    ensures Inv(Run(t, ops, hash), hash)
    decreases |ops|
  {
    if ops != [] {
      StepIsCorrect(t, ops[0], hash);
      RunKeepsInv(Apply(t, ops[0], hash), ops[1..], hash);
    }
  }

  /** After every legal run that keeps keys unique, a lookup answers as the map does. */
  lemma {:induction false} RunRefinesMap(t: Table, ops: seq<Op>, key: Key, hash: Key -> nat)
    requires Inv(t, hash) && LegalRun(t, ops, hash) && KeyedRun(t, ops, hash) && KeysUnique(Items(t))
    ensures Inv(Run(t, ops, hash), hash) && KeysUnique(Items(Run(t, ops, hash)))
    ensures var m := MapRun(AsMap(Items(t)), ops);
            Find(Run(t, ops, hash), key, hash(key)) == if key in m then m[key] else null
    decreases |ops|
  {
    if ops == [] {
      FindIsMapLookup(t, key, hash);
    } else {
      StepIsCorrect(t, ops[0], hash);
      RunRefinesMap(Apply(t, ops[0], hash), ops[1..], key, hash);
    }
  }
}
