/**
The abstract state of a uthash table and its operations on that state: the application-order list, the bucket
chains and the expansion heuristics. The class in UtHash.dfy implements these with linked handles.
*/
module UtHashModel {
  import opened Bits
  import opened UtHashSort

  const INITIAL_LOG2 := 5
  const CAPACITY_THRESH := 10

  type Key = seq<bv8>

  /** The handle inside an element: two list positions, and the key with its hash value. */
  class Handle {
    const key: Key
    const hashv: nat
    var prev: Handle?
    var next: Handle?
    var hhPrev: Handle?
    var hhNext: Handle?

    constructor (key: Key, hashv: nat)
      ensures this.key == key && this.hashv == hashv
    {
      this.key, this.hashv := key, hashv;
      prev, next, hhPrev, hhNext := null, null, null, null;
    }
  }

  type Chains = seq<seq<Handle>>

  datatype Table =
    | NoTable
    | Table(app: seq<Handle>,      // the elements in application order
            chains: Chains,        // bucket by bucket, each from its head on
            mult: seq<nat>,        // expand_mult, bucket by bucket
            log2: nat,             // log2_num_buckets
            ideal: nat,            // ideal_chain_maxlen
            nonideal: nat,         // nonideal_items
            ineff: nat,            // ineff_expands
            noexpand: bool)

  ghost function Items(t: Table): seq<Handle> {
    if t.NoTable? then [] else t.app
  }

  /** The bucket of a hash value among `n` buckets. */
  function ToBkt(hashv: nat, n: nat): nat
    requires n > 0
  {
    hashv % n
  }

  // ---- the representation invariant, as HASH_FSCK walks it ----

  /** A chain holds elements of the table, each once, and only those that belong in its bucket. */
  ghost predicate ChainOk(chain: seq<Handle>, b: nat, n: nat, app: seq<Handle>)
    requires n > 0
  {
    Distinct(chain) && forall i | 0 <= i < |chain| :: chain[i] in app && ToBkt(chain[i].hashv, n) == b
  }

  ghost predicate Placed(chains: Chains, app: seq<Handle>)
    requires |chains| > 0
  {
    && (forall b | 0 <= b < |chains| :: ChainOk(chains[b], b, |chains|, app))
    && (forall i | 0 <= i < |app| :: app[i] in chains[ToBkt(app[i].hashv, |chains|)])
  }

  ghost predicate Inv(t: Table, hash: Key -> nat) {
    t.Table? ==>
      && |t.chains| == |t.mult| == Pow2(t.log2)
      && t.app != [] && Distinct(t.app)
      && (forall i | 0 <= i < |t.app| :: t.app[i].hashv == hash(t.app[i].key))
      && Placed(t.chains, t.app)
  }

  ghost function SumLen(chains: Chains): nat {
    if chains == [] then 0 else |chains[0]| + SumLen(chains[1..])
  }

  /** The bucket counts sum to the number of items. */
  lemma CountsSumToItems(t: Table, hash: Key -> nat)
    requires t.Table? && Inv(t, hash)
    ensures SumLen(t.chains) == |t.app|
  {
    var ch := t.chains;
    SumIsUnion(ch, t.app, 0);
    assert Elements(t.app) == UnionFrom(ch, 0) by {
      forall h | h in t.app ensures h in UnionFrom(ch, 0) {
        assert h in ch[ToBkt(h.hashv, |ch|)];
      }
    }
    DistinctCount(t.app);
    assert ch[0..] == ch;
  }

  ghost function UnionFrom(chains: Chains, i: nat): set<Handle>
    requires i <= |chains|
  {
    set b, h | i <= b < |chains| && h in chains[b] :: h
  }

  lemma {:induction false} DistinctCount<T>(s: seq<T>)
    requires Distinct(s)
    ensures |Elements(s)| == |s|
  {
    if s != [] {
      DistinctCount(s[1..]);
      assert Elements(s) == {s[0]} + Elements(s[1..]);
    }
  }

  lemma {:induction false} SumIsUnion(chains: Chains, app: seq<Handle>, i: nat)
    requires i <= |chains| && |chains| > 0
    requires forall b | 0 <= b < |chains| :: ChainOk(chains[b], b, |chains|, app)
    ensures SumLen(chains[i..]) == |UnionFrom(chains, i)|
    decreases |chains| - i
  {
    if i < |chains| {
      SumIsUnion(chains, app, i + 1);
      assert chains[i..][1..] == chains[i + 1..];
      DistinctCount(chains[i]);
      assert UnionFrom(chains, i) == Elements(chains[i]) + UnionFrom(chains, i + 1);
      assert Elements(chains[i]) !! UnionFrom(chains, i + 1);
    }
  }

  // ---- expansion ----

  /** Pushing the handles of `s` one after another onto the fronts of `n` empty chains. */
  ghost function Redistribute(s: seq<Handle>, n: nat): (r: Chains)
    requires n > 0
    ensures |r| == n
  {
    if s == [] then seq(n, _ => [])
    else
      var r := Redistribute(s[..|s| - 1], n);
      PushFront(r, s[|s| - 1])
  }

  ghost function PushFront(chains: Chains, h: Handle): (r: Chains)
    requires |chains| > 0
    ensures |r| == |chains|
  {
    var b := ToBkt(h.hashv, |chains|);
    chains[b := [h] + chains[b]]
  }

  ghost function Flatten(chains: Chains): seq<Handle> {
    if chains == [] then [] else chains[0] + Flatten(chains[1..])
  }

  /** How many items stand beyond the ideal length, over all chains. */
  ghost function Excess(chains: Chains, ideal: nat): nat {
    if chains == [] then 0
    else (if |chains[0]| > ideal then |chains[0]| - ideal else 0) + Excess(chains[1..], ideal)
  }

  ghost function MultFor(count: nat, ideal: nat): nat {
    if ideal > 0 && count > ideal then count / ideal else 0
  }

  ghost function Mults(chains: Chains, ideal: nat): (r: seq<nat>)
    ensures |r| == |chains|
  {
    seq(|chains|, b requires 0 <= b < |chains| => MultFor(|chains[b]|, ideal))
  }

  function CeilOf(a: nat, m: nat): nat
    requires m > 0
  {
    (a + m - 1) / m
  }

  ghost function Expand(t: Table): (r: Table)
    requires t.Table? && |t.chains| > 0
    ensures r.Table? && r.app == t.app
  {
    var n := 2 * |t.chains|;
    var ideal := CeilOf(|t.app|, n);
    var chains := Redistribute(Flatten(t.chains), n);
    var nonideal := Excess(chains, ideal);
    var ineff := if nonideal > |t.app| / 2 then t.ineff + 1 else 0;
    Table(t.app, chains, Mults(chains, ideal), t.log2 + 1, ideal, nonideal, ineff, t.noexpand || ineff > 1)
  }

  // ---- operations ----

  ghost function EmptyTable(): Table {
    var n := Pow2(INITIAL_LOG2);
    Table([], seq(n, _ => []), seq(n, _ => 0), INITIAL_LOG2, 0, 0, 0, false)
  }

  ghost predicate MustExpand(t: Table, b: nat)
    requires t.Table? && b < |t.chains| == |t.mult|
  {
    |t.chains[b]| >= (t.mult[b] + 1) * CAPACITY_THRESH && !t.noexpand
  }

  /** `HASH_ADD_TO_BKT`: the new handle goes to the front of its chain; a long chain doubles the table. */
  ghost function AddToBkt(t: Table, h: Handle): (r: Table)
    requires t.Table? && 0 < |t.chains| == |t.mult|
    ensures r.Table?
  {
    var t1 := t.(chains := PushFront(t.chains, h));
    if MustExpand(t1, ToBkt(h.hashv, |t.chains|)) then Expand(t1) else t1
  }

  /** An addition whose application-order list becomes `app`. */
  ghost function AddAs(t: Table, h: Handle, app: seq<Handle>): (r: Table)
    requires t.Table? ==> 0 < |t.chains| == |t.mult|
  {
    var t0 := if t.NoTable? then EmptyTable() else t;
    AddToBkt(t0.(app := app), h)
  }

  ghost function Add(t: Table, h: Handle): (r: Table)
    requires t.Table? ==> 0 < |t.chains| == |t.mult|
  {
    AddAs(t, h, Items(t) + [h])
  }

  ghost function AddInOrder(t: Table, h: Handle, cmp: (Handle, Handle) -> int): (r: Table)
    requires t.Table? ==> 0 < |t.chains| == |t.mult|
  {
    AddAs(t, h, InsertInOrder(cmp, Items(t), h))
  }

  /** `s` without the element `x`. */
  ghost function Without<T>(s: seq<T>, x: T): (r: seq<T>) {
    if s == [] then [] else if s[0] == x then s[1..] else [s[0]] + Without(s[1..], x)
  }

  ghost function Delete(t: Table, h: Handle): (r: Table)
    requires t.Table? && 0 < |t.chains|
  {
    if |t.app| == 1 then NoTable
    else
      var b := ToBkt(h.hashv, |t.chains|);
      t.(app := Without(t.app, h), chains := t.chains[b := Without(t.chains[b], h)])
  }

  ghost function SortTable(t: Table, cmp: (Handle, Handle) -> int): Table {
    if t.NoTable? then t else t.(app := Sort(cmp, t.app))
  }

  /** The first handle of a chain that carries the key. */
  ghost function FindIn(chain: seq<Handle>, key: Key, hashv: nat): (r: Handle?)
    ensures r != null ==> r in chain && r.key == key && r.hashv == hashv
  {
    if chain == [] then null
    else if chain[0].hashv == hashv && chain[0].key == key then chain[0]
    else FindIn(chain[1..], key, hashv)
  }

  ghost function Find(t: Table, key: Key, hashv: nat): (r: Handle?)
    requires t.Table? ==> |t.chains| > 0
  {
    if t.NoTable? then null else FindIn(t.chains[ToBkt(hashv, |t.chains|)], key, hashv)
  }

  /** `HASH_REPLACE`: the element found under the key leaves, then the new one is added. */
  ghost function Replace(t: Table, h: Handle): (r: Table)
    requires t.Table? ==> 0 < |t.chains| == |t.mult|
  {
    var old' := Find(t, h.key, h.hashv);
    Add(if old' == null then t else Delete(t, old'), h)
  }
}
