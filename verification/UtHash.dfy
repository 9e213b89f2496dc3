/**
The hash table itself: linked handles, an array of buckets that doubles in place, cached counters and an optional
Bloom filter. Every operation is proved to move the abstract state as UtHashModel says.
*/
module UtHash {
  import opened Bits
  import opened UtHashSort
  import opened UtHashModel
  import opened UtHashLinks
  import opened UtHashTheorems
  import opened UtHashOrder
  import opened UtHashBloom

  datatype Bucket = Bucket(head: Handle?, count: nat, mult: nat)

  ghost predicate ChainLinked(s: seq<Handle>)
    reads s`hhNext, s`hhPrev
  {
    && (forall i {:trigger s[i].hhNext} | 0 <= i < |s| :: s[i].hhNext == At(s, i + 1))
    && (forall i {:trigger s[i].hhPrev} | 0 <= i < |s| :: s[i].hhPrev == At(s, i - 1))
  }

  ghost predicate HhNextLinked(s: seq<Handle>)
    reads s`hhNext
  {
    forall i {:trigger s[i].hhNext} | 0 <= i < |s| :: s[i].hhNext == At(s, i + 1)
  }

  ghost predicate HhPrevLinked(s: seq<Handle>)
    reads s`hhPrev
  {
    forall i {:trigger s[i].hhPrev} | 0 <= i < |s| :: s[i].hhPrev == At(s, i - 1)
  }

  /** Every chain lies within the frame `hs` and is linked. */
  ghost predicate ChainsWithin(chains: Chains, hs: set<Handle>) {
    forall b | 0 <= b < |chains| :: Within(chains[b], hs)
  }

  ghost predicate ChainsLinked(chains: Chains, hs: set<Handle>)
    requires ChainsWithin(chains, hs)
    reads hs`hhNext, hs`hhPrev
  {
    forall b | 0 <= b < |chains| :: ChainLinked(chains[b])
  }

  /** The bucket array describes the chains. */
  ghost predicate BucketsOk(buckets: array<Bucket>, chains: Chains, mult: seq<nat>)
    reads buckets
  {
    && buckets.Length == |chains| == |mult|
    && forall b | 0 <= b < |chains| :: buckets[b] == Bucket(At(chains[b], 0), |chains[b]|, mult[b])
  }

  // ---- single links ----

  /** Links `h` in front of a chain. */
  method LinkFront(h: Handle, first: Handle?, ghost chain: seq<Handle>)
    requires ChainLinked(chain) && Distinct(chain) && first == At(chain, 0) && h !in chain
    modifies h`hhNext, h`hhPrev, (if first == null then {} else {first})`hhPrev
    ensures ChainLinked([h] + chain)
  {
    h.hhNext := first;
    h.hhPrev := null;
    if first != null {
      first.hhPrev := h;
    }
  }

  /** Pushes `h` onto the front of chain `b` (src/include/uthash.h:764-771). */
  method PushLink(buckets: array<Bucket>, h: Handle, b: nat,
                  ghost chains: Chains, ghost mult: seq<nat>, ghost hs: set<Handle>)
    requires b < |chains| && BucketsOk(buckets, chains, mult) && ChainsWithin(chains, hs) && ChainsLinked(chains, hs)
    requires forall c | 0 <= c < |chains| :: h !in chains[c]
    requires forall c, i | 0 <= c < |chains| && c != b && 0 <= i < |chains[c]| :: chains[c][i] !in chains[b]
    requires Distinct(chains[b])
    modifies buckets, h`hhNext, h`hhPrev, (if chains[b] == [] then {} else {chains[b][0]})`hhPrev
    ensures var r := chains[b := [h] + chains[b]];
            BucketsOk(buckets, r, mult) && ChainsWithin(r, hs + {h}) && ChainsLinked(r, hs + {h})
  {
    ghost var chain := chains[b];
    buckets[b] := buckets[b].(count := buckets[b].count + 1);
    LinkFront(h, buckets[b].head, chain);
    buckets[b] := buckets[b].(head := h);
    forall c | 0 <= c < |chains| && c != b ensures ChainLinked(chains[c]) {
      assert old(ChainLinked(chains[c]));
    }
  }

  /** Links the neighbours of `h` in a chain to each other. */
  method UnlinkHandle(h: Handle, ghost chain: seq<Handle>, ghost k: nat)
    requires ChainLinked(chain) && Distinct(chain) && k < |chain| && chain[k] == h
    modifies chain`hhNext, chain`hhPrev
    ensures ChainLinked(chain[..k] + chain[k + 1..])
  {
    if h.hhPrev != null {
      h.hhPrev.hhNext := h.hhNext;
    }
    if h.hhNext != null {
      h.hhNext.hhPrev := h.hhPrev;
    }
  }

  /** Takes `h` out of chain `b` (src/include/uthash.h:781-791). */
  method UnlinkFromBkt(buckets: array<Bucket>, h: Handle, b: nat, ghost k: nat,
                       ghost chains: Chains, ghost mult: seq<nat>, ghost hs: set<Handle>)
    requires b < |chains| && BucketsOk(buckets, chains, mult) && ChainsWithin(chains, hs) && ChainsLinked(chains, hs)
    requires forall c, i | 0 <= c < |chains| && c != b && 0 <= i < |chains[c]| :: chains[c][i] !in chains[b]
    requires Distinct(chains[b]) && k < |chains[b]| && chains[b][k] == h
    modifies buckets, hs`hhNext, hs`hhPrev
    ensures var r := chains[b := chains[b][..k] + chains[b][k + 1..]];
            BucketsOk(buckets, r, mult) && ChainsWithin(r, hs) && ChainsLinked(r, hs)
  {
    ghost var chain := chains[b];
    assert Within(chain, hs) && ChainLinked(chain);
    buckets[b] := buckets[b].(count := buckets[b].count - 1);
    if buckets[b].head == h {
      buckets[b] := buckets[b].(head := h.hhNext);
    }
    UnlinkHandle(h, chain, k);
    forall c | 0 <= c < |chains| && c != b ensures ChainLinked(chains[c]) {
      assert old(ChainLinked(chains[c]));
    }
  }

  // ---- expansion ----

  lemma {:induction false} ExcessAfterPush(r: Chains, ideal: nat, b: nat, h: Handle)
    requires b < |r|
    ensures Excess(r[b := [h] + r[b]], ideal) == Excess(r, ideal) + if |r[b]| + 1 > ideal then 1 else 0
  {
    var r' := r[b := [h] + r[b]];
    if b == 0 {
      assert r'[1..] == r[1..];
    } else {
      ExcessAfterPush(r[1..], ideal, b - 1, h);
      assert r'[1..] == r[1..][b - 1 := [h] + r[1..][b - 1]];
    }
  }

  lemma RedistributeOk(done: seq<Handle>, n: nat)
    requires n > 0 && Distinct(done)
    ensures var r := Redistribute(done, n);
            && (forall c | 0 <= c < n :: ChainOk(r[c], c, n, done))
            && ChainsWithin(r, Elements(done))
  {
    var r := Redistribute(done, n);
    forall c | 0 <= c < n ensures ChainOk(r[c], c, n, done) && Within(r[c], Elements(done)) {
      RedistributeChooses(done, n, c);
      ChosenIn(done, n, c);
    }
  }

  /** No chain but `b` holds `h` or anything of chain `b`. */
  lemma OtherBuckets(r: Chains, b: nat, h: Handle, items: seq<Handle>)
    requires b < |r| && h !in items
    requires forall c | 0 <= c < |r| :: ChainOk(r[c], c, |r|, items)
    ensures forall c, i | 0 <= c < |r| && c != b && 0 <= i < |r[c]| :: r[c][i] !in {h} + Elements(r[b])
  {
    assert ChainOk(r[b], b, |r|, items);
    forall c, i | 0 <= c < |r| && c != b && 0 <= i < |r[c]| ensures r[c][i] !in {h} + Elements(r[b]) {
      assert ChainOk(r[c], c, |r|, items);
    }
  }

  /** Moves one handle to the front of its new bucket and keeps the counters (src/include/uthash.h:844-855). */
  method MoveToBucket(newBuckets: array<Bucket>, h: Handle, b: nat, ideal: nat, nonideal0: nat,
                      ghost r: Chains, ghost done: seq<Handle>)
    returns (nonideal: nat)
    requires |r| > 0 && b == ToBkt(h.hashv, |r|) && ideal > 0
    requires BucketsOk(newBuckets, r, Mults(r, ideal))
    requires ChainsWithin(r, Elements(done)) && ChainsLinked(r, Elements(done))
    requires forall c | 0 <= c < |r| :: ChainOk(r[c], c, |r|, done)
    requires h !in done
    modifies newBuckets, h`hhNext, h`hhPrev, (if r[b] == [] then {} else {r[b][0]})`hhPrev
    ensures BucketsOk(newBuckets, PushFront(r, h), Mults(PushFront(r, h), ideal))
    ensures ChainsWithin(PushFront(r, h), Elements(done + [h]))
    ensures ChainsLinked(PushFront(r, h), Elements(done + [h]))
    ensures nonideal == nonideal0 + if |r[b]| + 1 > ideal then 1 else 0
  {
    ghost var chain := r[b];
    assert ChainOk(chain, b, |r|, done);
    nonideal := nonideal0;
    newBuckets[b] := newBuckets[b].(count := newBuckets[b].count + 1);
    if newBuckets[b].count > ideal {
      nonideal := nonideal + 1;
      newBuckets[b] := newBuckets[b].(mult := newBuckets[b].count / ideal);
    }
    LinkFront(h, newBuckets[b].head, chain);
    newBuckets[b] := newBuckets[b].(head := h);
    OtherBuckets(r, b, h, done);
    forall c | 0 <= c < |r| && c != b ensures ChainLinked(r[c]) {
      assert old(ChainLinked(r[c]));
    }
  }

  /** The new buckets hold exactly what has been moved, and the counters agree. */
  ghost predicate NewOk(newBuckets: array<Bucket>, n: nat, ideal: nat, nonideal: nat, done: seq<Handle>)
    reads newBuckets, done`hhNext, done`hhPrev
  {
    && n > 0 && Distinct(done)
    && var r := Redistribute(done, n);
    && ChainsWithin(r, Elements(done))
    && BucketsOk(newBuckets, r, Mults(r, ideal)) && nonideal == Excess(r, ideal)
    && ChainsLinked(r, Elements(done))
  }

  method MoveOne(newBuckets: array<Bucket>, h: Handle, k: nat, ideal: nat, nonideal0: nat,
                 ghost n: nat, ghost done: seq<Handle>)
    returns (nonideal: nat)
    requires n == Pow2(k) == newBuckets.Length && ideal > 0 && h !in done
    requires NewOk(newBuckets, n, ideal, nonideal0, done)
    modifies newBuckets, h`hhNext, h`hhPrev, done`hhPrev
    ensures NewOk(newBuckets, n, ideal, nonideal, done + [h])
  {
    var b := And(h.hashv, newBuckets.Length - 1);
    AndMaskIsMod(h.hashv, k);
    ghost var r := Redistribute(done, n);
    RedistributeOk(done, n);
    assert ChainOk(r[b], b, n, done);
    assert (done + [h])[..|done|] == done;
    ExcessAfterPush(r, ideal, b, h);
    nonideal := MoveToBucket(newBuckets, h, b, ideal, nonideal0, r, done);
  }

  /** Position `(c, m)` comes at or after position `(i, k)` in the walk over the old chains. */
  ghost predicate Ahead(chains: Chains, i: nat, k: nat, c: int, m: int) {
    i <= c < |chains| && 0 <= m < |chains[c]| && (c == i ==> k <= m)
  }

  ghost predicate NotDone(chains: Chains, i: nat, k: nat, done: seq<Handle>) {
    forall c, m {:trigger chains[c][m]} | Ahead(chains, i, k, c, m) :: chains[c][m] !in done
  }

  /** What is still to be walked over has its old successor links. */
  ghost predicate NextAhead(chains: Chains, i: nat, k: nat, hs: set<Handle>)
    requires ChainsWithin(chains, hs)
    reads hs`hhNext, hs`hhPrev
  {
    forall c, m {:trigger chains[c][m].hhNext} | Ahead(chains, i, k, c, m) ::
      chains[c][m].hhNext == At(chains[c], m + 1)
  }

  lemma NotDoneStep(chains: Chains, app: seq<Handle>, i: nat, k: nat, done: seq<Handle>)
    requires |chains| > 0 && Placed(chains, app) && i < |chains| && k < |chains[i]|
    requires NotDone(chains, i, k, done)
    ensures NotDone(chains, i, k + 1, done + [chains[i][k]])
  {
    var n := |chains|;
    assert ChainOk(chains[i], i, n, app);
    forall c, m | Ahead(chains, i, k + 1, c, m) ensures chains[c][m] !in done + [chains[i][k]] {
      assert Ahead(chains, i, k, c, m);
      assert ChainOk(chains[c], c, n, app);
    }
  }

  /** Moves one old chain (src/include/uthash.h:841-857). */
  method MoveChain(first: Handle?, newBuckets: array<Bucket>, log2: nat, ideal: nat, nonideal0: nat,
                   ghost chains: Chains, ghost app: seq<Handle>, ghost i: nat, ghost done0: seq<Handle>)
    returns (nonideal: nat, ghost done: seq<Handle>)
    requires i < |chains| && Placed(chains, app) && ChainsWithin(chains, Elements(app)) && ideal > 0
    requires first == At(chains[i], 0) && newBuckets.Length == Pow2(log2)
    requires NewOk(newBuckets, newBuckets.Length, ideal, nonideal0, done0) && Within(done0, Elements(app))
    requires NotDone(chains, i, 0, done0) && NextAhead(chains, i, 0, Elements(app))
    modifies newBuckets, Elements(app)`hhNext, Elements(app)`hhPrev
    ensures done == done0 + chains[i] && Within(done, Elements(app))
    ensures NewOk(newBuckets, newBuckets.Length, ideal, nonideal, done)
    ensures NotDone(chains, i + 1, 0, done) && NextAhead(chains, i + 1, 0, Elements(app))
  {
    hide NewOk, Placed, ChainsLinked;
    nonideal, done := nonideal0, done0;
    var thh := first;
    ghost var k := 0;
    while thh != null
      invariant k <= |chains[i]| && thh == At(chains[i], k)
      invariant done == done0 + chains[i][..k] && Within(done, Elements(app))
      invariant NewOk(newBuckets, newBuckets.Length, ideal, nonideal, done)
      invariant NotDone(chains, i, k, done) && NextAhead(chains, i, k, Elements(app))
      decreases |chains[i]| - k
    {
      assert Ahead(chains, i, k, i, k) && thh == chains[i][k] && Within(chains[i], Elements(app));
      var next := thh.hhNext;
      NotDoneStep(chains, app, i, k, done);
      nonideal := MoveOne(newBuckets, thh, log2, ideal, nonideal, newBuckets.Length, done);
      done := done + [thh];
      k := k + 1;
      thh := next;
    }
  }

  /** Rebuilds the chains in twice as many buckets (src/include/uthash.h:839-858). */
  method MoveAll(buckets: array<Bucket>, newBuckets: array<Bucket>, log2: nat, ideal: nat,
                 ghost chains: Chains, ghost mult: seq<nat>, ghost app: seq<Handle>)
    returns (nonideal: nat)
    requires |chains| == Pow2(log2) && Placed(chains, app)
    requires BucketsOk(buckets, chains, mult) && buckets != newBuckets
    requires ChainsWithin(chains, Elements(app)) && ChainsLinked(chains, Elements(app))
    requires newBuckets.Length == 2 * |chains| && ideal > 0
    requires forall b | 0 <= b < newBuckets.Length :: newBuckets[b] == Bucket(null, 0, 0)
    modifies newBuckets, Elements(app)`hhNext, Elements(app)`hhPrev
    ensures var r := Redistribute(Flatten(chains), 2 * |chains|);
            && BucketsOk(newBuckets, r, Mults(r, ideal)) && nonideal == Excess(r, ideal)
            && ChainsWithin(r, Elements(app)) && ChainsLinked(r, Elements(app))
  {
    hide NewOk, Placed, ChainsLinked, NotDone, NextAhead, Redistribute, Excess, Mults;
    nonideal := 0;
    ghost var done: seq<Handle> := [];
    NothingMoved(newBuckets, ideal, chains, app);
    var i := 0;
    while i < buckets.Length
      invariant i <= buckets.Length == |chains| && BucketsOk(buckets, chains, mult)
      invariant done + Flatten(chains[i..]) == Flatten(chains) && Within(done, Elements(app))
      invariant NewOk(newBuckets, newBuckets.Length, ideal, nonideal, done)
      invariant NotDone(chains, i, 0, done) && NextAhead(chains, i, 0, Elements(app))
    {
      ghost var done0 := done;
      nonideal, done := MoveChain(buckets[i].head, newBuckets, log2 + 1, ideal, nonideal, chains, app, i, done);
      assert chains[i..][1..] == chains[i + 1..];
      Reassociate(done0, chains[i], Flatten(chains[i + 1..]));
      i := i + 1;
    }
    AllMoved(newBuckets, ideal, nonideal, done, chains, app);
  }

  lemma AllMoved(newBuckets: array<Bucket>, ideal: nat, nonideal: nat, done: seq<Handle>,
                 chains: Chains, app: seq<Handle>)
    requires newBuckets.Length == 2 * |chains| > 0 && NewOk(newBuckets, newBuckets.Length, ideal, nonideal, done)
    requires Within(done, Elements(app)) && done + Flatten(chains[|chains|..]) == Flatten(chains)
    ensures var r := Redistribute(Flatten(chains), 2 * |chains|);
            && BucketsOk(newBuckets, r, Mults(r, ideal)) && nonideal == Excess(r, ideal)
            && ChainsWithin(r, Elements(app)) && ChainsLinked(r, Elements(app))
  {
    assert done + [] == done;
    var r := Redistribute(done, newBuckets.Length);
    forall c | 0 <= c < |r| ensures Within(r[c], Elements(app)) && ChainLinked(r[c]) {
      assert Within(r[c], Elements(done));
    }
  }

  lemma NothingMoved(newBuckets: array<Bucket>, ideal: nat, chains: Chains, app: seq<Handle>)
    requires newBuckets.Length > 0 && ChainsWithin(chains, Elements(app)) && ChainsLinked(chains, Elements(app))
    requires forall b | 0 <= b < newBuckets.Length :: newBuckets[b] == Bucket(null, 0, 0)
    ensures NewOk(newBuckets, newBuckets.Length, ideal, 0, [])
    ensures NotDone(chains, 0, 0, []) && NextAhead(chains, 0, 0, Elements(app))
    ensures [] + Flatten(chains[0..]) == Flatten(chains)
  {
    EmptyExcess(newBuckets.Length, ideal);
    assert chains[0..] == chains;
    forall c, m | Ahead(chains, 0, 0, c, m) ensures chains[c][m].hhNext == At(chains[c], m + 1) {
      assert ChainLinked(chains[c]);
    }
  }

  lemma {:induction false} EmptyExcess(n: nat, ideal: nat)
    ensures Excess(seq(n, _ => []), ideal) == 0
  {
    if n > 0 {
      EmptyExcess(n - 1, ideal);
      assert seq(n, _ => [])[1..] == seq<seq<Handle>>(n - 1, _ => []);
    }
  }

  /** The shift and the mask compute the ideal chain length, rounded up. */
  lemma IdealIsCeil(n: nat, log2: nat)
    requires n > 0
    ensures Shr(n, log2 + 1) + (if And(n, Pow2(log2) * 2 - 1) != 0 then 1 else 0) == CeilOf(n, 2 * Pow2(log2)) > 0
  {
    ShrIsDiv(n, log2 + 1);
    AndMaskIsMod(n, log2 + 1);
    CeilDiv(n, 2 * Pow2(log2));
  }

  lemma ShrIsHalf(n: nat)
    ensures Shr(n, 1) == n / 2
  {
    ShrIsDiv(n, 1);
  }

  lemma TableHasBuckets(t: Table, hash: Key -> nat)
    requires t.Table? && Inv(t, hash)
    ensures |t.chains| == Pow2(t.log2) > 0
  {
  }

  lemma ExpandFields(t: Table)
    requires t.Table? && |t.chains| > 0
    ensures var r := Expand(t);
            && r.app == t.app && r.chains == Redistribute(Flatten(t.chains), 2 * |t.chains|)
            && r.ideal == CeilOf(|t.app|, 2 * |t.chains|) && r.mult == Mults(r.chains, r.ideal)
            && r.nonideal == Excess(r.chains, r.ideal) && r.log2 == t.log2 + 1
            && r.ineff == (if r.nonideal > |t.app| / 2 then t.ineff + 1 else 0)
            && r.noexpand == (t.noexpand || r.ineff > 1)
  {
  }

  /** Takes `h` out of the application-order links. */
  method UnlinkNode(h: Handle, ghost app: seq<Handle>, ghost k: nat)
    requires AppLinked(app) && Distinct(app) && k < |app| && app[k] == h
    modifies app`next, app`prev
    ensures AppLinked(app[..k] + app[k + 1..])
  {
    if h.prev != null {
      h.prev.next := h.next;
    }
    if h.next != null {
      h.next.prev := h.prev;
    }
  }

  /** Links `h` behind the last element. */
  method LinkLast(h: Handle, tail: Handle, ghost app: seq<Handle>)
    requires AppLinked(app) && h !in app && Distinct(app) && app != [] && tail == app[|app| - 1]
    modifies h`next, h`prev, tail`next
    ensures AppLinked(app + [h])
  {
    h.next := null;
    h.prev := tail;
    tail.next := h;
  }

  lemma PlaceInList(h: Handle, app: seq<Handle>, k: nat)
    requires AppLinked(app) && Distinct(app) && k < |app| && app[k] == h
    ensures h.prev == At(app, k - 1) && h.next == At(app, k + 1)
    ensures h == app[|app| - 1] <==> k == |app| - 1
  {
  }

  /** Links `h` into the application order before `iter`. */
  method LinkBefore(h: Handle, iter: Handle, ghost app: seq<Handle>, ghost i: nat)
    requires AppLinked(app) && h !in app && Distinct(app) && i < |app| && app[i] == iter
    modifies h`next, h`prev, app`next, app`prev
    ensures AppLinked(InsertAt(app, i, h))
  {
    h.next := iter;
    h.prev := iter.prev;
    if h.prev != null {
      h.prev.next := h;
    }
    iter.prev := h;
  }

  // ---- the table ----

  class UtHash {
    const hash: Key -> nat
    const bloom: bool
    const bloomNbits: nat

    var head: Handle?
    var buckets: array<Bucket>
    var numBuckets: nat
    var log2NumBuckets: nat
    var numItems: nat
    var tail: Handle?
    var idealChainMaxlen: nat
    var nonidealItems: nat
    var ineffExpands: nat
    var noexpand: bool
    var bloomBv: array<bv8>

    ghost var st: Table

    ghost predicate AppOk(app: seq<Handle>)
      reads `head, `tail, app`next, app`prev
    {
      app != [] && head == app[0] && tail == app[|app| - 1] && AppLinked(app)
    }

    ghost predicate BktOk(t: Table)
      reads `numBuckets, `log2NumBuckets, `numItems, `idealChainMaxlen, `nonidealItems, `ineffExpands, `noexpand, `buckets
      reads buckets, Items(t)`hhNext, Items(t)`hhPrev
    {
      && t.Table? && ChainsWithin(t.chains, Elements(t.app))
      && numBuckets == |t.chains| == Pow2(t.log2) && log2NumBuckets == t.log2 && numItems == |t.app|
      && idealChainMaxlen == t.ideal && nonidealItems == t.nonideal
      && ineffExpands == t.ineff && noexpand == t.noexpand
      && BucketsOk(buckets, t.chains, t.mult) && ChainsLinked(t.chains, Elements(t.app))
    }

    /** The bit of every element's hash value is set. */
    ghost predicate BloomOk(items: seq<Handle>)
      reads `bloomBv, `buckets, bloomBv
    {
      && bloomBv as object != buckets
      && (bloom ==>
        && bloomBv.Length == ByteLen(bloomNbits)
        && forall i | 0 <= i < |items| ::
             var idx := Index(items[i].hashv, bloomNbits); idx / 8 < bloomBv.Length && IsSet(bloomBv[..], idx))
    }

    ghost predicate Valid()
      reads this, buckets, bloomBv, Items(st)
    {
      && Inv(st, hash)
      && (head == null <==> st.NoTable?)
      && (st.Table? ==> AppOk(st.app) && BktOk(st) && BloomOk(st.app))
    }

    constructor (hash: Key -> nat, bloom: bool, bloomNbits: nat)
      ensures Valid() && st == NoTable
      ensures this.hash == hash && this.bloom == bloom && this.bloomNbits == bloomNbits
      ensures fresh(buckets) && fresh(bloomBv)
    {
      this.hash, this.bloom, this.bloomNbits := hash, bloom, bloomNbits;
      head, tail := null, null;
      buckets := new Bucket[0];
      bloomBv := new bv8[0];
      st := NoTable;
    }

    /** `HASH_EXPAND_BUCKETS` (src/include/uthash.h:823-870). */
    method ExpandBuckets(ghost t: Table)
      requires BktOk(t) && Inv(t, hash)
      modifies `buckets, `numBuckets, `log2NumBuckets, `idealChainMaxlen, `nonidealItems, `ineffExpands, `noexpand
      modifies Elements(t.app)`hhNext, Elements(t.app)`hhPrev
      ensures BktOk(Expand(t)) && fresh(buckets)
    {
      hide Distinct, Placed, ChainsLinked, Redistribute, Excess, Mults, CeilOf, And, Shr, Flatten, Expand;
      ExpandFields(t);
      assert Pow2(log2NumBuckets + 1) == 2 * numBuckets;
      var newBuckets := new Bucket[2 * numBuckets](_ => Bucket(null, 0, 0));
      idealChainMaxlen := Shr(numItems, log2NumBuckets + 1) +
        (if And(numItems, numBuckets * 2 - 1) != 0 then 1 else 0);
      IdealIsCeil(numItems, log2NumBuckets);
      nonidealItems := MoveAll(buckets, newBuckets, log2NumBuckets, idealChainMaxlen, t.chains, t.mult, t.app);
      assert ChainsWithin(Expand(t).chains, Elements(t.app));
      InstallBuckets(newBuckets);
    }

    /** The end of an expansion (src/include/uthash.h:860-868). */
    method InstallBuckets(newBuckets: array<Bucket>)
      modifies `buckets, `numBuckets, `log2NumBuckets, `ineffExpands, `noexpand
      ensures buckets == newBuckets
      ensures numBuckets == 2 * old(numBuckets) && log2NumBuckets == old(log2NumBuckets) + 1
      ensures ineffExpands == if nonidealItems > numItems / 2 then old(ineffExpands) + 1 else 0
      ensures noexpand == (old(noexpand) || ineffExpands > 1)
    {
      numBuckets := numBuckets * 2;
      log2NumBuckets := log2NumBuckets + 1;
      buckets := newBuckets;
      ineffExpands := if nonidealItems > Shr(numItems, 1) then ineffExpands + 1 else 0;
      ShrIsHalf(numItems);
      if ineffExpands > 1 {
        noexpand := true;
      }
    }
  
    /** `HASH_ADD_TO_BKT` (src/include/uthash.h:762-776). */
    method AddToBkt(h: Handle, ghost t: Table, ghost items: seq<Handle>)
      requires t.Table? && BktOk(t) && Placed(t.chains, items) && h !in items && h in t.app
      requires Inv(t.(chains := PushFront(t.chains, h)), hash)
      modifies `buckets, `numBuckets, `log2NumBuckets, `idealChainMaxlen, `nonidealItems, `ineffExpands, `noexpand
      modifies buckets, Elements(t.app)`hhNext, Elements(t.app)`hhPrev
      ensures BktOk(UtHashModel.AddToBkt(t, h)) && (buckets == old(buckets) || fresh(buckets))
      ensures old(AppOk(t.app)) ==> AppOk(t.app)
      ensures old(BloomOk(items)) ==> BloomOk(items)
    {
      hide Distinct, Placed, Inv, Expand, ChainsLinked, Pow2;
      var b := And(h.hashv, numBuckets - 1);
      AndMaskIsMod(h.hashv, t.log2);
      BucketsApart(t.chains, items, h, b);
      PushLink(buckets, h, b, t.chains, t.mult, Elements(t.app));
      assert Elements(t.app) + {h} == Elements(t.app);
      ghost var t1 := t.(chains := PushFront(t.chains, h));
      assert BktOk(t1);
      if buckets[b].count >= (buckets[b].mult + 1) * CAPACITY_THRESH && !noexpand {
        ExpandBuckets(t1);
      }
    }

    /** `HASH_MAKE_TABLE` (src/include/uthash.h:178-198). */
    method MakeTable()
      requires head != null
      modifies this
      ensures head == old(head) && st == old(st) && tail == head && BktOk(EmptyTable()) && BloomOk([])
      ensures numBuckets == 32 && log2NumBuckets == 5 && numItems == 0 && !noexpand
      ensures fresh(buckets) && fresh(bloomBv)
    {
      tail := head;
      numBuckets := 32;
      log2NumBuckets := INITIAL_LOG2;
      numItems, idealChainMaxlen, nonidealItems, ineffExpands, noexpand := 0, 0, 0, 0, false;
      buckets := new Bucket[32](_ => Bucket(null, 0, 0));
      bloomBv := new bv8[ByteLen(bloomNbits)](_ => 0);
      assert Pow2(INITIAL_LOG2) == 32 by { assert Pow2(3) == 8; }
    }

    /** The first element of a new table (src/include/uthash.h:274-277, 322-325). */
    method StartTable(h: Handle)
      modifies this, h`next, h`prev
      ensures head == h && st == old(st) && AppOk([h]) && BktOk(EmptyTable()) && BloomOk([])
      ensures fresh(buckets) && fresh(bloomBv)
    {
      h.next := null;
      h.prev := null;
      head := h;
      MakeTable();
    }

    /** `HASH_APPEND_LIST` (src/include/uthash.h:234-240). */
    method AppendList(h: Handle, ghost app: seq<Handle>)
      requires AppOk(app) && h !in app && Distinct(app)
      modifies `tail, h`next, h`prev, app`next
      ensures AppOk(app + [h])
      ensures old(BktOk(st)) ==> BktOk(st)
      ensures old(BloomOk(Items(st))) ==> BloomOk(Items(st))
    {
      LinkLast(h, tail, app);
      tail := h;
    }

    method CountItem(ghost t: Table, ghost app: seq<Handle>, ghost items: seq<Handle>, ghost t': Table)
      requires BktOk(t) && |app| == |t.app| + 1 && Elements(t.app) <= Elements(app)
      modifies `numItems, `st
      ensures BktOk(t.(app := app)) && st == t'
      ensures old(AppOk(app)) ==> AppOk(app)
      ensures old(BloomOk(items)) ==> BloomOk(items)
    {
      st := t';
      numItems := numItems + 1;
      forall b | 0 <= b < |t.chains| ensures Within(t.chains[b], Elements(app)) && ChainLinked(t.chains[b]) {
        assert Within(t.chains[b], Elements(t.app));
      }
    }

    /** `HASH_BLOOM_ADD` (src/include/uthash.h:164-165). */
    method BloomAdd(h: Handle, ghost items: seq<Handle>, ghost app: seq<Handle>, ghost t: Table)
      requires BloomOk(items) && forall i | 0 <= i < |app| :: app[i] == h || app[i] in items
      modifies bloomBv
      ensures BloomOk(app)
      ensures old(AppOk(app)) ==> AppOk(app)
      ensures old(BktOk(t)) ==> BktOk(t)
    {
      if bloom {
        IndexInRange(h.hashv, bloomNbits);
        BitSet(bloomBv, Index(h.hashv, bloomNbits));
        forall i | 0 <= i < |app|
          ensures var idx := Index(app[i].hashv, bloomNbits); idx / 8 < bloomBv.Length && IsSet(bloomBv[..], idx)
        {
          if app[i] != h {
            var k :| 0 <= k < |items| && items[k] == app[i];
            assert old(IsSet(bloomBv[..], Index(items[k].hashv, bloomNbits)));
          }
        }
      }
    }

    /** The common end of both additions (src/include/uthash.h:294-297, 330-333). */
    method FinishAdd(h: Handle, ghost app: seq<Handle>)
      requires Inv(st, hash) && h !in Items(st) && h.hashv == hash(h.key) && IsInsertion(app, Items(st), h)
      requires AppOk(app) && BloomOk(Items(st))
      requires BktOk(if st.NoTable? then EmptyTable() else st)
      modifies `numItems, `buckets, `numBuckets, `log2NumBuckets, `idealChainMaxlen, `nonidealItems, `ineffExpands
      modifies `noexpand, `st, buckets, bloomBv, Elements(app)`hhNext, Elements(app)`hhPrev
      ensures Valid() && st == AddAs(old(st), h, app)
      ensures buckets == old(buckets) || fresh(buckets)
    {
      hide Inv, Placed, Distinct, UtHashModel.AddToBkt, IsInsertion, AppOk, BktOk, BloomOk;
      ghost var items, t := Items(st), if st.NoTable? then EmptyTable() else st;
      InsertionFacts(st, h, app, hash);
      AddKeepsInv(st, h, app, hash);
      CountItem(t, app, items, AddAs(st, h, app));
      AddToBkt(h, t.(app := app), items);
      BloomAdd(h, items, app, st);
    }

    /** Puts `h` before the element `iter` (src/include/uthash.h:283-289). */
    method InsertBefore(h: Handle, iter: Handle, ghost app: seq<Handle>, ghost i: nat)
      requires AppOk(app) && h !in app && Distinct(app) && i < |app| && app[i] == iter
      modifies `head, h`next, h`prev, app`next, app`prev
      ensures AppOk(InsertAt(app, i, h))
      ensures old(BktOk(st)) ==> BktOk(st)
      ensures old(BloomOk(Items(st))) ==> BloomOk(Items(st))
    {
      if iter.prev == null {
        head := h;
      }
      LinkBefore(h, iter, app, i);
    }

    /** `HASH_ADD_KEYPTR_BYHASHVALUE_INORDER` (src/include/uthash.h:267-300). */
    method AddInOrder(h: Handle, cmp: (Handle, Handle) -> int)
      requires Valid() && h !in Items(st) && h.hashv == hash(h.key)
      modifies this, buckets, bloomBv, Items(st), h
      ensures Valid() && st == UtHashModel.AddInOrder(old(st), h, cmp)
      ensures PutInOrder(Items(st), old(Items(st)), h, cmp)
      ensures TotalPreorder(cmp, Elements(old(Items(st))) + {h}) && Sorted(cmp, old(Items(st))) ==>
                && Sorted(cmp, Items(st)) && multiset(Items(st)) == multiset(old(Items(st))) + multiset{h}
                && Ties(cmp, h, Items(st)) == Ties(cmp, h, old(Items(st))) + [h]
      ensures (buckets == old(buckets) || fresh(buckets)) && (bloomBv == old(bloomBv) || fresh(bloomBv))
    {
      hide Distinct, Placed, EmptyTable, AppOk, BktOk, BloomOk, UtHashModel.AddToBkt, IsInsertion, InsertAt, InsertionPoint, InsertInOrder, AddAs, PutInOrder, TotalPreorder, Sorted, Ties;
      ghost var items := Items(st);
      OrderAfterAdd(st, h, cmp, hash);
      ghost var app := InsertInOrder(cmp, items, h);
      InsertInOrderInserts(cmp, items, h);
      InsertionMembers(app, items, h);
      if head == null {
        StartTable(h);
      } else {
        LinkInOrder(h, cmp, app);
      }
      FinishAdd(h, app);
    }

    /** Links `h` before the first element that is greater, or behind the last (src/include/uthash.h:280-292). */
    method LinkInOrder(h: Handle, cmp: (Handle, Handle) -> int, ghost app: seq<Handle>)
      requires head != null && AppOk(Items(st)) && Distinct(Items(st)) && h !in Items(st)
      requires app == InsertInOrder(cmp, Items(st), h)
      modifies `head, `tail, h`next, h`prev, Items(st)`next, Items(st)`prev
      ensures AppOk(app)
      ensures old(BktOk(st)) ==> BktOk(st)
      ensures old(BloomOk(Items(st))) ==> BloomOk(Items(st))
    {
      hide Distinct, AppOk, BktOk, BloomOk, InsertAt, InsertionPoint, InsertInOrder;
      ghost var items := Items(st);
      ghost var at := InsertionPoint(cmp, items, h);
      InsertInOrderInserts(cmp, items, h);
      var iter := FindInsertionPoint(h, cmp);
      if iter != null {
        InsertBefore(h, iter, items, at);
      } else {
        AppendList(h, items);
      }
    }

    /** `HASH_AKBI_INNER_LOOP` (src/include/uthash.h:242-249). */
    method FindInsertionPoint(h: Handle, cmp: (Handle, Handle) -> int) returns (iter: Handle?)
      requires head != null && AppOk(Items(st))
      ensures iter == At(Items(st), InsertionPoint(cmp, Items(st), h))
    {
      ghost var app, i := Items(st), 0;
      iter := head;
      while true
        invariant i < |app| && iter == app[i]
        invariant InsertionPoint(cmp, app, h) == i + InsertionPoint(cmp, app[i..], h)
        decreases |app| - i
      {
        if cmp(iter, h) > 0 {
          break;
        }
        iter := iter.next;
        i := i + 1;
        if iter == null {
          break;
        }
      }
    }

    /** `HASH_ADD_KEYPTR_BYHASHVALUE` (src/include/uthash.h:315-336). */
    method Add(h: Handle)
      requires Valid() && h !in Items(st) && h.hashv == hash(h.key)
      modifies this, buckets, bloomBv, Items(st), h
      ensures Valid() && st == UtHashModel.Add(old(st), h)
      ensures Items(st) == old(Items(st)) + [h]
      ensures (buckets == old(buckets) || fresh(buckets)) && (bloomBv == old(bloomBv) || fresh(bloomBv))
    {
      hide Distinct, Placed, EmptyTable, AppOk, BktOk, BloomOk, UtHashModel.AddToBkt, IsInsertion, InsertAt, AddAs;
      ghost var app := Items(st) + [h];
      AppendInserts(Items(st), h);
      TableSizes(st, hash);
      AddAppends(st, h);
      InsertionMembers(app, Items(st), h);
      if head == null {
        StartTable(h);
      } else {
        AppendList(h, st.app);
      }
      FinishAdd(h, app);
    }

    /** Takes `h` out of the application-order list (src/include/uthash.h:382-392). */
    method UnlinkApp(h: Handle, ghost app: seq<Handle>, ghost k: nat)
      requires AppOk(app) && Distinct(app) && k < |app| && app[k] == h && |app| > 1
      modifies `head, `tail, app`next, app`prev
      ensures AppOk(app[..k] + app[k + 1..])
      ensures old(BktOk(st)) ==> BktOk(st)
      ensures old(BloomOk(app)) ==> BloomOk(app)
    {
      hide Distinct, AppLinked;
      PlaceInList(h, app, k);
      if h == tail {
        tail := h.prev;
      }
      if h.prev == null {
        head := h.next;
      }
      UnlinkNode(h, app, k);
    }

    /** `HASH_DELETE_HH` (src/include/uthash.h:371-398). */
    method Delete(h: Handle)
      requires Valid() && h in Items(st)
      modifies this, buckets, Items(st)
      ensures Valid() && st == UtHashModel.Delete(old(st), h)
      ensures TakenOut(Items(st), old(Items(st)), h)
      ensures buckets == old(buckets) && bloomBv == old(bloomBv)
    {
      hide Distinct, Placed, Inv, AppOk, BktOk, BloomOk, UtHashModel.Delete, Without, TakenOut;
      ghost var t, k := st, PositionOf(st.app, h);
      DeleteKeepsInv(t, h, hash);
      DeleteTakesOut(t, h, hash);
      DeleteFacts(t, h, k, hash);
      LastHasNoNeighbours(h, t.app, k);
      if h.prev == null && h.next == null {
        head := null;
        st := NoTable;
      } else {
        UnlinkApp(h, t.app, k);
        HeadIsFirst(Without(t.app, h));
        DelInBkt(h, t);
      }
    }

    lemma HeadIsFirst(app: seq<Handle>)
      requires AppOk(app)
      ensures head != null
    {
    }

    lemma LastHasNoNeighbours(h: Handle, app: seq<Handle>, k: nat)
      requires AppOk(app) && k < |app| && app[k] == h
      ensures h.prev == null && h.next == null <==> |app| == 1
    {
    }

    /** The bucket half of a deletion (src/include/uthash.h:393-395, 779-792). */
    method DelInBkt(h: Handle, ghost t: Table)
      requires BktOk(t) && Inv(t, hash) && h in t.app && |t.app| > 1
      modifies `numItems, `st, buckets, Elements(t.app)`hhNext, Elements(t.app)`hhPrev
      ensures st == UtHashModel.Delete(t, h) && BktOk(st)
      ensures var app := Without(t.app, h);
              (old(AppOk(app)) ==> AppOk(app)) && (old(BloomOk(t.app)) ==> BloomOk(app))
    {
      hide Distinct, Placed, Inv, Without;
      var b := And(h.hashv, numBuckets - 1);
      AndMaskIsMod(h.hashv, t.log2);
      ghost var j := DelFacts(t, h, b, hash);
      UnlinkFromBkt(buckets, h, b, j, t.chains, t.mult, Elements(t.app));
      numItems := numItems - 1;
      st := UtHashModel.Delete(t, h);
    }

    /** `HASH_FIND_BYHASHVALUE` (src/include/uthash.h:123-133, 740-759). */
    method Find(key: Key, hashv: nat) returns (out: Handle?)
      requires Valid()
      ensures out == UtHashModel.Find(st, key, hashv)
    {
      hide FindIn, Inv, Pow2;
      out := null;
      if head != null {
        var maybe := BloomTest(hashv);
        if maybe {
          out := FindInBkt(key, hashv);
        } else {
          NoHashNoFind(st, key, hashv, hash);
        }
      }
    }

    /** `HASH_FIND_IN_BKT` (src/include/uthash.h:740-759). */
    method FindInBkt(key: Key, hashv: nat) returns (out: Handle?)
      requires BktOk(st) && Inv(st, hash)
      ensures out == UtHashModel.Find(st, key, hashv)
    {
      hide Inv, Pow2;
      TableHasBuckets(st, hash);
      var b := And(hashv, numBuckets - 1);
      AndMaskIsMod(hashv, st.log2);
      ghost var chain, i := st.chains[b], 0;
      assert ChainLinked(chain);
      out := buckets[b].head;
      while out != null
        invariant i <= |chain| && out == At(chain, i)
        invariant FindIn(chain, key, hashv) == FindIn(chain[i..], key, hashv)
        decreases |chain| - i
      {
        if out.hashv == hashv && |out.key| == |key| {
          if out.key == key {
            break;
          }
        }
        out := out.hhNext;
        i := i + 1;
      }
    }

    /** What the walks of the check rely on: the links forward lead from the heads along these chains and this list to an end. */
    ghost predicate Walkable(chains: Chains, app: seq<Handle>, hs: set<Handle>)
      requires ChainsWithin(chains, hs)
      reads `head, `numBuckets, `buckets, buckets, hs`hhNext, app`next
    {
      && numBuckets == |chains| == buckets.Length
      && (forall b | 0 <= b < |chains| :: buckets[b].head == At(chains[b], 0) && HhNextLinked(chains[b]))
      && head == At(app, 0) && NextLinked(app, 0)
    }

    ghost predicate BucketSound(chain: seq<Handle>, b: nat)
      requires b < buckets.Length
      reads `buckets, buckets, chain`hhPrev
    {
      HhPrevLinked(chain) && buckets[b].count == |chain|
    }

    ghost predicate AppPrevLinked(app: seq<Handle>)
      reads app`prev
    {
      forall i {:trigger app[i].prev} | 0 <= i < |app| :: app[i].prev == At(app, i - 1)
    }

    /** What the check is for: links backward, bucket counts, and the number of items by buckets and along the list. */
    ghost predicate Sound(chains: Chains, app: seq<Handle>, hs: set<Handle>)
      requires ChainsWithin(chains, hs) && |chains| <= buckets.Length
      reads `numItems, `buckets, buckets, hs`hhPrev, app`prev
    {
      && (forall b | 0 <= b < |chains| :: BucketSound(chains[b], b))
      && SumLen(chains) == numItems
      && AppPrevLinked(app) && |app| == numItems
    }

    /**
    `HASH_FSCK` (src/include/uthash.h:428-475): the pointer walks, the counters and the comparisons are those of the macro;
    `ok` turns false where the macro reports a fault. It finds a fault exactly when there is one, on a table that need not
    be valid.
    */
    method Fsck(ghost chains: Chains, ghost app: seq<Handle>, ghost hs: set<Handle>) returns (ok: bool)
      requires ChainsWithin(chains, hs)
      requires head != null ==> Walkable(chains, app, hs)
      ensures ok <==> head == null || Sound(chains, app, hs)
    {
      hide BucketSound, AppPrevLinked, NextLinked;
      ok := true;
      if head != null {
        var count := 0;
        var i := 0;
        assert chains[0..] == chains;
        while i < numBuckets
          invariant i <= numBuckets && count + SumLen(chains[i..]) == SumLen(chains)
          invariant ok <==> forall b | 0 <= b < i :: BucketSound(chains[b], b)
        {
          assert chains[i..][0] == chains[i] && chains[i..][1..] == chains[i + 1..];
          var bktCount, faulty := FsckBucket(i, chains[i]);
          count := count + bktCount;
          if faulty {
            ok := false;
          }
          i := i + 1;
        }
        if count != numItems {
          ok := false;
        }
        var appCount, faulty := FsckApp(app);
        if faulty || appCount != numItems {
          ok := false;
        }
      }
    }

    method FsckBucket(i: nat, ghost chain: seq<Handle>) returns (bktCount: nat, faulty: bool)
      requires i < buckets.Length && buckets[i].head == At(chain, 0) && HhNextLinked(chain)
      ensures bktCount == |chain| && (faulty <==> !BucketSound(chain, i))
    {
      var thh := buckets[i].head;
      var prev: Handle? := null;
      bktCount, faulty := 0, false;
      while thh != null
        invariant bktCount <= |chain| && thh == At(chain, bktCount) && prev == At(chain, bktCount - 1)
        invariant faulty <==> exists k {:trigger chain[k].hhPrev} :: 0 <= k < bktCount && chain[k].hhPrev != At(chain, k - 1)
        decreases |chain| - bktCount
      {
        if prev != thh.hhPrev {
          faulty := true;
        }
        bktCount := bktCount + 1;
        prev := thh;
        thh := thh.hhNext;
      }
      if buckets[i].count != bktCount {
        faulty := true;
      }
    }

    method FsckApp(ghost app: seq<Handle>) returns (count: nat, faulty: bool)
      requires head == At(app, 0) && NextLinked(app, 0)
      ensures count == |app| && (faulty <==> !AppPrevLinked(app))
    {
      var thh: Handle? := head;
      var prev: Handle? := null;
      count, faulty := 0, false;
      while thh != null
        invariant count <= |app| && thh == At(app, count) && prev == At(app, count - 1)
        invariant faulty <==> exists k {:trigger app[k].prev} :: 0 <= k < count && app[k].prev != At(app, k - 1)
        decreases |app| - count
      {
        count := count + 1;
        if prev != thh.prev {
          faulty := true;
        }
        prev := thh;
        thh := thh.next;
      }
    }

    /** On a valid table the walks end and there is no fault. */
    lemma ValidIsSound()
      requires Valid() && st.Table?
      ensures ChainsWithin(st.chains, Elements(st.app))
      ensures Walkable(st.chains, st.app, Elements(st.app)) && Sound(st.chains, st.app, Elements(st.app))
    {
      hide Inv, Pow2, BloomOk;
      CountsSumToItems(st, hash);
      forall b | 0 <= b < |st.chains| ensures HhNextLinked(st.chains[b]) && BucketSound(st.chains[b], b) {
        assert ChainLinked(st.chains[b]);
      }
    }

    /** `HASH_BLOOM_TEST` (src/include/uthash.h:167-168, 174): never denies the hash value of an element. */
    method BloomTest(hashv: nat) returns (r: bool)
      requires BloomOk(Items(st))
      ensures r || forall i | 0 <= i < |Items(st)| :: Items(st)[i].hashv != hashv
      ensures bloom ==> Index(hashv, bloomNbits) / 8 < bloomBv.Length && (r <==> IsSet(bloomBv[..], Index(hashv, bloomNbits)))
      ensures !bloom ==> r
    {
      if !bloom {
        return true;
      }
      IndexInRange(hashv, bloomNbits);
      r := BitTest(bloomBv, Index(hashv, bloomNbits));
    }

    /** `HASH_REPLACE` (src/include/uthash.h:210-225). */
    method Replace(h: Handle) returns (replaced: Handle?)
      requires Valid() && h !in Items(st) && h.hashv == hash(h.key)
      modifies this, buckets, bloomBv, Items(st), h
      ensures Valid() && st == UtHashModel.Replace(old(st), h)
      ensures replaced == UtHashModel.Find(old(st), h.key, hash(h.key))
      ensures Items(st) != [] && Items(st)[|Items(st)| - 1] == h
      ensures replaced == null ==> Items(st)[..|Items(st)| - 1] == old(Items(st))
      ensures replaced != null ==> TakenOut(Items(st)[..|Items(st)| - 1], old(Items(st)), replaced)
      ensures (buckets == old(buckets) || fresh(buckets)) && (bloomBv == old(bloomBv) || fresh(bloomBv))
    {
      hide Distinct, Placed, Inv, AppOk, BktOk, BloomOk, UtHashModel.Add, UtHashModel.Delete, Without, FindIn, TakenOut;
      ReplaceMovesToEnd(st, h, hash);
      ghost var items := Items(st);
      replaced := Find(h.key, h.hashv);
      FindIsComplete(st, h.key, hash);
      if replaced != null {
        DeleteLeavesOthers(st, replaced, h, hash);
        Delete(replaced);
        assert forall x | x in Items(st) :: x in items;
      }
      Add(h);
    }

    /** `HASH_SRT` (src/include/uthash.h:877-959). */
    method Sort(cmp: (Handle, Handle) -> int)
      requires Valid()
      modifies `head, `tail, `st, Items(st)`prev, Items(st)`next
      ensures Valid() && st == SortTable(old(st), cmp)
      ensures multiset(Items(st)) == multiset(old(Items(st)))
      ensures TotalPreorder(cmp, Elements(old(Items(st)))) ==> StablySorted(cmp, Items(st), old(Items(st)))
    {
      hide StablySorted, TotalPreorder, UtHashSort.Sort;
      SortSorts(st, cmp);
      if head != null {
        hide Placed, BktOk, BloomOk, AppLinked;
        SortKeepsInv(st, cmp, hash);
        var list, last := SortApp(cmp);
        InstallOrder(list, last, cmp);
      }
    }

    /** Sorting the application-order links touches no chain and no Bloom bit. */
    method SortApp(cmp: (Handle, Handle) -> int) returns (list: Handle?, last: Handle?)
      requires st.Table? && head != null && AppOk(st.app) && Distinct(st.app)
      modifies Items(st)`prev, Items(st)`next
      ensures var r := UtHashSort.Sort(cmp, st.app);
              r != [] && AppLinked(r) && list == r[0] && last == r[|r| - 1]
      ensures old(BktOk(st)) ==> BktOk(st)
      ensures old(BloomOk(st.app)) ==> BloomOk(st.app)
    {
      hide Distinct, UtHashSort.Sort, IsSet;
      list, last := SortLinks(cmp, head, st.app);
    }

    /** The end of the sort (src/include/uthash.h:952-953). */
    method InstallOrder(list: Handle?, last: Handle?, cmp: (Handle, Handle) -> int)
      requires BktOk(st) && BloomOk(st.app) && Inv(SortTable(st, cmp), hash)
      requires var r := UtHashSort.Sort(cmp, st.app);
               r != [] && AppLinked(r) && list == r[0] && last == r[|r| - 1]
      modifies `head, `tail, `st
      ensures Valid() && st == SortTable(old(st), cmp)
    {
      hide Distinct, Placed, UtHashSort.Sort, IsSet;
      SortedFacts(st.app, cmp);
      head, tail := list, last;
      st := SortTable(st, cmp);
    }
  }

  lemma SortedFacts(app: seq<Handle>, cmp: (Handle, Handle) -> int)
    ensures var r := UtHashSort.Sort(cmp, app);
            Elements(r) == Elements(app) && forall i | 0 <= i < |r| :: r[i] in app
  {
    var r := UtHashSort.Sort(cmp, app);
    SortPermutes(cmp, app);
    SameMembers(app, r);
    SameMembers(r, app);
  }

  lemma OrderAfterAdd(t: Table, h: Handle, cmp: (Handle, Handle) -> int, hash: Key -> nat)
    requires Inv(t, hash)
    ensures t.Table? ==> 0 < |t.chains| == |t.mult|
    ensures var r := Items(UtHashModel.AddInOrder(t, h, cmp));
            && PutInOrder(r, Items(t), h, cmp)
            && (TotalPreorder(cmp, Elements(Items(t)) + {h}) && Sorted(cmp, Items(t)) ==>
                  && Sorted(cmp, r) && multiset(r) == multiset(Items(t)) + multiset{h}
                  && Ties(cmp, h, r) == Ties(cmp, h, Items(t)) + [h])
  {
    hide TotalPreorder, Sorted, Ties, PutInOrder, UtHashModel.AddInOrder;
    TableSizes(t, hash);
    AddInOrderPlaces(t, h, cmp);
    var d := Elements(Items(t)) + {h};
    if TotalPreorder(cmp, d) && Sorted(cmp, Items(t)) {
      AddInOrderKeepsOrder(t, h, cmp, d);
    }
  }

  lemma DeleteLeavesOthers(t: Table, h: Handle, x: Handle, hash: Key -> nat)
    requires t.Table? && Inv(t, hash) && h in t.app
    ensures x !in t.app ==> x !in Items(UtHashModel.Delete(t, h))
    ensures forall i | 0 <= i < |Items(UtHashModel.Delete(t, h))| :: Items(UtHashModel.Delete(t, h))[i] in t.app
  {
    DeleteKeepsInv(t, h, hash);
    WithoutIn(t.app, h);
  }

  lemma InsertionFacts(st: Table, h: Handle, app: seq<Handle>, hash: Key -> nat)
    requires Inv(st, hash) && h !in Items(st) && h.hashv == hash(h.key) && IsInsertion(app, Items(st), h)
    ensures var t := if st.NoTable? then EmptyTable() else st;
            && Placed(t.chains, Items(st)) && h in app && |app| == |t.app| + 1 && Elements(t.app) <= Elements(app)
            && Inv(t.(app := app, chains := PushFront(t.chains, h)), hash)
    ensures forall i | 0 <= i < |app| :: app[i] == h || app[i] in Items(st)
    ensures st.Table? ==> 0 < |st.chains| == |st.mult|
  {
    hide Placed, Distinct, IsInsertion;
    PushKeepsInv(st, h, app, hash);
    EmptyTableIsPlaced();
    InsertionMembers(app, Items(st), h);
    InsertionHolds(app, Items(st), h);
  }

  lemma InsertionHolds(app: seq<Handle>, items: seq<Handle>, h: Handle)
    requires IsInsertion(app, items, h)
    ensures h in app && |app| == |items| + 1 && Elements(items) <= Elements(app)
  {
    var i :| 0 <= i <= |items| && app == InsertAt(items, i, h);
    InsertionAt(app, items, i, h);
  }

  lemma AppendInserts(items: seq<Handle>, h: Handle)
    ensures IsInsertion(items + [h], items, h)
    ensures items == [] ==> items + [h] == [h]
  {
    assert items + [h] == InsertAt(items, |items|, h);
  }

  lemma InsertInOrderInserts(cmp: (Handle, Handle) -> int, items: seq<Handle>, h: Handle)
    ensures var i := InsertionPoint(cmp, items, h);
            InsertInOrder(cmp, items, h) == InsertAt(items, i, h) && (i == |items| ==> InsertAt(items, i, h) == items + [h])
    ensures IsInsertion(InsertInOrder(cmp, items, h), items, h)
    ensures items == [] ==> InsertInOrder(cmp, items, h) == [h]
  {
    var i := InsertionPoint(cmp, items, h);
    assert InsertInOrder(cmp, items, h) == InsertAt(items, i, h);
  }

  ghost function PositionOf(s: seq<Handle>, h: Handle): (k: nat)
    requires h in s
    ensures k < |s| && s[k] == h
  {
    if s[0] == h then 0 else 1 + PositionOf(s[1..], h)
  }

  lemma DeleteFacts(t: Table, h: Handle, k: nat, hash: Key -> nat)
    requires t.Table? && Inv(t, hash) && k < |t.app| && t.app[k] == h
    ensures Distinct(t.app) && Without(t.app, h) == t.app[..k] + t.app[k + 1..]
    ensures |t.chains| > 0 && (|t.app| == 1 ==> UtHashModel.Delete(t, h) == NoTable)
    ensures |t.app| > 1 ==> UtHashModel.Delete(t, h).Table? && UtHashModel.Delete(t, h).app == Without(t.app, h)
    ensures Elements(Without(t.app, h)) <= Elements(t.app)
  {
    WithoutIs(t.app, k);
  }

  lemma DelFacts(t: Table, h: Handle, b: nat, hash: Key -> nat) returns (j: nat)
    requires t.Table? && Inv(t, hash) && h in t.app && b == ToBkt(h.hashv, |t.chains|) && |t.app| > 1
    ensures j < |t.chains[b]| && t.chains[b][j] == h && Distinct(t.chains[b])
    ensures forall c, i | 0 <= c < |t.chains| && c != b && 0 <= i < |t.chains[c]| :: t.chains[c][i] !in t.chains[b]
    ensures var r := t.chains[b := t.chains[b][..j] + t.chains[b][j + 1..]];
            UtHashModel.Delete(t, h) == t.(app := Without(t.app, h), chains := r) &&
            ChainsWithin(r, Elements(Without(t.app, h)))
    ensures |Without(t.app, h)| == |t.app| - 1
    ensures forall i | 0 <= i < |Without(t.app, h)| :: Without(t.app, h)[i] in t.app
  {
    assert ChainOk(t.chains[b], b, |t.chains|, t.app);
    assert h in t.chains[b];
    j := PositionOf(t.chains[b], h);
    WithoutIs(t.chains[b], j);
    WithoutIn(t.app, h);
    DeletePlaces(t.chains, t.app, h);
    var r := UtHashModel.Delete(t, h).chains;
    forall c | 0 <= c < |t.chains|
      ensures c != b ==> forall i | 0 <= i < |t.chains[c]| :: t.chains[c][i] !in t.chains[b]
      ensures Within(r[c], Elements(Without(t.app, h)))
    {
      assert ChainOk(t.chains[c], c, |t.chains|, t.app);
      assert ChainOk(r[c], c, |r|, Without(t.app, h));
    }
  }

  /** `h` is in no chain, and no two chains share a handle. */
  lemma BucketsApart(chains: Chains, items: seq<Handle>, h: Handle, b: nat)
    requires b < |chains| && Placed(chains, items) && h !in items
    ensures forall c | 0 <= c < |chains| :: h !in chains[c]
    ensures forall c, i | 0 <= c < |chains| && c != b && 0 <= i < |chains[c]| :: chains[c][i] !in chains[b]
    ensures Distinct(chains[b])
  {
    assert ChainOk(chains[b], b, |chains|, items);
    forall c | 0 <= c < |chains|
      ensures h !in chains[c]
      ensures c != b ==> forall i | 0 <= i < |chains[c]| :: chains[c][i] !in chains[b]
    {
      assert ChainOk(chains[c], c, |chains|, items);
    }
  }

  // ---- whole runs on the heap ----

  /** The handle that an operation brings into the table. */
  ghost function Added(op: Op): set<Handle> {
    match op
    case AddOp(h) => {h}
    case AddInOrderOp(h, _) => {h}
    case ReplaceOp(h) => {h}
    case _ => {}
  }

  ghost function AllAdded(ops: seq<Op>): set<Handle> {
    set i, h | 0 <= i < |ops| && h in Added(ops[i]) :: h
  }

  /** What is in the table after an operation was there before or came with it. */
  lemma ItemsAfter(t: Table, op: Op, hash: Key -> nat)
    requires Inv(t, hash) && Legal(t, op, hash)
    ensures Elements(Items(Apply(t, op, hash))) <= Elements(Items(t)) + Added(op)
  {
    hide Inv, Placed, Distinct, AddAs, Delete, UtHashSort.Sort, Find, KeysUnique, AsMap, HasKey, IsInsertion, InsertionPoint;
    match op {
      case AddOp(h) =>
        AppendInserts(Items(t), h);
        ItemsAfterAdd(t, h, Items(t) + [h], hash);
      case AddInOrderOp(h, cmp) =>
        InsertInOrderInserts(cmp, Items(t), h);
        ItemsAfterAdd(t, h, InsertInOrder(cmp, Items(t), h), hash);
      case ReplaceOp(h) =>
        var t1 := FoundLeaves(t, h, hash);
        ItemsAfterReplace(t, t1, h, hash);
      case DeleteOp(h) => DeleteStep(t, h, hash);
      case SortOp(cmp) =>
        if t.Table? {
          SortedFacts(t.app, cmp);
        }
    }
  }

  lemma ItemsAfterAdd(t: Table, h: Handle, app: seq<Handle>, hash: Key -> nat)
    requires Inv(t, hash) && Legal(t, AddOp(h), hash) && IsInsertion(app, Items(t), h)
    ensures AddAs(t, h, app).app == app && Elements(app) <= Elements(Items(t)) + {h}
  {
    AddKeepsInv(t, h, app, hash);
    InsertionFacts(t, h, app, hash);
  }

  lemma ItemsAfterReplace(t: Table, t1: Table, h: Handle, hash: Key -> nat)
    requires Inv(t1, hash) && Legal(t1, AddOp(h), hash) && Elements(Items(t1)) <= Elements(Items(t))
    ensures Elements(Items(UtHashModel.Add(t1, h))) <= Elements(Items(t)) + {h}
  {
    hide Inv, AddAs;
    AppendInserts(Items(t1), h);
    ItemsAfterAdd(t1, h, Items(t1) + [h], hash);
  }

  /** One operation of a run. */
  method Perform(t: UtHash, op: Op)
    requires t.Valid() && Legal(t.st, op, t.hash)
    modifies t, t.buckets, t.bloomBv, Items(t.st), Added(op)
    ensures t.Valid() && t.st == Apply(old(t.st), op, t.hash)
    ensures (t.buckets == old(t.buckets) || fresh(t.buckets)) && (t.bloomBv == old(t.bloomBv) || fresh(t.bloomBv))
  {
    hide Inv, UtHash.AppOk, UtHash.BktOk, UtHash.BloomOk;
    match op {
      case AddOp(h) => t.Add(h);
      case AddInOrderOp(h, cmp) => t.AddInOrder(h, cmp);
      case ReplaceOp(h) => var replaced := t.Replace(h);
      case DeleteOp(h) => t.Delete(h);
      case SortOp(cmp) => t.Sort(cmp);
    }
  }

  /** The check at the end of every operation (src/include/uthash.h:299, 335, 397, 957). */
  method Check(t: UtHash) returns (ok: bool)
    requires t.Valid()
    ensures ok
  {
    hide Inv, UtHash.BktOk, UtHash.BloomOk, UtHash.Walkable, UtHash.Sound;
    ghost var chains, app := [], [];
    if t.head != null {
      t.ValidIsSound();
      chains, app := t.st.chains, t.st.app;
    }
    ok := t.Fsck(chains, app, Elements(app));
  }

  /**
  Any run of operations on one table, with the integrity check after each (src/include/uthash.h:299, 335, 397, 957): the links,
  counters, `tail` and buckets stay right throughout, no check finds a fault, and the table ends as the model's run does.
  */
  method RunOps(t: UtHash, ops: seq<Op>) returns (ok: bool)
    requires t.Valid() && LegalRun(t.st, ops, t.hash)
    modifies t, t.buckets, t.bloomBv, Items(t.st), AllAdded(ops)
    ensures t.Valid() && t.st == Run(old(t.st), ops, t.hash)
    ensures ok
  {
    hide Apply, Legal, UtHash.AppOk, UtHash.BktOk, UtHash.BloomOk, Inv;
    ok := true;
    var i := 0;
    assert ops[0..] == ops;
    while i < |ops|
      invariant i <= |ops| && ok && t.Valid() && LegalRun(t.st, ops[i..], t.hash)
      invariant Run(t.st, ops[i..], t.hash) == Run(old(t.st), ops, t.hash)
      invariant forall k :: 0 <= k < |Items(t.st)| ==> Items(t.st)[k] in old(Items(t.st)) || Items(t.st)[k] in AllAdded(ops)
      invariant t.buckets == old(t.buckets) || fresh(t.buckets)
      invariant t.bloomBv == old(t.bloomBv) || fresh(t.bloomBv)
    {
      assert ops[i..][0] == ops[i] && ops[i..][1..] == ops[i + 1..];
      assert Added(ops[i]) <= AllAdded(ops);
      ghost var before := t.st;
      ItemsAfter(before, ops[i], t.hash);
      Perform(t, ops[i]);
      assert forall h | h in Elements(Items(t.st)) :: h in Items(before) || h in Added(ops[i]);
      var sound := Check(t);
      ok := ok && sound;
      i := i + 1;
    }
  }
}
