/**
 * The aggregated path: classify the targets, scan the matching postings once
 * keeping one store per distinct group key, then finalise each group into a row.
 */
module GroupPath {
  import opened Wrappers
  import opened Sequences
  import opened QueryPlan
  import opened Allocation
  import opened Projection
  import opened PostingScan

  // ---------------------------------------------------------------------------
  // Classification of the targets

  /** The group-key targets (those whose position is in `groups`), in target order. */
  function KeyTargets<P, A, V>(targets: seq<Target<P, A, V>>, groups: set<nat>): seq<Target<P, A, V>> {
    if targets == [] then []
    else
      var n := |targets| - 1;
      KeyTargets(targets[..n], groups) + if n in groups then [targets[n]] else []
  }

  /** The aggregate sub-expressions of the other targets, target by target. */
  function AggregatesOf<P, A, V>(targets: seq<Target<P, A, V>>, groups: set<nat>): seq<Aggregate<P, A>> {
    if targets == [] then []
    else
      var n := |targets| - 1;
      AggregatesOf(targets[..n], groups) + if n in groups then [] else targets[n].aggregates
  }

  /** How many group-key targets come before position `i`: the index of its value in a key. */
  function Rank<P, A, V>(targets: seq<Target<P, A, V>>, groups: set<nat>, i: nat): nat
    requires i <= |targets|
  {
    |KeyTargets(targets[..i], groups)|
  }

  lemma RankStep<P, A, V>(targets: seq<Target<P, A, V>>, groups: set<nat>, i: nat)
    requires i < |targets|
    ensures Rank(targets, groups, i + 1) == Rank(targets, groups, i) + if i in groups then 1 else 0
  {
    assert targets[..i + 1][..i] == targets[..i];
  }

  /**
   * A group-key target at position `i` is the key expression at index `Rank(i)`:
   * the key tuple lists the group-key values in target order.
   */
  lemma {:induction false} KeyTargetsAt<P, A, V>(targets: seq<Target<P, A, V>>, groups: set<nat>, i: nat)
    requires i < |targets| && i in groups
    ensures Rank(targets, groups, i) < |KeyTargets(targets, groups)|
    ensures KeyTargets(targets, groups)[Rank(targets, groups, i)] == targets[i]
  {
    var n := |targets| - 1;
    if i == n {
      assert targets[..i] == targets[..n];
    } else {
      assert targets[..n][..i] == targets[..i];
      KeyTargetsAt(targets[..n], groups, i);
    }
  }

  /** Ranks of group-key positions strictly increase, so the key is consumed in order. */
  lemma {:induction false} RankMonotone<P, A, V>(targets: seq<Target<P, A, V>>, groups: set<nat>, i: nat, k: nat)
    requires i < k <= |targets| && i in groups
    ensures Rank(targets, groups, i) < Rank(targets, groups, k)
    decreases k - i
  {
    RankStep(targets, groups, i);
    if i + 1 < k {
      RankLeq(targets, groups, i + 1, k);
    }
  }

  lemma {:induction false} RankLeq<P, A, V>(targets: seq<Target<P, A, V>>, groups: set<nat>, i: nat, k: nat)
    requires i <= k <= |targets|
    ensures Rank(targets, groups, i) <= Rank(targets, groups, k)
    decreases k - i
  {
    if i < k {
      RankStep(targets, groups, i);
      RankLeq(targets, groups, i + 1, k);
    }
  }

  /** The classification loop: key expressions for group-key targets, aggregates from the others. */
  method Classify<P, A, V>(targets: seq<Target<P, A, V>>, groups: set<nat>)
    returns (keyExprs: seq<Target<P, A, V>>, aggregates: seq<Aggregate<P, A>>)
    ensures keyExprs == KeyTargets(targets, groups)
    ensures aggregates == AggregatesOf(targets, groups)
  {
    keyExprs, aggregates := [], [];
    for i := 0 to |targets|
      invariant keyExprs == KeyTargets(targets[..i], groups)
      invariant aggregates == AggregatesOf(targets[..i], groups)
    {
      assert targets[..i + 1][..i] == targets[..i];
      if i in groups {
        keyExprs := keyExprs + [targets[i]];
      } else {
        aggregates := aggregates + targets[i].aggregates;
      }
    }
    assert targets[..|targets|] == targets;
  }

  /** `tuple(c_expr(posting) for c_expr in c_nonaggregate_exprs)` */
  function Key<P, A, V>(keyExprs: seq<Target<P, A, V>>, p: P): seq<V> {
    seq(|keyExprs|, k requires 0 <= k < |keyExprs| => keyExprs[k].eval(p))
  }

  // ---------------------------------------------------------------------------
  // Stores

  /** Handles that index a store of `n` slots, no two aggregates sharing one. */
  predicate ValidHandles(handles: seq<nat>, n: nat) {
    (forall i :: 0 <= i < |handles| ==> handles[i] < n) && Distinct(handles)
  }

  /** The store after every aggregate's `initialize`, in turn. */
  function Initialized<P, A>(aggregates: seq<Aggregate<P, A>>, handles: seq<nat>, store: seq<Option<A>>): (r: seq<Option<A>>)
    requires |handles| == |aggregates| && forall i :: 0 <= i < |handles| ==> handles[i] < |store|
    ensures |r| == |store|
  {
    if aggregates == [] then store
    else
      var n := |aggregates| - 1;
      Initialized(aggregates[..n], handles[..n], store)[handles[n] := Some(aggregates[n].initial)]
  }

  /** The store after every aggregate's `update` with posting `p`, in turn. */
  function Updated<P, A>(aggregates: seq<Aggregate<P, A>>, handles: seq<nat>, store: seq<Option<A>>, p: P): (r: seq<Option<A>>)
    requires |handles| == |aggregates| && forall i :: 0 <= i < |handles| ==> handles[i] < |store|
    ensures |r| == |store|
  {
    if aggregates == [] then store
    else
      var n := |aggregates| - 1;
      var s := Updated(aggregates[..n], handles[..n], store, p);
      s[handles[n] := Some(aggregates[n].update(s[handles[n]], p))]
  }

  /** After initialisation each aggregate's slot holds its initial value; slots no aggregate owns are untouched. */
  lemma {:induction false} InitializedAt<P, A>(aggregates: seq<Aggregate<P, A>>, handles: seq<nat>, store: seq<Option<A>>)
    requires |handles| == |aggregates| && ValidHandles(handles, |store|)
    ensures forall i :: 0 <= i < |aggregates| ==> Initialized(aggregates, handles, store)[handles[i]] == Some(aggregates[i].initial)
    ensures forall h :: 0 <= h < |store| && h !in handles ==> Initialized(aggregates, handles, store)[h] == store[h]
  {
    if aggregates != [] {
      var n := |aggregates| - 1;
      InitializedAt(aggregates[..n], handles[..n], store);
      assert forall i :: 0 <= i < n ==> handles[..n][i] == handles[i] != handles[n];
    }
  }

  /**
   * After an update each aggregate's slot holds its update of the slot's previous
   * content with the posting; slots no aggregate owns are untouched.
   */
  lemma {:induction false} UpdatedAt<P, A>(aggregates: seq<Aggregate<P, A>>, handles: seq<nat>, store: seq<Option<A>>, p: P)
    requires |handles| == |aggregates| && ValidHandles(handles, |store|)
    ensures forall i :: 0 <= i < |aggregates| ==> Updated(aggregates, handles, store, p)[handles[i]] == Some(aggregates[i].update(store[handles[i]], p))
    ensures forall h :: 0 <= h < |store| && h !in handles ==> Updated(aggregates, handles, store, p)[h] == store[h]
  {
    if aggregates != [] {
      var n := |aggregates| - 1;
      UpdatedAt(aggregates[..n], handles[..n], store, p);
      assert forall i :: 0 <= i < n ==> handles[..n][i] == handles[i] != handles[n];
      assert handles[n] !in handles[..n];
    }
  }

  /** `for c_expr in c_aggregate_exprs: c_expr.initialize(store)` */
  method InitializeStore<P, A>(aggregates: seq<Aggregate<P, A>>, handles: seq<nat>, store: seq<Option<A>>)
    returns (r: seq<Option<A>>)
    requires |handles| == |aggregates| && forall i :: 0 <= i < |handles| ==> handles[i] < |store|
    ensures r == Initialized(aggregates, handles, store)
  {
    r := store;
    for i := 0 to |aggregates|
      invariant r == Initialized(aggregates[..i], handles[..i], store)
    {
      assert aggregates[..i + 1][..i] == aggregates[..i];
      assert handles[..i + 1][..i] == handles[..i];
      r := r[handles[i] := Some(aggregates[i].initial)];
    }
    assert aggregates[..|aggregates|] == aggregates;
    assert handles[..|handles|] == handles;
  }

  /** `for c_expr in c_aggregate_exprs: c_expr.update(store, posting)` */
  method UpdateStore<P, A>(aggregates: seq<Aggregate<P, A>>, handles: seq<nat>, store: seq<Option<A>>, p: P)
    returns (r: seq<Option<A>>)
    requires |handles| == |aggregates| && forall i :: 0 <= i < |handles| ==> handles[i] < |store|
    ensures r == Updated(aggregates, handles, store, p)
  {
    r := store;
    for i := 0 to |aggregates|
      invariant r == Updated(aggregates[..i], handles[..i], store, p)
    {
      assert aggregates[..i + 1][..i] == aggregates[..i];
      assert handles[..i + 1][..i] == handles[..i];
      r := r[handles[i] := Some(aggregates[i].update(r[handles[i]], p))];
    }
    assert aggregates[..|aggregates|] == aggregates;
    assert handles[..|handles|] == handles;
  }

  // ---------------------------------------------------------------------------
  // The scan

  /** The dictionary from key tuple to store, with its keys in insertion order. */
  datatype Groups<V(==), A> = Groups(keys: seq<seq<V>>, stores: map<seq<V>, seq<Option<A>>>)

  /** Every store of `g` has `size` slots. */
  predicate Sized<V(==), A>(g: Groups<V, A>, size: nat) {
    forall k :: k in g.stores ==> |g.stores[k]| == size
  }

  /**
   * One posting of the scan: when its key is new, a store is created, initialised
   * and inserted and the key is appended; then the store of its key is updated.
   */
  function Absorb<P, A, V(==)>(keyExprs: seq<Target<P, A, V>>, aggregates: seq<Aggregate<P, A>>, handles: seq<nat>,
                              size: nat, g: Groups<V, A>, p: P): (r: Groups<V, A>)
    requires |handles| == |aggregates| && ValidHandles(handles, size) && Sized(g, size)
    ensures Sized(r, size)
  {
    var k := Key(keyExprs, p);
    if k in g.stores then
      Groups(g.keys, g.stores[k := Updated(aggregates, handles, g.stores[k], p)])
    else
      var created := Initialized(aggregates, handles, EmptyStore(size));
      Groups(g.keys + [k], g.stores[k := Updated(aggregates, handles, created, p)])
  }

  /** The groups after scanning `ps`. */
  function GroupScan<P, A, V(==)>(keyExprs: seq<Target<P, A, V>>, aggregates: seq<Aggregate<P, A>>, handles: seq<nat>,
                                 size: nat, ps: seq<P>): (r: Groups<V, A>)
    requires |handles| == |aggregates| && ValidHandles(handles, size)
    ensures Sized(r, size)
  {
    if ps == [] then Groups([], map[])
    else
      var n := |ps| - 1;
      Absorb(keyExprs, aggregates, handles, size, GroupScan(keyExprs, aggregates, handles, size, ps[..n]), ps[n])
  }

  /** The key tuple of every posting, in order. */
  function KeysOf<P, A, V>(keyExprs: seq<Target<P, A, V>>, ps: seq<P>): (r: seq<seq<V>>)
    ensures |r| == |ps|
  {
    if ps == [] then [] else var n := |ps| - 1; KeysOf(keyExprs, ps[..n]) + [Key(keyExprs, ps[n])]
  }

  lemma {:induction false} KeysOfAt<P, A, V>(keyExprs: seq<Target<P, A, V>>, ps: seq<P>, m: nat)
    requires m < |ps|
    ensures KeysOf(keyExprs, ps)[m] == Key(keyExprs, ps[m])
  {
    var n := |ps| - 1;
    if m < n {
      KeysOfAt(keyExprs, ps[..n], m);
    }
  }

  /** The postings of the group with key `k`, in scan order. */
  function GroupOf<P, A, V(==)>(keyExprs: seq<Target<P, A, V>>, k: seq<V>, ps: seq<P>): seq<P> {
    if ps == [] then []
    else
      var n := |ps| - 1;
      GroupOf(keyExprs, k, ps[..n]) + if Key(keyExprs, ps[n]) == k then [ps[n]] else []
  }

  /** An aggregate initialised once and then updated with each of `ps`, in order. */
  function Fold<P, A>(a: Aggregate<P, A>, ps: seq<P>): A {
    if ps == [] then a.initial else var n := |ps| - 1; a.update(Some(Fold(a, ps[..n])), ps[n])
  }

  /** The store a group holds when it has seen exactly the postings `group`. */
  ghost predicate StoreOf<P, A>(aggregates: seq<Aggregate<P, A>>, handles: seq<nat>, size: nat, store: seq<Option<A>>, group: seq<P>) {
    && |handles| == |aggregates|
    && ValidHandles(handles, size)
    && |store| == size
    && (forall i :: 0 <= i < |aggregates| ==> store[handles[i]] == Some(Fold(aggregates[i], group)))
    && (forall h :: 0 <= h < size && h !in handles ==> store[h] == None)
  }

  /** Scanning one more posting extends its own group and no other. */
  lemma GroupOfSnoc<P, A, V>(keyExprs: seq<Target<P, A, V>>, k: seq<V>, ps: seq<P>, p: P)
    ensures GroupOf(keyExprs, k, ps + [p]) == GroupOf(keyExprs, k, ps) + if Key(keyExprs, p) == k then [p] else []
  {
    assert (ps + [p])[..|ps|] == ps;
  }

  /** Every posting of the group with key `k` has key `k`, and comes from `ps`. */
  lemma {:induction false} GroupOfMembers<P, A, V>(keyExprs: seq<Target<P, A, V>>, k: seq<V>, ps: seq<P>)
    ensures |GroupOf(keyExprs, k, ps)| <= |ps|
    ensures forall m :: 0 <= m < |GroupOf(keyExprs, k, ps)| ==>
      Key(keyExprs, GroupOf(keyExprs, k, ps)[m]) == k && GroupOf(keyExprs, k, ps)[m] in ps
  {
    if ps != [] {
      var n := |ps| - 1;
      GroupOfMembers(keyExprs, k, ps[..n]);
      assert ps == ps[..n] + [ps[n]];
    }
  }

  /** A key has postings exactly when some scanned posting produced it. */
  lemma {:induction false} GroupOfEmpty<P, A, V>(keyExprs: seq<Target<P, A, V>>, k: seq<V>, ps: seq<P>)
    ensures GroupOf(keyExprs, k, ps) == [] <==> k !in KeysOf(keyExprs, ps)
  {
    if ps != [] {
      var n := |ps| - 1;
      GroupOfEmpty(keyExprs, k, ps[..n]);
    }
  }

  /**
   * The keys of the scan are the distinct key tuples of the postings, in order of
   * first sight, and exactly those keys have a store.
   */
  lemma {:induction false} GroupScanKeys<P, A, V>(keyExprs: seq<Target<P, A, V>>, aggregates: seq<Aggregate<P, A>>,
                                                handles: seq<nat>, size: nat, ps: seq<P>)
    requires |handles| == |aggregates| && ValidHandles(handles, size)
    ensures var g := GroupScan(keyExprs, aggregates, handles, size, ps);
      && g.keys == Dedup(KeysOf(keyExprs, ps))
      && (forall k :: k in g.stores <==> k in g.keys)
  {
    if ps != [] {
      var n := |ps| - 1;
      GroupScanKeys(keyExprs, aggregates, handles, size, ps[..n]);
      DedupSpec(KeysOf(keyExprs, ps[..n]));
    }
  }

  lemma GroupScanSnoc<P, A, V>(keyExprs: seq<Target<P, A, V>>, aggregates: seq<Aggregate<P, A>>,
                              handles: seq<nat>, size: nat, ps: seq<P>, p: P)
    requires |handles| == |aggregates| && ValidHandles(handles, size)
    ensures GroupScan(keyExprs, aggregates, handles, size, ps + [p])
         == Absorb(keyExprs, aggregates, handles, size, GroupScan(keyExprs, aggregates, handles, size, ps), p)
  {
    assert (ps + [p])[..|ps|] == ps;
  }

  /**
   * One step of the scan: a store is created only for a key seen for the first
   * time, and only the posting's own store changes.
   */
  lemma AbsorbSpec<P, A, V>(keyExprs: seq<Target<P, A, V>>, aggregates: seq<Aggregate<P, A>>,
                           handles: seq<nat>, size: nat, g: Groups<V, A>, p: P)
    requires |handles| == |aggregates| && ValidHandles(handles, size) && Sized(g, size)
    ensures var g' := Absorb(keyExprs, aggregates, handles, size, g, p);
      var k := Key(keyExprs, p);
      && g'.stores.Keys == g.stores.Keys + {k}
      && (forall k' :: k' in g.stores && k' != k ==> g'.stores[k'] == g.stores[k'])
      && g'.stores[k] == Updated(aggregates, handles, if k in g.stores then g.stores[k] else Initialized(aggregates, handles, EmptyStore(size)), p)
      && g'.keys == if k in g.stores then g.keys else g.keys + [k]
  {
  }

  /** A created and initialised store is the store of a group that has seen no posting. */
  lemma CreatedStore<P, A>(aggregates: seq<Aggregate<P, A>>, handles: seq<nat>, size: nat)
    requires |handles| == |aggregates| && ValidHandles(handles, size)
    ensures StoreOf(aggregates, handles, size, Initialized(aggregates, handles, EmptyStore(size)), [])
  {
    var e: seq<Option<A>> := EmptyStore(size);
    InitializedAt(aggregates, handles, e);
  }

  /** Updating the store of a group with one more posting gives the store of the extended group. */
  lemma UpdatedStore<P, A>(aggregates: seq<Aggregate<P, A>>, handles: seq<nat>, size: nat,
                          store: seq<Option<A>>, group: seq<P>, p: P)
    requires StoreOf(aggregates, handles, size, store, group)
    ensures StoreOf(aggregates, handles, size, Updated(aggregates, handles, store, p), group + [p])
  {
    UpdatedAt(aggregates, handles, store, p);
    assert (group + [p])[..|group|] == group;
  }

  /** One scan step keeps each store equal to the fold of its group. */
  lemma StoreAfterAbsorb<P, A, V>(keyExprs: seq<Target<P, A, V>>, aggregates: seq<Aggregate<P, A>>,
                                 handles: seq<nat>, size: nat, g: Groups<V, A>, ps: seq<P>, p: P, k: seq<V>)
    requires |handles| == |aggregates| && ValidHandles(handles, size) && Sized(g, size)
    requires k in Absorb(keyExprs, aggregates, handles, size, g, p).stores
    requires k in g.stores ==> GroupOf(keyExprs, k, ps) != [] && StoreOf(aggregates, handles, size, g.stores[k], GroupOf(keyExprs, k, ps))
    requires k !in g.stores ==> GroupOf(keyExprs, k, ps) == []
    ensures GroupOf(keyExprs, k, ps + [p]) != []
    ensures StoreOf(aggregates, handles, size, Absorb(keyExprs, aggregates, handles, size, g, p).stores[k], GroupOf(keyExprs, k, ps + [p]))
  {
    GroupOfSnoc(keyExprs, k, ps, p);
    var g' := Absorb(keyExprs, aggregates, handles, size, g, p);
    var own := Key(keyExprs, p);
    if k == own {
      var prev := if k in g.stores then g.stores[k] else Initialized(aggregates, handles, EmptyStore(size));
      assert g'.stores[k] == Updated(aggregates, handles, prev, p);
      assert GroupOf(keyExprs, k, ps + [p]) == GroupOf(keyExprs, k, ps) + [p];
      if k in g.stores {
        UpdatedStore(aggregates, handles, size, g.stores[k], GroupOf(keyExprs, k, ps), p);
      } else {
        CreatedStore(aggregates, handles, size);
        UpdatedStore(aggregates, handles, size, prev, [], p);
      }
    } else {
      assert GroupOf(keyExprs, k, ps + [p]) == GroupOf(keyExprs, k, ps) + [];
      assert GroupOf(keyExprs, k, ps) + [] == GroupOf(keyExprs, k, ps);
      assert k in g.stores && g'.stores[k] == g.stores[k];
    }
  }

  /**
   * The store of key `k` is every aggregate initialised once and then updated with
   * exactly the postings whose key is `k`, in scan order: no posting is dropped,
   * none reaches another group's store, none is counted twice.
   */
  lemma {:induction false} GroupScanStores<P, A, V>(keyExprs: seq<Target<P, A, V>>, aggregates: seq<Aggregate<P, A>>,
                                                  handles: seq<nat>, size: nat, ps: seq<P>)
    requires |handles| == |aggregates| && ValidHandles(handles, size)
    ensures var g := GroupScan(keyExprs, aggregates, handles, size, ps);
      forall k :: k in g.stores ==> GroupOf(keyExprs, k, ps) != [] && StoreOf(aggregates, handles, size, g.stores[k], GroupOf(keyExprs, k, ps))
  {
    if ps != [] {
      var n := |ps| - 1;
      var init, p := ps[..n], ps[n];
      assert ps == init + [p];
      var g0 := GroupScan(keyExprs, aggregates, handles, size, init);
      GroupScanStores(keyExprs, aggregates, handles, size, init);
      GroupScanSnoc(keyExprs, aggregates, handles, size, init, p);
      GroupScanKeys(keyExprs, aggregates, handles, size, init);
      DedupSpec(KeysOf(keyExprs, init));
      forall k | k in Absorb(keyExprs, aggregates, handles, size, g0, p).stores
        ensures GroupOf(keyExprs, k, ps) != []
        ensures StoreOf(aggregates, handles, size, Absorb(keyExprs, aggregates, handles, size, g0, p).stores[k], GroupOf(keyExprs, k, ps))
      {
        GroupOfEmpty(keyExprs, k, init);
        StoreAfterAbsorb(keyExprs, aggregates, handles, size, g0, init, p, k);
      }
    }
  }

  /** There are never more groups than postings scanned. */
  lemma GroupCount<P, A, V>(keyExprs: seq<Target<P, A, V>>, aggregates: seq<Aggregate<P, A>>,
                               handles: seq<nat>, size: nat, ps: seq<P>)
    requires |handles| == |aggregates| && ValidHandles(handles, size)
    ensures |GroupScan(keyExprs, aggregates, handles, size, ps).keys| <= |ps|
  {
    GroupScanKeys(keyExprs, aggregates, handles, size, ps);
    DedupSpec(KeysOf(keyExprs, ps));
  }

  /** Every key tuple has one value per key expression. */
  lemma KeysLength<P, A, V>(keyExprs: seq<Target<P, A, V>>, aggregates: seq<Aggregate<P, A>>,
                           handles: seq<nat>, size: nat, ps: seq<P>)
    requires |handles| == |aggregates| && ValidHandles(handles, size)
    ensures forall k :: k in GroupScan(keyExprs, aggregates, handles, size, ps).keys ==> |k| == |keyExprs|
  {
    GroupScanKeys(keyExprs, aggregates, handles, size, ps);
    DedupSpec(KeysOf(keyExprs, ps));
    forall k | k in KeysOf(keyExprs, ps) ensures |k| == |keyExprs| {
      KeysOfLength(keyExprs, ps, k);
    }
  }

  lemma {:induction false} KeysOfLength<P, A, V>(keyExprs: seq<Target<P, A, V>>, ps: seq<P>, k: seq<V>)
    requires k in KeysOf(keyExprs, ps)
    ensures |k| == |keyExprs|
  {
    var n := |ps| - 1;
    if k != Key(keyExprs, ps[n]) {
      KeysOfLength(keyExprs, ps[..n], k);
    }
  }

  // ---------------------------------------------------------------------------
  // Every posting in exactly one group

  /** The total number of postings in the groups of `keys`. */
  function GroupSizes<P, A, V(==)>(keyExprs: seq<Target<P, A, V>>, keys: seq<seq<V>>, ps: seq<P>): nat {
    if keys == [] then 0
    else
      var n := |keys| - 1;
      GroupSizes(keyExprs, keys[..n], ps) + |GroupOf(keyExprs, keys[n], ps)|
  }

  lemma {:induction false} GroupSizesSnoc<P, A, V>(keyExprs: seq<Target<P, A, V>>, keys: seq<seq<V>>, ps: seq<P>, p: P)
    requires Distinct(keys)
    ensures GroupSizes(keyExprs, keys, ps + [p]) == GroupSizes(keyExprs, keys, ps) + if Key(keyExprs, p) in keys then 1 else 0
  {
    if keys != [] {
      var n := |keys| - 1;
      assert Distinct(keys[..n]);
      GroupSizesSnoc(keyExprs, keys[..n], ps, p);
      GroupOfSnoc(keyExprs, keys[n], ps, p);
      assert keys == keys[..n] + [keys[n]];
    }
  }

  /**
   * The groups partition the scanned postings: summed over the keys of the scan,
   * the group sizes add up to the number of postings, so no posting is dropped
   * and none is counted in two groups.
   */
  lemma {:induction false} GroupsPartition<P, A, V>(keyExprs: seq<Target<P, A, V>>, aggregates: seq<Aggregate<P, A>>,
                                                  handles: seq<nat>, size: nat, ps: seq<P>)
    requires |handles| == |aggregates| && ValidHandles(handles, size)
    ensures GroupSizes(keyExprs, GroupScan(keyExprs, aggregates, handles, size, ps).keys, ps) == |ps|
  {
    GroupScanKeys(keyExprs, aggregates, handles, size, ps);
    if ps != [] {
      var n := |ps| - 1;
      var init, p := ps[..n], ps[n];
      assert ps == init + [p];
      GroupsPartition(keyExprs, aggregates, handles, size, init);
      GroupScanKeys(keyExprs, aggregates, handles, size, init);
      var keys0 := Dedup(KeysOf(keyExprs, init));
      DedupSpec(KeysOf(keyExprs, init));
      var k := Key(keyExprs, p);
      GroupSizesSnoc(keyExprs, keys0, init, p);
      if k !in keys0 {
        var keys := keys0 + [k];
        assert keys[..|keys| - 1] == keys0;
        GroupOfEmpty(keyExprs, k, init);
        GroupOfSnoc(keyExprs, k, init, p);
      }
    }
  }

  /**
   * The body of the scan loop for one matching posting: look its key up, create and
   * initialise a store on a miss (appending the key), then update the store.
   */
  method AbsorbPosting<P, A, V(==)>(keyExprs: seq<Target<P, A, V>>, aggregates: seq<Aggregate<P, A>>, handles: seq<nat>,
                                    allocator: Allocator, keys: seq<seq<V>>, stores: map<seq<V>, seq<Option<A>>>, posting: P)
    returns (keys': seq<seq<V>>, stores': map<seq<V>, seq<Option<A>>>)
    requires |handles| == |aggregates| && ValidHandles(handles, allocator.size) && Sized(Groups(keys, stores), allocator.size)
    ensures Groups(keys', stores') == Absorb(keyExprs, aggregates, handles, allocator.size, Groups(keys, stores), posting)
  {
    keys', stores' := keys, stores;
    var rowKey := Key(keyExprs, posting);
    var store: seq<Option<A>>;
    if rowKey in stores' {
      store := stores'[rowKey];
    } else {
      store := allocator.CreateStore();
      assert store == EmptyStore(allocator.size);
      store := InitializeStore(aggregates, handles, store);
      stores' := stores'[rowKey := store];
      keys' := keys' + [rowKey];
    }
    store := UpdateStore(aggregates, handles, store, posting);
    stores' := stores'[rowKey := store];
  }

  /** The inner loop of the scan: the postings of one transaction, in order. */
  method ScanPostings<P, A, V(==)>(keyExprs: seq<Target<P, A, V>>, aggregates: seq<Aggregate<P, A>>, handles: seq<nat>,
                                   allocator: Allocator, where: Option<P -> bool>, g: Groups<V, A>, ghost before: seq<P>, postings: seq<P>)
    returns (g': Groups<V, A>)
    requires |handles| == |aggregates| && ValidHandles(handles, allocator.size)
    requires g == GroupScan(keyExprs, aggregates, handles, allocator.size, before)
    ensures g' == GroupScan(keyExprs, aggregates, handles, allocator.size, before + Keep(Holds(where), postings))
  {
    var size := allocator.size;
    g' := g;
    ghost var seen := before;
    assert before + Keep(Holds(where), postings[..0]) == before;
    for j := 0 to |postings|
      invariant seen == before + Keep(Holds(where), postings[..j])
      invariant g' == GroupScan(keyExprs, aggregates, handles, size, seen)
    {
      var posting := postings[j];
      KeepSnoc(where, postings, j);
      if where.None? || where.value(posting) {
        var keys, stores := AbsorbPosting(keyExprs, aggregates, handles, allocator, g'.keys, g'.stores, posting);
        g' := Groups(keys, stores);
        GroupScanSnoc(keyExprs, aggregates, handles, size, seen, posting);
        assert before + Keep(Holds(where), postings[..j + 1]) == seen + [posting];
        seen := seen + [posting];
      } else {
        assert Keep(Holds(where), postings[..j + 1]) == Keep(Holds(where), postings[..j]);
      }
    }
    assert postings[..|postings|] == postings;
  }

  /**
   * The scan loop of the aggregated query: for every posting of every transaction
   * that passes WHERE, compute its key tuple, fetch its store (creating and
   * initialising one on first sight of the key) and update it.
   */
  method ScanGroups<D, P, A, V(==)>(keyExprs: seq<Target<P, A, V>>, aggregates: seq<Aggregate<P, A>>, handles: seq<nat>,
                                   allocator: Allocator, where: Option<P -> bool>, entries: seq<Entry<D, P>>)
    returns (g: Groups<V, A>)
    requires |handles| == |aggregates| && ValidHandles(handles, allocator.size)
    ensures g == GroupScan(keyExprs, aggregates, handles, allocator.size, Scan(where, entries))
  {
    g := Groups([], map[]);
    for i := 0 to |entries|
      invariant g == GroupScan(keyExprs, aggregates, handles, allocator.size, Scan(where, entries[..i]))
    {
      var entry := entries[i];
      assert entries[..i + 1] == entries[..i] + [entry];
      ScanSnoc(where, entries[..i], entry);
      if entry.Transaction? {
        g := ScanPostings(keyExprs, aggregates, handles, allocator, where, g, Scan(where, entries[..i]), entry.postings);
      } else {
        assert Scan(where, entries[..i]) + [] == Scan(where, entries[..i]);
      }
    }
    assert entries[..|entries|] == entries;
  }

  // ---------------------------------------------------------------------------
  // Finalisation

  /**
   * The value tuple of a group: a group-key position takes the next value of the
   * key tuple, any other position its target finalised on the group's store.
   */
  function Assemble<P, A, V>(targets: seq<Target<P, A, V>>, groups: set<nat>, key: seq<V>, store: seq<Option<A>>): seq<V>
    requires |key| == |KeyTargets(targets, groups)|
  {
    seq(|targets|, i requires 0 <= i < |targets| =>
      if i in groups then KeyTargetsAt(targets, groups, i); key[Rank(targets, groups, i)]
      else targets[i].finalize(store))
  }

  /**
   * For a group whose key came from posting `p`, every group-key position holds
   * that target evaluated on `p`, and every other position holds the target
   * finalised on the store.
   */
  lemma GroupKeyColumns<P, A, V>(targets: seq<Target<P, A, V>>, groups: set<nat>, store: seq<Option<A>>, p: P)
    ensures var key := Key(KeyTargets(targets, groups), p);
      var values := Assemble(targets, groups, key, store);
      && |values| == |targets|
      && (forall i :: 0 <= i < |targets| && i in groups ==> values[i] == targets[i].eval(p))
      && (forall i :: 0 <= i < |targets| && i !in groups ==> values[i] == targets[i].finalize(store))
  {
    forall i | 0 <= i < |targets| && i in groups {
      KeyTargetsAt(targets, groups, i);
    }
  }

  /** Groups whose keys all have a store and one value per group-key target. */
  predicate Complete<P, A, V(==)>(targets: seq<Target<P, A, V>>, groups: set<nat>, g: Groups<V, A>) {
    && (forall k :: k in g.keys ==> k in g.stores)
    && (forall j :: 0 <= j < |g.keys| ==> |g.keys[j]| == |KeyTargets(targets, groups)|)
  }

  /** The scan leaves every key with a store and a value for every group-key target. */
  lemma GroupScanComplete<P, A, V>(targets: seq<Target<P, A, V>>, groups: set<nat>, aggregates: seq<Aggregate<P, A>>,
                                   handles: seq<nat>, size: nat, ps: seq<P>)
    requires |handles| == |aggregates| && ValidHandles(handles, size)
    ensures Complete(targets, groups, GroupScan(KeyTargets(targets, groups), aggregates, handles, size, ps))
  {
    var keyExprs := KeyTargets(targets, groups);
    var g := GroupScan(keyExprs, aggregates, handles, size, ps);
    GroupScanKeys(keyExprs, aggregates, handles, size, ps);
    KeysLength(keyExprs, aggregates, handles, size, ps);
    forall j | 0 <= j < |g.keys| ensures |g.keys[j]| == |keyExprs| {
      assert g.keys[j] in g.keys;
    }
  }

  /** One row per group, in the order of the keys. */
  function GroupRows<D, P, A, V(==)>(q: Query<D, P, A, V>, groups: set<nat>, g: Groups<V, A>): seq<SchwartzRow<V>>
    requires WellFormed(q) && Complete(q.targets, groups, g)
  {
    seq(|g.keys|, j requires 0 <= j < |g.keys| => MakeRow(q, Assemble(q.targets, groups, g.keys[j], g.stores[g.keys[j]])))
  }

  /** The finalisation loop: one row per (key, store) pair, in dictionary order. */
  method FinalizeGroups<D, P, A, V(==)>(q: Query<D, P, A, V>, groups: set<nat>, g: Groups<V, A>)
    returns (rows: seq<SchwartzRow<V>>)
    requires WellFormed(q) && Complete(q.targets, groups, g)
    ensures |rows| == |g.keys|
    ensures rows == GroupRows(q, groups, g)
  {
    rows := [];
    for j := 0 to |g.keys|
      invariant |rows| == j
      invariant forall m :: 0 <= m < j ==> rows[m] == GroupRows(q, groups, g)[m]
    {
      var key := g.keys[j];
      var store := g.stores[key];
      ghost var expected := Assemble(q.targets, groups, key, store);
      var next := 0;
      var values: seq<V> := [];
      for i := 0 to |q.targets|
        invariant next == Rank(q.targets, groups, i)
        invariant |values| == i
        invariant forall m :: 0 <= m < i ==> values[m] == expected[m]
      {
        RankStep(q.targets, groups, i);
        var value;
        if i in groups {
          KeyTargetsAt(q.targets, groups, i);
          value := key[next];
          next := next + 1;
        } else {
          value := q.targets[i].finalize(store);
        }
        values := values + [value];
      }
      assert values == expected;
      rows := rows + [MakeRow(q, values)];
    }
  }
}
