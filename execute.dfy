/**
 * `execute_query`: the whole SELECT, from the ledger entries to the result schema
 * and the result rows.
 */
module Execute {
  import opened Wrappers
  import opened Sequences
  import opened QueryPlan
  import opened Allocation
  import opened EntryFilter
  import opened Projection
  import opened PostingScan
  import opened DetailPath
  import opened GroupPath
  import opened Ordering
  import opened PostProcess

  /** The handles `0, 1, ..., n - 1` that n allocations on a fresh allocator hand out. */
  function Handles(n: nat): (r: seq<nat>)
    ensures |r| == n && ValidHandles(r, n)
  {
    seq(n, i => i)
  }

  /** The groups of an aggregated query once every matching posting has been scanned. */
  function GroupedScan<D, P, A, V(==)>(q: Query<D, P, A, V>, entries: seq<Entry<D, P>>): Groups<V, A>
    requires q.groupIndexes.Some?
  {
    var groups := q.groupIndexes.value;
    var aggregates := AggregatesOf(q.targets, groups);
    GroupScan(KeyTargets(q.targets, groups), aggregates, Handles(|aggregates|), |aggregates|, Scan(q.whereClause, entries))
  }

  lemma GroupedScanComplete<D, P, A, V>(q: Query<D, P, A, V>, entries: seq<Entry<D, P>>)
    requires q.groupIndexes.Some?
    ensures Complete(q.targets, q.groupIndexes.value, GroupedScan(q, entries))
  {
    var aggregates := AggregatesOf(q.targets, q.groupIndexes.value);
    GroupScanComplete(q.targets, q.groupIndexes.value, aggregates, Handles(|aggregates|), |aggregates|, Scan(q.whereClause, entries));
  }

  /** The Schwartzian rows of the query in the order they are produced, before sorting. */
  function Emitted<D, P, A, V(==)>(q: Query<D, P, A, V>, entries: seq<Entry<D, P>>): seq<SchwartzRow<V>>
    requires WellFormed(q)
  {
    if q.groupIndexes.None? then DetailRows(q, Scan(q.whereClause, entries))
    else
      GroupedScanComplete(q, entries);
      GroupRows(q, q.groupIndexes.value, GroupedScan(q, entries))
  }

  /**
   * A non-aggregated query yields one row per matching posting, in scan order: column
   * j holds the j-th named target evaluated on that posting, and the sort key the
   * ORDER BY targets evaluated on it.
   */
  lemma DetailQueryRows<D, P, A, V>(q: Query<D, P, A, V>, entries: seq<Entry<D, P>>)
    requires WellFormed(q) && q.groupIndexes.None?
    ensures var ps, rows, cols := Scan(q.whereClause, entries), Emitted(q, entries), ResultIndexes(q.targets);
      && |rows| == |ps|
      && (forall k :: 0 <= k < |rows| ==> |rows[k].row| == |cols|)
      && (forall k, j :: 0 <= k < |rows| && 0 <= j < |cols| ==> rows[k].row[j] == q.targets[cols[j]].eval(ps[k]))
      && (forall k :: 0 <= k < |rows| ==> (rows[k].sortKey.Some? <==> q.orderIndexes.Some?))
      && (forall k, m :: 0 <= k < |rows| && rows[k].sortKey.Some? && 0 <= m < |rows[k].sortKey.value| ==>
            m < |q.orderIndexes.value| && rows[k].sortKey.value[m] == q.targets[q.orderIndexes.value[m]].eval(ps[k]))
  {
    var ps := Scan(q.whereClause, entries);
    DetailRowsAt(q, ps);
    forall k | 0 <= k < |ps| {
      MakeRowColumns(q, Values(q.targets, ps[k]));
    }
  }

  /**
   * An aggregated query yields one row per distinct group key among the matching
   * postings, in order of first sight: never more rows than postings, every posting's
   * key has a row, and the groups together hold every posting exactly once.
   */
  lemma GroupedQueryCount<D, P, A, V>(q: Query<D, P, A, V>, entries: seq<Entry<D, P>>)
    requires WellFormed(q) && q.groupIndexes.Some?
    ensures var keyExprs, ps, g := KeyTargets(q.targets, q.groupIndexes.value), Scan(q.whereClause, entries), GroupedScan(q, entries);
      && |Emitted(q, entries)| == |g.keys| <= |ps|
      && g.keys == Dedup(KeysOf(keyExprs, ps))
      && Distinct(g.keys)
      && (forall m :: 0 <= m < |ps| ==> Key(keyExprs, ps[m]) in g.keys)
      && GroupSizes(keyExprs, g.keys, ps) == |ps|
  {
    var groups := q.groupIndexes.value;
    var aggregates := AggregatesOf(q.targets, groups);
    var keyExprs, handles, ps := KeyTargets(q.targets, groups), Handles(|aggregates|), Scan(q.whereClause, entries);
    GroupScanKeys(keyExprs, aggregates, handles, |aggregates|, ps);
    GroupCount(keyExprs, aggregates, handles, |aggregates|, ps);
    GroupsPartition(keyExprs, aggregates, handles, |aggregates|, ps);
    DedupSpec(KeysOf(keyExprs, ps));
    forall m | 0 <= m < |ps| ensures Key(keyExprs, ps[m]) in GroupedScan(q, entries).keys {
      assert KeysOf(keyExprs, ps)[m] == Key(keyExprs, ps[m]) by {
        KeysOfAt(keyExprs, ps, m);
      }
      assert KeysOf(keyExprs, ps)[m] in KeysOf(keyExprs, ps);
    }
  }

  /**
   * Row j of an aggregated query belongs to the j-th group key: its group is
   * non-empty, its store holds every aggregate folded over exactly the group's
   * postings, its group-key columns are the targets evaluated on the group's first
   * posting, and its other columns are the targets finalised on that store.
   */
  lemma GroupedQueryRow<D, P, A, V>(q: Query<D, P, A, V>, entries: seq<Entry<D, P>>, j: nat)
    requires WellFormed(q) && q.groupIndexes.Some? && j < |GroupedScan(q, entries).keys|
    ensures var groups := q.groupIndexes.value;
      var aggregates := AggregatesOf(q.targets, groups);
      var g := GroupedScan(q, entries);
      var group := GroupOf(KeyTargets(q.targets, groups), g.keys[j], Scan(q.whereClause, entries));
      && g.keys[j] in g.stores
      && |g.keys[j]| == |KeyTargets(q.targets, groups)|
      && group != []
      && StoreOf(aggregates, Handles(|aggregates|), |aggregates|, g.stores[g.keys[j]], group)
      && var values := Assemble(q.targets, groups, g.keys[j], g.stores[g.keys[j]]);
      && |values| == |q.targets|
      && j < |Emitted(q, entries)|
      && Emitted(q, entries)[j] == MakeRow(q, values)
      && (forall i :: 0 <= i < |q.targets| && i in groups ==> values[i] == q.targets[i].eval(group[0]))
      && (forall i :: 0 <= i < |q.targets| && i !in groups ==> values[i] == q.targets[i].finalize(g.stores[g.keys[j]]))
  {
    var groups := q.groupIndexes.value;
    var aggregates := AggregatesOf(q.targets, groups);
    var keyExprs, handles, ps := KeyTargets(q.targets, groups), Handles(|aggregates|), Scan(q.whereClause, entries);
    var g := GroupedScan(q, entries);
    GroupedScanComplete(q, entries);
    var k := g.keys[j];
    assert k in g.keys;
    GroupScanStores(keyExprs, aggregates, handles, |aggregates|, ps);
    var group := GroupOf(keyExprs, k, ps);
    GroupOfMembers(keyExprs, k, ps);
    assert Key(keyExprs, group[0]) == k;
    GroupKeyColumns(q.targets, groups, g.stores[k], group[0]);
  }

  /** Dispatch between the non-aggregated and the aggregated path. */
  method EmitRows<D, P, A, V(==)>(q: Query<D, P, A, V>, entries: seq<Entry<D, P>>) returns (schwartz: seq<SchwartzRow<V>>)
    requires WellFormed(q)
    ensures schwartz == Emitted(q, entries)
  {
    if q.groupIndexes.None? {
      schwartz := ScanRows(q, entries);
    } else {
      var groups := q.groupIndexes.value;
      var keyExprs, aggregates := Classify(q.targets, groups);
      var allocator, handles := AllocateAll(|aggregates|);
      assert handles == Handles(|aggregates|);
      var g := ScanGroups(keyExprs, aggregates, handles, allocator, q.whereClause, entries);
      GroupedScanComplete(q, entries);
      schwartz := FinalizeGroups(q, groups, g);
    }
  }

  /** ORDER BY: sort the rows stably by their key when the query orders them. */
  method OrderRows<D, P, A, V(==, !new)>(q: Query<D, P, A, V>, schwartz: seq<SchwartzRow<V>>, leq: (V, V) -> bool)
    returns (ordered: seq<SchwartzRow<V>>)
    requires q.orderIndexes.Some? ==> TotalOrder(leq)
    ensures multiset(ordered) == multiset(schwartz)
    ensures q.orderIndexes.None? ==> ordered == schwartz
    ensures q.orderIndexes.Some? ==> StableSortOf(leq, Descending(q), ordered, schwartz)
  {
    ordered := schwartz;
    if q.orderIndexes.Some? {
      var a := new SchwartzRow<V>[|schwartz|](i requires 0 <= i < |schwartz| => schwartz[i]);
      assert a[..] == schwartz;
      ghost var origin := SortRows(a, leq, Descending(q));
      ordered := a[..];
    }
  }

  /**
   * The query: the FROM clause narrows the entries, one of the two paths produces
   * the rows, ORDER BY sorts them stably by key (descending when asked), and the
   * sort keys are dropped before DISTINCT and LIMIT. `ordered` is the row list just
   * before the sort keys are dropped.
   */
  method ExecuteQuery<D, P, A, V(==, !new)>(q: Query<D, P, A, V>, entries: seq<Entry<D, P>>, summ: Summarizer<D, P>, leq: (V, V) -> bool)
    returns (types: seq<(string, string)>, rows: seq<seq<V>>, ghost ordered: seq<SchwartzRow<V>>)
    requires WellFormed(q)
    requires q.orderIndexes.Some? ==> TotalOrder(leq)
    ensures types == ResultTypes(q.targets)
    ensures var emitted := Emitted(q, FilterEntries(q.fromClause, entries, summ));
      && multiset(ordered) == multiset(emitted)
      && (q.orderIndexes.None? ==> ordered == emitted)
      && (q.orderIndexes.Some? ==> StableSortOf(leq, Descending(q), ordered, emitted))
    ensures rows == Finish(q, ordered)
  {
    var selected := entries;
    if q.fromClause.Some? {
      selected := FilterEntries(q.fromClause, entries, summ);
    }
    types := ResultTypes(q.targets);
    var schwartz := EmitRows(q, selected);
    schwartz := OrderRows(q, schwartz, leq);
    ordered := schwartz;
    rows := Results(schwartz);
    if q.distinct {
      rows := Dedup(rows);
    }
    if q.limit.Some? {
      rows := Take(rows, q.limit.value);
    }
  }
}
