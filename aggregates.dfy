/**
 * Two concrete aggregates, to show what the abstract initialise/update pair of an
 * aggregate computes over a group: COUNT and SUM over an integer-valued expression.
 */
module Aggregates {
  import opened Wrappers
  import opened QueryPlan
  import opened GroupPath
  import opened PostingScan
  import opened Execute

  /** The integer a slot holds, reading an empty slot as 0. */
  function SlotValue(slot: Option<int>): int {
    if slot.Some? then slot.value else 0
  }

  /** COUNT(*): initialised to 0, incremented once per posting. */
  function Count<P>(): Aggregate<P, int> {
    Aggregate(0, (slot: Option<int>, p: P) => SlotValue(slot) + 1)
  }

  /** SUM(value): initialised to 0, the posting's value added once per posting. */
  function Sum<P>(value: P -> int): Aggregate<P, int> {
    Aggregate(0, (slot: Option<int>, p: P) => SlotValue(slot) + value(p))
  }

  /** The sum of `value` over `ps`, taken from the front. */
  function Total<P>(value: P -> int, ps: seq<P>): int {
    if ps == [] then 0 else value(ps[0]) + Total(value, ps[1..])
  }

  lemma {:induction false} TotalSnoc<P>(value: P -> int, ps: seq<P>, p: P)
    ensures Total(value, ps + [p]) == Total(value, ps) + value(p)
    decreases |ps|
  {
    if ps != [] {
      assert (ps + [p])[1..] == ps[1..] + [p];
      TotalSnoc(value, ps[1..], p);
    }
  }

  /** The COUNT slot of a group holds the number of postings in the group. */
  lemma {:induction false} CountFold<P>(ps: seq<P>)
    ensures Fold(Count(), ps) == |ps|
  {
    if ps != [] {
      CountFold(ps[..|ps| - 1]);
    }
  }

  /** The SUM slot of a group holds the sum of the value over the group's postings. */
  lemma {:induction false} SumFold<P>(value: P -> int, ps: seq<P>)
    ensures Fold(Sum(value), ps) == Total(value, ps)
  {
    if ps != [] {
      var n := |ps| - 1;
      SumFold(value, ps[..n]);
      TotalSnoc(value, ps[..n], ps[n]);
      assert ps == ps[..n] + [ps[n]];
    }
  }

  /**
   * In an aggregated query, a COUNT aggregate's slot in the store of the j-th group
   * holds the number of matching postings whose key is that group's key.
   */
  lemma GroupedCount<D, P, V>(q: Query<D, P, int, V>, entries: seq<Entry<D, P>>, j: nat, i: nat)
    requires WellFormed(q) && q.groupIndexes.Some? && j < |GroupedScan(q, entries).keys|
    requires var aggregates := AggregatesOf(q.targets, q.groupIndexes.value);
      i < |aggregates| && aggregates[i] == Count()
    ensures var g := GroupedScan(q, entries);
      var k := g.keys[j];
      && k in g.stores
      && i < |g.stores[k]|
      && g.stores[k][i] == Some(|GroupOf(KeyTargets(q.targets, q.groupIndexes.value), k, Scan(q.whereClause, entries))|)
  {
    var g := GroupedScan(q, entries);
    GroupedQueryRow(q, entries, j);
    CountFold(GroupOf(KeyTargets(q.targets, q.groupIndexes.value), g.keys[j], Scan(q.whereClause, entries)));
  }

  /**
   * In an aggregated query, a SUM aggregate's slot in the store of the j-th group
   * holds the sum of its value over the matching postings with that group's key.
   */
  lemma GroupedSum<D, P, V>(q: Query<D, P, int, V>, entries: seq<Entry<D, P>>, j: nat, i: nat, value: P -> int)
    requires WellFormed(q) && q.groupIndexes.Some? && j < |GroupedScan(q, entries).keys|
    requires var aggregates := AggregatesOf(q.targets, q.groupIndexes.value);
      i < |aggregates| && aggregates[i] == Sum(value)
    ensures var g := GroupedScan(q, entries);
      var k := g.keys[j];
      && k in g.stores
      && i < |g.stores[k]|
      && g.stores[k][i] == Some(Total(value, GroupOf(KeyTargets(q.targets, q.groupIndexes.value), k, Scan(q.whereClause, entries))))
  {
    var g := GroupedScan(q, entries);
    GroupedQueryRow(q, entries, j);
    SumFold(value, GroupOf(KeyTargets(q.targets, q.groupIndexes.value), g.keys[j], Scan(q.whereClause, entries)));
  }
}
