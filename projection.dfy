/** The shape of result rows: which targets become columns, and the sort key. */
module Projection {
  import opened Wrappers
  import opened QueryPlan

  /** A target gets a column when its name is truthy: present and not empty. */
  predicate Named<P, A, V>(t: Target<P, A, V>) {
    t.name.Some? && t.name.value != ""
  }

  /** `result_indexes`: the positions of the named targets, in declaration order. */
  function ResultIndexes<P, A, V>(targets: seq<Target<P, A, V>>): (r: seq<nat>)
    ensures forall j :: 0 <= j < |r| ==> r[j] < |targets| && Named(targets[r[j]])
    ensures forall i :: 0 <= i < |targets| && Named(targets[i]) ==> i in r
    ensures forall j, k :: 0 <= j < k < |r| ==> r[j] < r[k]
  {
    if targets == [] then []
    else
      var n := |targets| - 1;
      ResultIndexes(targets[..n]) + if Named(targets[n]) then [n] else []
  }

  /** `result_types`: name and data type of each target whose name is not None. */
  function ResultTypes<P, A, V>(targets: seq<Target<P, A, V>>): seq<(string, string)> {
    if targets == [] then []
    else
      var n := |targets| - 1;
      var t := targets[n];
      ResultTypes(targets[..n]) + if t.name.Some? then [(t.name.value, t.dtype)] else []
  }

  /**
   * When no target is named with the empty string, the schema has one entry per
   * column of the rows, in the same order: entry j describes the target whose
   * value fills column j.
   */
  lemma {:induction false} ResultTypesMatchRows<P, A, V>(targets: seq<Target<P, A, V>>)
    requires forall i :: 0 <= i < |targets| ==> targets[i].name != Some("")
    ensures |ResultTypes(targets)| == |ResultIndexes(targets)|
    ensures forall j :: 0 <= j < |ResultIndexes(targets)| ==>
      var t := targets[ResultIndexes(targets)[j]];
      t.name.Some? && ResultTypes(targets)[j] == (t.name.value, t.dtype)
  {
    if targets != [] {
      var n := |targets| - 1;
      var init := targets[..n];
      var t := targets[n];
      ResultTypesMatchRows(init);
      var ri, rt := ResultIndexes(init), ResultTypes(init);
      var ri', rt' := ResultIndexes(targets), ResultTypes(targets);
      assert ri' == ri + if Named(t) then [n] else [];
      assert rt' == rt + if t.name.Some? then [(t.name.value, t.dtype)] else [];
      assert Named(t) <==> t.name.Some? by {
        assert t.name != Some("");
      }
      forall j | 0 <= j < |ri'|
        ensures targets[ri'[j]].name.Some? && rt'[j] == (targets[ri'[j]].name.value, targets[ri'[j]].dtype)
      {
        if j < |ri| {
          assert ri'[j] == ri[j] && rt'[j] == rt[j];
          assert targets[ri[j]] == init[ri[j]];
        } else {
          assert ri'[j] == n && rt'[j] == (t.name.value, t.dtype);
        }
      }
    }
  }

  /** `[c_expr(posting) for c_expr in c_target_exprs]` */
  function Values<P, A, V>(targets: seq<Target<P, A, V>>, p: P): seq<V> {
    seq(|targets|, i requires 0 <= i < |targets| => targets[i].eval(p))
  }

  /** The values at the given positions, in the order of the positions. */
  function Project<V>(values: seq<V>, indexes: seq<nat>): (r: seq<V>)
    requires forall j :: 0 <= j < |indexes| ==> indexes[j] < |values|
  {
    seq(|indexes|, j requires 0 <= j < |indexes| => values[indexes[j]])
  }

  /** The row (named columns) and the sort key (ORDER BY positions, when present) of one value tuple. */
  function MakeRow<D, P, A, V>(q: Query<D, P, A, V>, values: seq<V>): SchwartzRow<V>
    requires WellFormed(q) && |values| == |q.targets|
  {
    var key := if q.orderIndexes.Some? then Some(Project(values, q.orderIndexes.value)) else None;
    SchwartzRow(key, Project(values, ResultIndexes(q.targets)))
  }

  /**
   * Column j of a row is the value of the j-th named target, and the sort key (when
   * ORDER BY is present) holds the values at the ORDER BY positions, in that order.
   */
  lemma MakeRowColumns<D, P, A, V>(q: Query<D, P, A, V>, values: seq<V>)
    requires WellFormed(q) && |values| == |q.targets|
    ensures var r := MakeRow(q, values);
      && |r.row| == |ResultIndexes(q.targets)|
      && (forall j :: 0 <= j < |r.row| ==> Named(q.targets[ResultIndexes(q.targets)[j]]) && r.row[j] == values[ResultIndexes(q.targets)[j]])
      && (r.sortKey.Some? <==> q.orderIndexes.Some?)
      && (r.sortKey.Some? ==> |r.sortKey.value| == |q.orderIndexes.value|)
      && (r.sortKey.Some? ==> forall m :: 0 <= m < |r.sortKey.value| ==> r.sortKey.value[m] == values[q.orderIndexes.value[m]])
  {
  }
}
