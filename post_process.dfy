/**
 * What happens to the Schwartzian rows once they are in order: the sort keys are
 * dropped, DISTINCT keeps the first occurrence of every row, and LIMIT slices.
 */
module PostProcess {
  import opened Wrappers
  import opened Sequences
  import opened QueryPlan

  /** `[x[1] for x in schwartz_rows]` */
  function Results<V>(ordered: seq<SchwartzRow<V>>): seq<seq<V>> {
    seq(|ordered|, i requires 0 <= i < |ordered| => ordered[i].row)
  }

  /** The rows after DISTINCT, before LIMIT. */
  function Unique<D, P, A, V(==)>(q: Query<D, P, A, V>, ordered: seq<SchwartzRow<V>>): seq<seq<V>> {
    if q.distinct then Dedup(Results(ordered)) else Results(ordered)
  }

  /** The result rows of the query: DISTINCT, then `result_rows[:limit]`. */
  function Finish<D, P, A, V(==)>(q: Query<D, P, A, V>, ordered: seq<SchwartzRow<V>>): seq<seq<V>> {
    var unique := Unique(q, ordered);
    if q.limit.Some? then Take(unique, q.limit.value) else unique
  }

  /**
   * The result rows are a prefix of the (de-duplicated) rows in their sorted order:
   * nothing is reordered and nothing is invented, and there are never more of them
   * than rows produced.
   */
  lemma FinishPrefix<D, P, A, V>(q: Query<D, P, A, V>, ordered: seq<SchwartzRow<V>>)
    ensures var r := Finish(q, ordered);
      && |r| <= |Unique(q, ordered)| <= |ordered|
      && r == Unique(q, ordered)[..|r|]
      && forall j :: 0 <= j < |r| ==> r[j] in Results(ordered)
  {
    var r := Finish(q, ordered);
    var rs := Results(ordered);
    var u := Unique(q, ordered);
    if q.distinct {
      DedupSpec(rs);
    }
    forall j | 0 <= j < |r| ensures r[j] in rs {
      assert r[j] == u[j];
      if q.distinct {
        DedupMember(rs, j);
      }
    }
  }

  /** Without DISTINCT and LIMIT every produced row is returned, in order. */
  lemma FinishAll<D, P, A, V>(q: Query<D, P, A, V>, ordered: seq<SchwartzRow<V>>)
    requires !q.distinct && q.limit.None?
    ensures |Finish(q, ordered)| == |ordered|
    ensures forall i :: 0 <= i < |ordered| ==> Finish(q, ordered)[i] == ordered[i].row
  {
  }

  /**
   * LIMIT n with n >= 0 returns the first n rows, or all of them when there are
   * fewer; a negative limit drops that many rows from the end, as a slice does.
   */
  lemma FinishLimit<D, P, A, V>(q: Query<D, P, A, V>, ordered: seq<SchwartzRow<V>>, n: int)
    requires q.limit == Some(n)
    ensures var u := Unique(q, ordered);
      && (n >= 0 ==> Finish(q, ordered) == u[..if n <= |u| then n else |u|])
      && (n < 0 ==> Finish(q, ordered) == u[..if -n <= |u| then |u| + n else 0])
  {
  }

  /**
   * DISTINCT: no row is returned twice; without a limit every produced row is
   * returned, and rows come in the order of their first occurrence.
   */
  lemma FinishDistinct<D, P, A, V>(q: Query<D, P, A, V>, ordered: seq<SchwartzRow<V>>)
    requires q.distinct
    ensures var r := Finish(q, ordered);
      && Distinct(r)
      && (forall j :: 0 <= j < |r| ==> r[j] in Results(ordered))
      && (forall j, k :: 0 <= j < k < |r| ==> IndexOf(Results(ordered), r[j]) < IndexOf(Results(ordered), r[k]))
      && (q.limit.None? ==> forall i :: 0 <= i < |ordered| ==> ordered[i].row in r)
  {
    var rs := Results(ordered);
    var u := Dedup(rs);
    DedupSpec(rs);
    var r := Finish(q, ordered);
    PrefixDistinct(u, |r|);
    assert r == u[..|r|];
    forall j | 0 <= j < |r| ensures r[j] in rs {
      DedupMember(rs, j);
    }
    forall i | 0 <= i < |ordered| && q.limit.None? ensures ordered[i].row in r {
      assert rs[i] == ordered[i].row;
    }
  }

  /** DISTINCT on rows that are already pairwise different changes nothing. */
  lemma DistinctNoop<D, P, A, V>(q: Query<D, P, A, V>, ordered: seq<SchwartzRow<V>>)
    requires Distinct(Results(ordered))
    ensures Unique(q, ordered) == Results(ordered)
  {
    DedupOfDistinct(Results(ordered));
  }
}
