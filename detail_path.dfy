/** The non-aggregated path: one row per matching posting. */
module DetailPath {
  import opened Wrappers
  import opened Sequences
  import opened QueryPlan
  import opened Projection
  import opened PostingScan

  /** The rows of the given postings, one per posting, in their order. */
  function DetailRows<D, P, A, V>(q: Query<D, P, A, V>, ps: seq<P>): seq<SchwartzRow<V>>
    requires WellFormed(q)
  {
    if ps == [] then []
    else
      var n := |ps| - 1;
      DetailRows(q, ps[..n]) + [MakeRow(q, Values(q.targets, ps[n]))]
  }

  lemma DetailRowsSnoc<D, P, A, V>(q: Query<D, P, A, V>, ps: seq<P>, p: P)
    requires WellFormed(q)
    ensures DetailRows(q, ps + [p]) == DetailRows(q, ps) + [MakeRow(q, Values(q.targets, p))]
  {
    assert (ps + [p])[..|ps|] == ps;
  }

  /** Row k is the row of posting k: the path emits exactly one row per posting, in order. */
  lemma {:induction false} DetailRowsAt<D, P, A, V>(q: Query<D, P, A, V>, ps: seq<P>)
    requires WellFormed(q)
    ensures |DetailRows(q, ps)| == |ps|
    ensures forall k :: 0 <= k < |ps| ==> DetailRows(q, ps)[k] == MakeRow(q, Values(q.targets, ps[k]))
  {
    if ps != [] {
      var n := |ps| - 1;
      DetailRowsAt(q, ps[..n]);
    }
  }

  /**
   * The nested loop of the non-aggregated query: for every posting of every
   * transaction that passes WHERE, evaluate all targets and emit its row.
   */
  method ScanRows<D, P, A, V>(q: Query<D, P, A, V>, entries: seq<Entry<D, P>>) returns (rows: seq<SchwartzRow<V>>)
    requires WellFormed(q)
    ensures rows == DetailRows(q, Scan(q.whereClause, entries))
    ensures |rows| == |Scan(q.whereClause, entries)|
    ensures forall k :: 0 <= k < |rows| ==> rows[k] == MakeRow(q, Values(q.targets, Scan(q.whereClause, entries)[k]))
  {
    var where := q.whereClause;
    rows := [];
    for i := 0 to |entries|
      invariant rows == DetailRows(q, Scan(where, entries[..i]))
    {
      var entry := entries[i];
      ghost var before := Scan(where, entries[..i]);
      assert entries[..i + 1] == entries[..i] + [entry];
      ScanSnoc(where, entries[..i], entry);
      if entry.Transaction? {
        var postings := entry.postings;
        assert before + Keep(Holds(where), postings[..0]) == before;
        for j := 0 to |postings|
          invariant rows == DetailRows(q, before + Keep(Holds(where), postings[..j]))
        {
          var posting := postings[j];
          ghost var kept := Keep(Holds(where), postings[..j]);
          KeepSnoc(where, postings, j);
          if where.None? || where.value(posting) {
            var values := Values(q.targets, posting);
            DetailRowsSnoc(q, before + kept, posting);
            assert before + (kept + [posting]) == (before + kept) + [posting];
            rows := rows + [MakeRow(q, values)];
            assert Keep(Holds(where), postings[..j + 1]) == kept + [posting];
            assert rows == DetailRows(q, before + Keep(Holds(where), postings[..j + 1]));
          } else {
            assert Keep(Holds(where), postings[..j + 1]) == kept;
          }
        }
        assert postings[..|postings|] == postings;
      } else {
        assert before + [] == before;
      }
    }
    assert entries[..|entries|] == entries;
    DetailRowsAt(q, Scan(where, entries));
  }
}
