/** The single pass over the entries shared by both evaluation paths. */
module PostingScan {
  import opened Wrappers
  import opened Sequences
  import opened QueryPlan

  /** The postings of the transactions, in entry order; other directives contribute none. */
  function AllPostings<D, P>(entries: seq<Entry<D, P>>): seq<P> {
    if entries == [] then []
    else
      var n := |entries| - 1;
      AllPostings(entries[..n]) + if entries[n].Transaction? then entries[n].postings else []
  }

  /** The WHERE test: absent, or true of the posting. */
  function Holds<P>(where: Option<P -> bool>): P -> bool {
    p => where.None? || where.value(p)
  }

  /** The postings the query evaluates, in scan order. */
  function Scan<D, P>(where: Option<P -> bool>, entries: seq<Entry<D, P>>): seq<P> {
    Keep(Holds(where), AllPostings(entries))
  }

  /** Scanning one more entry adds its matching postings at the end, or nothing when it is not a transaction. */
  lemma ScanSnoc<D, P>(where: Option<P -> bool>, entries: seq<Entry<D, P>>, e: Entry<D, P>)
    ensures Scan(where, entries + [e]) == Scan(where, entries) + if e.Transaction? then Keep(Holds(where), e.postings) else []
  {
    assert (entries + [e])[..|entries|] == entries;
    KeepAppend(Holds(where), AllPostings(entries), if e.Transaction? then e.postings else []);
  }

  /** The scan of a concatenation is the concatenation of the scans. */
  lemma {:induction false} ScanAppend<D, P>(where: Option<P -> bool>, xs: seq<Entry<D, P>>, ys: seq<Entry<D, P>>)
    ensures Scan(where, xs + ys) == Scan(where, xs) + Scan(where, ys)
    decreases |ys|
  {
    if ys == [] {
      assert xs + ys == xs;
    } else {
      var n := |ys| - 1;
      ScanAppend(where, xs, ys[..n]);
      assert xs + ys == (xs + ys[..n]) + [ys[n]];
      assert ys == ys[..n] + [ys[n]];
      ScanSnoc(where, xs + ys[..n], ys[n]);
      ScanSnoc(where, ys[..n], ys[n]);
    }
  }

  /**
   * The scanned postings are exactly those of transactions that satisfy WHERE,
   * each as often as it occurs there, in their original order; a posting that
   * fails WHERE never appears.
   */
  lemma ScanSpec<D, P>(where: Option<P -> bool>, entries: seq<Entry<D, P>>)
    ensures IsSubsequence(Scan(where, entries), AllPostings(entries))
    ensures forall p :: multiset(Scan(where, entries))[p] == if Holds(where)(p) then multiset(AllPostings(entries))[p] else 0
    ensures where.None? ==> Scan(where, entries) == AllPostings(entries)
  {
    KeepIsSubsequence(Holds(where), AllPostings(entries));
    KeepCount(Holds(where), AllPostings(entries));
    if where.None? {
      KeepAll(Holds(where), AllPostings(entries));
    }
  }

  /** Keeping one more posting: it is appended when it satisfies WHERE. */
  lemma KeepSnoc<P>(where: Option<P -> bool>, ps: seq<P>, j: nat)
    requires j < |ps|
    ensures Keep(Holds(where), ps[..j + 1]) == Keep(Holds(where), ps[..j]) + if where.None? || where.value(ps[j]) then [ps[j]] else []
  {
    assert ps[..j + 1][..j] == ps[..j];
  }
}
