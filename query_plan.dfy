/**
 * The values the engine consumes: ledger entries, the compiled query and the
 * collaborators it calls. Compiled expressions and the ledger's summarisation
 * operations are supplied from outside, so they appear here as function-valued
 * fields; the engine only calls them.
 *
 * Type parameters throughout: D is the data of an entry other than its postings,
 * P a posting, A the state an aggregate keeps in one store slot, V a value a
 * target expression produces.
 */
module QueryPlan {
  import opened Wrappers

  /** A directive of the ledger. Only transactions carry postings. */
  datatype Entry<D, P> =
    | Transaction(header: D, postings: seq<P>)
    | Directive(body: D)

  datatype Date = Date(year: int, month: int, day: int)

  /** The value of a FROM clause's CLOSE: a date, or a flag (`True` closes at no particular date). */
  datatype Close = CloseOn(date: Date) | CloseFlag(flag: bool)

  /** A compiled FROM clause: an optional entry filter, then optional OPEN, CLOSE and CLEAR. */
  datatype FromClause<!D, !P> = FromClause(
    expr: Option<Entry<D, P> -> bool>,
    open: Option<Date>,
    close: Option<Close>,
    clear: Option<bool>)

  /**
   * The ledger's summarisation operations with the options map bound in. Each
   * returns the new entry list (the index the ledger also returns is dropped by
   * the engine, so it is not modelled).
   */
  datatype Summarizer<!D, !P> = Summarizer(
    openAt: (seq<Entry<D, P>>, Date) -> seq<Entry<D, P>>,
    closeAt: (seq<Entry<D, P>>, Option<Date>) -> seq<Entry<D, P>>,
    clearAt: (seq<Entry<D, P>>, Option<Date>) -> seq<Entry<D, P>>)

  /**
   * An aggregate sub-expression. It owns one slot of a store: `initialize` puts
   * `initial` there, `update` replaces the slot's content by `update(slot, posting)`.
   */
  datatype Aggregate<!P, !A> = Aggregate(initial: A, update: (Option<A>, P) -> A)

  /**
   * A compiled target: its optional name, its declared data type, how it
   * evaluates on one posting, the aggregate sub-expressions found inside it,
   * and how it finalises from a group's store.
   */
  datatype Target<!P, !A, V> = Target(
    name: Option<string>,
    dtype: string,
    eval: P -> V,
    aggregates: seq<Aggregate<P, A>>,
    finalize: seq<Option<A>> -> V)

  /**
   * A compiled SELECT. `groupIndexes` is None for a non-aggregated query;
   * `orderIndexes` is None when there is no ORDER BY.
   */
  datatype Query<!D, !P, !A, V> = Query(
    fromClause: Option<FromClause<D, P>>,
    whereClause: Option<P -> bool>,
    targets: seq<Target<P, A, V>>,
    groupIndexes: Option<set<nat>>,
    orderIndexes: Option<seq<nat>>,
    ordering: Option<string>,
    distinct: bool,
    limit: Option<int>)

  /** What the compiler guarantees and the engine relies on: ORDER BY indexes name targets. */
  predicate WellFormed<D, P, A, V>(q: Query<D, P, A, V>) {
    q.orderIndexes.Some? ==> forall j :: 0 <= j < |q.orderIndexes.value| ==> q.orderIndexes.value[j] < |q.targets|
  }

  /** The rows are sorted in reverse exactly when the ordering is `'DESC'`. */
  predicate Descending<D, P, A, V>(q: Query<D, P, A, V>) {
    q.ordering == Some("DESC")
  }

  /** A row paired with its precomputed sort key (a Schwartzian-transform row). */
  datatype SchwartzRow<V> = SchwartzRow(sortKey: Option<seq<V>>, row: seq<V>)
}
