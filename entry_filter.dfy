/** The FROM clause: entry filtering followed by the ledger's summarisation steps. */
module EntryFilter {
  import opened Wrappers
  import opened Sequences
  import opened QueryPlan

  /** The entries for which the FROM expression holds, or all of them when there is none. */
  function Selected<D, P>(f: FromClause<D, P>, entries: seq<Entry<D, P>>): seq<Entry<D, P>> {
    if f.expr.Some? then Keep(f.expr.value, entries) else entries
  }

  /** `filter_entries`: filter by the FROM expression, then OPEN, CLOSE and CLEAR when present. */
  function FilterEntries<D, P>(c: Option<FromClause<D, P>>, entries: seq<Entry<D, P>>, summ: Summarizer<D, P>)
    : seq<Entry<D, P>>
  {
    if c.None? then entries
    else
      var f := c.value;
      var filtered := Selected(f, entries);
      var afterOpen := if f.open.Some? then summ.openAt(filtered, f.open.value) else filtered;
      var afterClose := match f.close
        case None => afterOpen
        case Some(CloseOn(d)) => summ.closeAt(afterOpen, Some(d))
        case Some(CloseFlag(b)) => if b then summ.closeAt(afterOpen, None) else afterOpen;
      if f.clear.Some? then summ.clearAt(afterClose, None) else afterClose
  }

  /** One call to the ledger's summarisation operations. */
  datatype Step = OpenStep(date: Date) | CloseStep(at: Option<Date>) | ClearStep

  /** Where a step sits in the fixed order OPEN, CLOSE, CLEAR. */
  function Phase(s: Step): nat {
    match s
    case OpenStep(_) => 0
    case CloseStep(_) => 1
    case ClearStep => 2
  }

  /**
   * The summarisation calls a FROM clause asks for: OPEN exactly when it has an
   * open date; CLOSE at the date when it has one, with no date when it is `True`,
   * not at all when it is absent or `False`; CLEAR whenever the clause is present
   * (whatever its value); and in the fixed order OPEN, CLOSE, CLEAR.
   */
  function Steps<D, P>(f: FromClause<D, P>): (steps: seq<Step>)
    ensures forall d :: OpenStep(d) in steps <==> f.open == Some(d)
    ensures forall at :: CloseStep(at) in steps <==>
      (f.close == Some(CloseFlag(true)) && at == None) || (f.close.Some? && f.close.value.CloseOn? && at == Some(f.close.value.date))
    ensures ClearStep in steps <==> f.clear.Some?
    ensures forall i, j :: 0 <= i < j < |steps| ==> Phase(steps[i]) < Phase(steps[j])
  {
    OpenSteps(f) + CloseSteps(f) + ClearSteps(f)
  }

  /** The OPEN call, when the clause has an open date. */
  function OpenSteps<D, P>(f: FromClause<D, P>): seq<Step> {
    if f.open.Some? then [OpenStep(f.open.value)] else []
  }

  /** The CLOSE call: at the date, with no date for `True`, none for `False` or no clause. */
  function CloseSteps<D, P>(f: FromClause<D, P>): seq<Step> {
    match f.close
    case None => []
    case Some(CloseOn(d)) => [CloseStep(Some(d))]
    case Some(CloseFlag(b)) => if b then [CloseStep(None)] else []
  }

  /** The CLEAR call, whenever the clause is present. */
  function ClearSteps<D, P>(f: FromClause<D, P>): seq<Step> {
    if f.clear.Some? then [ClearStep] else []
  }

  /** The result of one summarisation call. */
  function Apply<D, P>(summ: Summarizer<D, P>, s: Step, entries: seq<Entry<D, P>>): seq<Entry<D, P>> {
    match s
    case OpenStep(d) => summ.openAt(entries, d)
    case CloseStep(at) => summ.closeAt(entries, at)
    case ClearStep => summ.clearAt(entries, None)
  }

  /** The result of a series of summarisation calls, the first applied first. */
  function Run<D, P>(summ: Summarizer<D, P>, steps: seq<Step>, entries: seq<Entry<D, P>>): seq<Entry<D, P>>
    decreases |steps|
  {
    if steps == [] then entries else Run(summ, steps[1..], Apply(summ, steps[0], entries))
  }

  lemma {:induction false} RunAppend<D, P>(summ: Summarizer<D, P>, s: seq<Step>, t: seq<Step>, entries: seq<Entry<D, P>>)
    ensures Run(summ, s + t, entries) == Run(summ, t, Run(summ, s, entries))
    decreases |s|
  {
    if s == [] {
      assert s + t == t;
    } else {
      assert (s + t)[0] == s[0];
      assert (s + t)[1..] == s[1..] + t;
      RunAppend(summ, s[1..], t, Apply(summ, s[0], entries));
    }
  }

  /** Without a FROM clause the entries pass through unchanged. */
  lemma NoFromClause<D, P>(entries: seq<Entry<D, P>>, summ: Summarizer<D, P>)
    ensures FilterEntries(None, entries, summ) == entries
  {
  }

  /**
   * With a FROM clause, the summarisation calls of `Steps` run in their order on
   * the entries the FROM expression selected: filtering happens before any of them.
   */
  lemma {:induction false} FilterThenSummarize<D, P>(f: FromClause<D, P>, entries: seq<Entry<D, P>>, summ: Summarizer<D, P>)
    ensures FilterEntries(Some(f), entries, summ) == Run(summ, Steps(f), Selected(f, entries))
  {
    var filtered := Selected(f, entries);
    RunAppend(summ, OpenSteps(f) + CloseSteps(f), ClearSteps(f), filtered);
    RunAppend(summ, OpenSteps(f), CloseSteps(f), filtered);
    var afterOpen := Run(summ, OpenSteps(f), filtered);
    RunOpen(f, summ, filtered);
    var afterClose := Run(summ, CloseSteps(f), afterOpen);
    RunClose(f, summ, afterOpen);
    RunClear(f, summ, afterClose);
  }

  lemma RunOpen<D, P>(f: FromClause<D, P>, summ: Summarizer<D, P>, entries: seq<Entry<D, P>>)
    ensures Run(summ, OpenSteps(f), entries) == if f.open.Some? then summ.openAt(entries, f.open.value) else entries
  {
    if f.open.Some? {
      assert Run(summ, OpenSteps(f), entries) == Run(summ, [], summ.openAt(entries, f.open.value));
    }
  }

  lemma RunClose<D, P>(f: FromClause<D, P>, summ: Summarizer<D, P>, entries: seq<Entry<D, P>>)
    ensures Run(summ, CloseSteps(f), entries) ==
      if f.close.Some? && f.close.value.CloseOn? then summ.closeAt(entries, Some(f.close.value.date))
      else if f.close == Some(CloseFlag(true)) then summ.closeAt(entries, None)
      else entries
  {
    if f.close.Some? && f.close.value.CloseOn? {
      assert Run(summ, CloseSteps(f), entries) == Run(summ, [], summ.closeAt(entries, Some(f.close.value.date)));
    } else if f.close == Some(CloseFlag(true)) {
      assert Run(summ, CloseSteps(f), entries) == Run(summ, [], summ.closeAt(entries, None));
    }
  }

  lemma RunClear<D, P>(f: FromClause<D, P>, summ: Summarizer<D, P>, entries: seq<Entry<D, P>>)
    ensures Run(summ, ClearSteps(f), entries) == if f.clear.Some? then summ.clearAt(entries, None) else entries
  {
    if f.clear.Some? {
      assert Run(summ, ClearSteps(f), entries) == Run(summ, [], summ.clearAt(entries, None));
    }
  }

  /**
   * A FROM clause with an expression and no summarisation keeps exactly the
   * entries that satisfy it (each as often as it occurs), in their original order.
   */
  lemma FilterOnly<D, P>(f: FromClause<D, P>, entries: seq<Entry<D, P>>, summ: Summarizer<D, P>)
    requires f.expr.Some? && f.open.None? && f.clear.None?
    requires f.close.None? || f.close == Some(CloseFlag(false))
    ensures var r := FilterEntries(Some(f), entries, summ);
      && IsSubsequence(r, entries)
      && (forall e :: multiset(r)[e] == if f.expr.value(e) then multiset(entries)[e] else 0)
  {
    KeepIsSubsequence(f.expr.value, entries);
    KeepCount(f.expr.value, entries);
  }
}
