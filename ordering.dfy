/** ORDER BY: Python's tuple comparison and the in-place sort of the Schwartzian rows. */
module Ordering {
  import opened Wrappers
  import opened QueryPlan

  /** `leq` is a total order on values. */
  ghost predicate TotalOrder<V(!new)>(leq: (V, V) -> bool) {
    && (forall x, y :: leq(x, y) || leq(y, x))
    && (forall x, y :: leq(x, y) && leq(y, x) ==> x == y)
    && (forall x, y, z :: leq(x, y) && leq(y, z) ==> leq(x, z))
  }

  /**
   * Tuple comparison `a <= b`: the first position where the tuples differ decides;
   * when one is a prefix of the other, the shorter comes first.
   */
  predicate LexLeq<V(==)>(leq: (V, V) -> bool, a: seq<V>, b: seq<V>)
    decreases |a|
  {
    if a == [] then true
    else if b == [] then false
    else if a[0] == b[0] then LexLeq(leq, a[1..], b[1..])
    else leq(a[0], b[0])
  }

  /** Any two tuples compare one way or the other. */
  lemma {:induction false} LexTotal<V(!new)>(leq: (V, V) -> bool, a: seq<V>, b: seq<V>)
    requires TotalOrder(leq)
    ensures LexLeq(leq, a, b) || LexLeq(leq, b, a)
    decreases |a|
  {
    if a != [] && b != [] && a[0] == b[0] {
      LexTotal(leq, a[1..], b[1..]);
    }
  }

  /** Tuple comparison is transitive. */
  lemma {:induction false} LexTransitive<V(!new)>(leq: (V, V) -> bool, a: seq<V>, b: seq<V>, c: seq<V>)
    requires TotalOrder(leq)
    requires LexLeq(leq, a, b) && LexLeq(leq, b, c)
    ensures LexLeq(leq, a, c)
    decreases |a|
  {
    if a != [] && b != [] && c != [] && a[0] == b[0] && b[0] == c[0] {
      LexTransitive(leq, a[1..], b[1..], c[1..]);
    }
  }

  /** Two tuples that compare both ways are equal. */
  lemma {:induction false} LexAntisymmetric<V(!new)>(leq: (V, V) -> bool, a: seq<V>, b: seq<V>)
    requires TotalOrder(leq)
    requires LexLeq(leq, a, b) && LexLeq(leq, b, a)
    ensures a == b
    decreases |a|
  {
    if a != [] && b != [] && a[0] == b[0] {
      LexAntisymmetric(leq, a[1..], b[1..]);
      assert a == [a[0]] + a[1..] && b == [b[0]] + b[1..];
    }
  }

  /** The sort key of a row; rows are only sorted when every row has one. */
  function KeyOf<V>(r: SchwartzRow<V>): seq<V> {
    if r.sortKey.Some? then r.sortKey.value else []
  }

  /** Row `x` may precede row `y`: its key is not greater (not smaller when descending). */
  predicate Before<V(==)>(leq: (V, V) -> bool, desc: bool, x: SchwartzRow<V>, y: SchwartzRow<V>) {
    if desc then LexLeq(leq, KeyOf(y), KeyOf(x)) else LexLeq(leq, KeyOf(x), KeyOf(y))
  }

  lemma BeforeTotal<V(!new)>(leq: (V, V) -> bool, desc: bool, x: SchwartzRow<V>, y: SchwartzRow<V>)
    requires TotalOrder(leq)
    ensures Before(leq, desc, x, y) || Before(leq, desc, y, x)
  {
    LexTotal(leq, KeyOf(x), KeyOf(y));
  }

  lemma BeforeTransitive<V(!new)>(leq: (V, V) -> bool, desc: bool, x: SchwartzRow<V>, y: SchwartzRow<V>, z: SchwartzRow<V>)
    requires TotalOrder(leq)
    requires Before(leq, desc, x, y) && Before(leq, desc, y, z)
    ensures Before(leq, desc, x, z)
  {
    if desc {
      LexTransitive(leq, KeyOf(z), KeyOf(y), KeyOf(x));
    } else {
      LexTransitive(leq, KeyOf(x), KeyOf(y), KeyOf(z));
    }
  }

  /** Every row may precede every later row. */
  ghost predicate SortedRows<V>(leq: (V, V) -> bool, desc: bool, rows: seq<SchwartzRow<V>>) {
    forall i, j :: 0 <= i < j < |rows| ==> Before(leq, desc, rows[i], rows[j])
  }

  /** `out[k]` is the row of `inp` at position `origin[k]`, and no position is used twice. */
  ghost predicate Rearranges<V>(origin: seq<nat>, out: seq<SchwartzRow<V>>, inp: seq<SchwartzRow<V>>) {
    && |origin| == |out| == |inp|
    && (forall k :: 0 <= k < |out| ==> origin[k] < |inp| && out[k] == inp[origin[k]])
    && (forall k, l :: 0 <= k < l < |out| ==> origin[k] != origin[l])
  }

  /** Rows with equal sort keys keep their original relative order. */
  ghost predicate Stable<V>(origin: seq<nat>, out: seq<SchwartzRow<V>>)
    requires |origin| == |out|
  {
    forall k, l :: 0 <= k < l < |out| && KeyOf(out[k]) == KeyOf(out[l]) ==> origin[k] < origin[l]
  }

  /** `out` is `inp` sorted by key, with ties in their original order. */
  ghost predicate StableSortOf<V>(leq: (V, V) -> bool, desc: bool, out: seq<SchwartzRow<V>>, inp: seq<SchwartzRow<V>>) {
    && SortedRows(leq, desc, out)
    && exists origin :: Rearranges(origin, out, inp) && Stable(origin, out)
  }

  lemma {:induction false} LexReflexive<V>(leq: (V, V) -> bool, a: seq<V>)
    ensures LexLeq(leq, a, a)
    decreases |a|
  {
    if a != [] {
      LexReflexive(leq, a[1..]);
    }
  }

  /** `s` with the rows at `i` and `j` exchanged. */
  function Swap<X>(s: seq<X>, i: nat, j: nat): (r: seq<X>)
    requires i < |s| && j < |s|
    ensures |r| == |s| && r[i] == s[j] && r[j] == s[i]
    ensures forall k :: 0 <= k < |s| && k != i && k != j ==> r[k] == s[k]
  {
    s[i := s[j]][j := s[i]]
  }

  /** Exchanging two rows and their recorded origins keeps the record exact. */
  lemma SwapRearranges<V>(origin: seq<nat>, out: seq<SchwartzRow<V>>, inp: seq<SchwartzRow<V>>, i: nat, j: nat)
    requires Rearranges(origin, out, inp) && i < |out| && j < |out|
    ensures Rearranges(Swap(origin, i, j), Swap(out, i, j), inp)
    ensures multiset(Swap(out, i, j)) == multiset(out)
  {
  }

  /**
   * What the sort has established once the first `done` rows are in place: they are
   * sorted and stable, they come from the first `done` input rows, and the rest of
   * the array is still the untouched input.
   */
  ghost predicate SortedUpTo<V>(leq: (V, V) -> bool, desc: bool, rows: seq<SchwartzRow<V>>, origin: seq<nat>, inp: seq<SchwartzRow<V>>, done: nat) {
    && done <= |rows|
    && Rearranges(origin, rows, inp)
    && multiset(rows) == multiset(inp)
    && (forall k, l :: 0 <= k < l < done ==> Before(leq, desc, rows[k], rows[l]))
    && (forall k :: 0 <= k < done ==> origin[k] < done)
    && (forall k :: done <= k < |rows| ==> origin[k] == k)
    && (forall k, l :: 0 <= k < l < done && KeyOf(rows[k]) == KeyOf(rows[l]) ==> origin[k] < origin[l])
  }

  /**
   * While the row that started at `done` sits at `j`: the other first `done + 1` rows
   * are in order among themselves, and every row after `j` strictly follows it.
   */
  ghost predicate InsertOrder<V>(leq: (V, V) -> bool, desc: bool, rows: seq<SchwartzRow<V>>, done: nat, j: nat) {
    && j <= done < |rows|
    && (forall k, l :: 0 <= k < l <= done && k != j && l != j ==> Before(leq, desc, rows[k], rows[l]))
    && (forall l :: j < l <= done ==> !Before(leq, desc, rows[l], rows[j]))
  }

  /**
   * ... and the origins still describe the rows: the moving row came from `done`, the
   * others from before it, and the others keep ties in their original order.
   */
  ghost predicate InsertOrigin<V>(rows: seq<SchwartzRow<V>>, origin: seq<nat>, inp: seq<SchwartzRow<V>>, done: nat, j: nat) {
    && Rearranges(origin, rows, inp)
    && multiset(rows) == multiset(inp)
    && OriginShape(rows, origin, done, j)
  }

  ghost predicate OriginShape<V>(rows: seq<SchwartzRow<V>>, origin: seq<nat>, done: nat, j: nat) {
    && j <= done < |rows| == |origin|
    && origin[j] == done
    && (forall k :: 0 <= k <= done && k != j ==> origin[k] < done)
    && (forall k :: done < k < |rows| ==> origin[k] == k)
    && (forall k, l :: 0 <= k < l <= done && k != j && l != j && KeyOf(rows[k]) == KeyOf(rows[l]) ==> origin[k] < origin[l])
  }

  ghost predicate Inserting<V>(leq: (V, V) -> bool, desc: bool, rows: seq<SchwartzRow<V>>, origin: seq<nat>, inp: seq<SchwartzRow<V>>, done: nat, j: nat) {
    InsertOrder(leq, desc, rows, done, j) && InsertOrigin(rows, origin, inp, done, j)
  }

  lemma StartInsert<V>(leq: (V, V) -> bool, desc: bool, rows: seq<SchwartzRow<V>>, origin: seq<nat>, inp: seq<SchwartzRow<V>>, done: nat)
    requires done < |rows| && SortedUpTo(leq, desc, rows, origin, inp, done)
    ensures Inserting(leq, desc, rows, origin, inp, done, done)
  {
  }

  /** Moving the row one place left past a row it strictly precedes keeps the order part. */
  lemma SwapOrder<V>(leq: (V, V) -> bool, desc: bool, rows: seq<SchwartzRow<V>>, done: nat, j: nat)
    requires InsertOrder(leq, desc, rows, done, j)
    requires 0 < j && !Before(leq, desc, rows[j - 1], rows[j])
    ensures InsertOrder(leq, desc, Swap(rows, j - 1, j), done, j - 1)
  {
    var r := Swap(rows, j - 1, j);
    forall k, l | 0 <= k < l <= done && k != j - 1 && l != j - 1 ensures Before(leq, desc, r[k], r[l]) {
      var k0 := if k == j then j - 1 else k;
      var l0 := if l == j then j - 1 else l;
      assert r[k] == rows[k0] && r[l] == rows[l0];
    }
  }

  /** ... and exchanging the two origins with them keeps the origin part. */
  lemma SwapShape<V>(rows: seq<SchwartzRow<V>>, origin: seq<nat>, done: nat, j: nat)
    requires OriginShape(rows, origin, done, j) && 0 < j
    ensures OriginShape(Swap(rows, j - 1, j), Swap(origin, j - 1, j), done, j - 1)
  {
    var r, o := Swap(rows, j - 1, j), Swap(origin, j - 1, j);
    forall k, l | 0 <= k < l <= done && k != j - 1 && l != j - 1 && KeyOf(r[k]) == KeyOf(r[l]) ensures o[k] < o[l] {
      var k0 := if k == j then j - 1 else k;
      var l0 := if l == j then j - 1 else l;
      assert r[k] == rows[k0] && r[l] == rows[l0] && o[k] == origin[k0] && o[l] == origin[l0];
    }
  }

  lemma SwapStep<V>(leq: (V, V) -> bool, desc: bool, rows: seq<SchwartzRow<V>>, origin: seq<nat>, inp: seq<SchwartzRow<V>>, done: nat, j: nat)
    requires Inserting(leq, desc, rows, origin, inp, done, j)
    requires 0 < j && !Before(leq, desc, rows[j - 1], rows[j])
    ensures Inserting(leq, desc, Swap(rows, j - 1, j), Swap(origin, j - 1, j), inp, done, j - 1)
  {
    SwapOrder(leq, desc, rows, done, j);
    SwapRearranges(origin, rows, inp, j - 1, j);
    SwapShape(rows, origin, done, j);
  }

  /** Once the row may follow its left neighbour, the first `done + 1` rows are in place. */
  lemma FinishInsert<V(!new)>(leq: (V, V) -> bool, desc: bool, rows: seq<SchwartzRow<V>>, origin: seq<nat>, inp: seq<SchwartzRow<V>>, done: nat, j: nat)
    requires TotalOrder(leq)
    requires Inserting(leq, desc, rows, origin, inp, done, j)
    requires j == 0 || Before(leq, desc, rows[j - 1], rows[j])
    ensures SortedUpTo(leq, desc, rows, origin, inp, done + 1)
  {
    forall k | 0 <= k < j ensures Before(leq, desc, rows[k], rows[j]) {
      if k < j - 1 {
        BeforeTransitive(leq, desc, rows[k], rows[j - 1], rows[j]);
      }
    }
    forall l | j < l <= done ensures Before(leq, desc, rows[j], rows[l]) && KeyOf(rows[j]) != KeyOf(rows[l]) {
      BeforeTotal(leq, desc, rows[l], rows[j]);
      if KeyOf(rows[j]) == KeyOf(rows[l]) {
        LexReflexive(leq, KeyOf(rows[j]));
      }
    }
  }

  /**
   * One step of the insertion sort: the row at `done` moves left past every row whose
   * key it strictly precedes, and stops at the first row it may follow.
   */
  method InsertRow<V(==, !new)>(a: array<SchwartzRow<V>>, leq: (V, V) -> bool, desc: bool, done: nat, ghost origin: seq<nat>, ghost inp: seq<SchwartzRow<V>>)
    returns (ghost origin': seq<nat>)
    requires TotalOrder(leq) && done < a.Length
    requires SortedUpTo(leq, desc, a[..], origin, inp, done)
    modifies a
    ensures SortedUpTo(leq, desc, a[..], origin', inp, done + 1)
  {
    origin' := origin;
    StartInsert(leq, desc, a[..], origin, inp, done);
    var j: nat := done;
    while j > 0 && !Before(leq, desc, a[j - 1], a[j])
      invariant Inserting(leq, desc, a[..], origin', inp, done, j)
    {
      ghost var before := a[..];
      SwapStep(leq, desc, before, origin', inp, done, j);
      a[j - 1], a[j] := a[j], a[j - 1];
      assert a[..] == Swap(before, j - 1, j);
      origin' := Swap(origin', j - 1, j);
      j := j - 1;
    }
    FinishInsert(leq, desc, a[..], origin', inp, done, j);
  }

  /**
   * `schwartz_rows.sort(key=..., reverse=desc)`: an insertion sort that moves a row
   * left only past rows whose key is strictly out of order with its own, so rows
   * with equal keys keep their order (`origin` records where each row came from).
   */
  method SortRows<V(==, !new)>(a: array<SchwartzRow<V>>, leq: (V, V) -> bool, desc: bool) returns (ghost origin: seq<nat>)
    requires TotalOrder(leq)
    modifies a
    ensures SortedRows(leq, desc, a[..])
    ensures Rearranges(origin, a[..], old(a[..])) && Stable(origin, a[..])
    ensures StableSortOf(leq, desc, a[..], old(a[..]))
    ensures multiset(a[..]) == multiset(old(a[..]))
  {
    ghost var input := a[..];
    origin := seq(a.Length, k => k);
    var i := 0;
    while i < a.Length
      invariant 0 <= i <= a.Length
      invariant SortedUpTo(leq, desc, a[..], origin, input, i)
    {
      origin := InsertRow(a, leq, desc, i, origin, input);
      i := i + 1;
    }
  }
}
