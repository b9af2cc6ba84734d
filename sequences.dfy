/**
 * Sequence operations shared by the entry filter and the result post-processor:
 * filtering by a predicate (a list comprehension with an `if`), keeping the first
 * occurrence of each element and Python's prefix slice `s[:n]`.
 */
module Sequences {

  /** `r` can be obtained from `s` by deleting elements. */
  ghost predicate IsSubsequence<X>(r: seq<X>, s: seq<X>)
    decreases |s|
  {
    if r == [] then true
    else if s == [] then false
    else (r[|r| - 1] == s[|s| - 1] && IsSubsequence(r[..|r| - 1], s[..|s| - 1]))
         || IsSubsequence(r, s[..|s| - 1])
  }

  /** No element occurs twice. */
  predicate Distinct<X(==)>(s: seq<X>) {
    forall i, j :: 0 <= i < j < |s| ==> s[i] != s[j]
  }

  /** Index of the first occurrence of `x` in `s`. */
  function IndexOf<X(==)>(s: seq<X>, x: X): (k: nat)
    requires x in s
    ensures k < |s| && s[k] == x && x !in s[..k]
  {
    if s[0] == x then 0 else 1 + IndexOf(s[1..], x)
  }

  /** `[x for x in xs if p(x)]` */
  function Keep<X>(p: X -> bool, xs: seq<X>): (r: seq<X>)
  {
    if xs == [] then []
    else
      var init := Keep(p, xs[..|xs| - 1]);
      if p(xs[|xs| - 1]) then init + [xs[|xs| - 1]] else init
  }

  /** Each value occurs in the result exactly as often as in `xs` if it satisfies `p`, and never otherwise. */
  lemma {:induction false} KeepCount<X>(p: X -> bool, xs: seq<X>)
    ensures forall x :: multiset(Keep(p, xs))[x] == if p(x) then multiset(xs)[x] else 0
  {
    if xs != [] {
      var init, last := xs[..|xs| - 1], xs[|xs| - 1];
      KeepCount(p, init);
      assert xs == init + [last];
    }
  }

  /** The kept elements appear in their original order. */
  lemma {:induction false} KeepIsSubsequence<X>(p: X -> bool, xs: seq<X>)
    ensures IsSubsequence(Keep(p, xs), xs)
  {
    if xs != [] {
      var init := xs[..|xs| - 1];
      KeepIsSubsequence(p, init);
      var r := Keep(p, xs);
      if p(xs[|xs| - 1]) {
        assert r[..|r| - 1] == Keep(p, init);
      }
    }
  }

  /** Every element in the result satisfies `p`, and the result is never longer than `xs`. */
  lemma {:induction false} KeepSound<X>(p: X -> bool, xs: seq<X>)
    ensures |Keep(p, xs)| <= |xs|
    ensures forall i :: 0 <= i < |Keep(p, xs)| ==> p(Keep(p, xs)[i])
  {
    if xs != [] {
      KeepSound(p, xs[..|xs| - 1]);
    }
  }

  /** Filtering distributes over concatenation. */
  lemma {:induction false} KeepAppend<X>(p: X -> bool, xs: seq<X>, ys: seq<X>)
    ensures Keep(p, xs + ys) == Keep(p, xs) + Keep(p, ys)
    decreases |ys|
  {
    if ys == [] {
      assert xs + ys == xs;
    } else {
      var ys' := ys[..|ys| - 1];
      KeepAppend(p, xs, ys');
      assert (xs + ys)[..|xs + ys| - 1] == xs + ys';
    }
  }

  /** Filtering with a predicate every element satisfies changes nothing. */
  lemma {:induction false} KeepAll<X>(p: X -> bool, xs: seq<X>)
    requires forall i :: 0 <= i < |xs| ==> p(xs[i])
    ensures Keep(p, xs) == xs
  {
    if xs != [] {
      KeepAll(p, xs[..|xs| - 1]);
    }
  }

  /** The first occurrence of every element of `s`, in the order of first occurrence. */
  function Dedup<X(==)>(s: seq<X>): (r: seq<X>)
  {
    if s == [] then []
    else
      var init := Dedup(s[..|s| - 1]);
      if s[|s| - 1] in init then init else init + [s[|s| - 1]]
  }

  /**
   * Dedup keeps exactly the elements of `s`, each once, never more rows than `s` has,
   * and orders them by where they first occur in `s`.
   */
  lemma {:induction false} DedupSpec<X>(s: seq<X>)
    ensures forall x :: x in Dedup(s) <==> x in s
    ensures Distinct(Dedup(s))
    ensures |Dedup(s)| <= |s|
    ensures forall i, j :: 0 <= i < j < |Dedup(s)| ==> IndexOf(s, Dedup(s)[i]) < IndexOf(s, Dedup(s)[j])
  {
    if s != [] {
      var init, last := s[..|s| - 1], s[|s| - 1];
      DedupSpec(init);
      assert s == init + [last];
      forall y | y in init ensures IndexOf(s, y) == IndexOf(init, y) {
        IndexOfPrefix(init, [last], y);
      }
      if last !in init {
        var r := Dedup(s);
        assert IndexOf(s, last) == |init| by {
          assert s[..|init|] == init;
        }
        forall i | 0 <= i < |r| - 1 ensures IndexOf(s, r[i]) < |init| {
          assert r[i] == Dedup(init)[i];
        }
      }
    }
  }

  /** Every element Dedup keeps comes from `s`. */
  lemma DedupMember<X>(s: seq<X>, i: nat)
    requires i < |Dedup(s)|
    ensures Dedup(s)[i] in s
  {
    DedupSpec(s);
    assert Dedup(s)[i] in Dedup(s);
  }

  lemma {:induction false} IndexOfPrefix<X>(s: seq<X>, t: seq<X>, x: X)
    requires x in s
    ensures IndexOf(s + t, x) == IndexOf(s, x)
  {
    if s[0] != x {
      assert (s + t)[1..] == s[1..] + t;
      IndexOfPrefix(s[1..], t, x);
    }
  }

  /** The deduplicated rows appear in `s` in the same order. */
  lemma {:induction false} DedupIsSubsequence<X>(s: seq<X>)
    ensures IsSubsequence(Dedup(s), s)
  {
    if s != [] {
      var init := s[..|s| - 1];
      DedupIsSubsequence(init);
      var r := Dedup(s);
      if s[|s| - 1] !in Dedup(init) {
        assert r[..|r| - 1] == Dedup(init);
      }
    }
  }

  /** A sequence without repetitions is its own deduplication (so Dedup is idempotent). */
  lemma {:induction false} DedupOfDistinct<X>(s: seq<X>)
    requires Distinct(s)
    ensures Dedup(s) == s
  {
    if s != [] {
      var init := s[..|s| - 1];
      DedupOfDistinct(init);
    }
  }

  /** Python's slice `s[:limit]`: a negative limit counts from the end. */
  function Take<X>(s: seq<X>, limit: int): (r: seq<X>)
    ensures |r| <= |s| && r == s[..|r|]
    ensures limit >= 0 ==> |r| == if limit <= |s| then limit else |s|
    ensures limit < 0 ==> |r| == if -limit <= |s| then |s| + limit else 0
  {
    if limit >= 0 then (if limit <= |s| then s[..limit] else s)
    else (if -limit <= |s| then s[..|s| + limit] else [])
  }

  /** A prefix of a sequence without repetitions has none either. */
  lemma PrefixDistinct<X>(s: seq<X>, n: nat)
    requires Distinct(s) && n <= |s|
    ensures Distinct(s[..n])
  {
  }
}
