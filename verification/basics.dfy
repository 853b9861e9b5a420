/** Vocabulary shared by the store model and the browser-side helpers:
    an optional value, ASCII digits, and order-preserving sequence filters. */
module Basics {

  /** A value that may be absent: a JSON field that is missing or null. */
  datatype Option<T> = None | Some(value: T)

  /** `\d` of a JavaScript regular expression: the ten ASCII digits and nothing else. */
  predicate IsDigit(c: char) {
    '0' <= c <= '9'
  }

  /** `parseInt` of a one-digit string. */
  function DigitValue(c: char): (v: nat)
    requires IsDigit(c)
    ensures v <= 9
  {
    (c as int) - ('0' as int)
  }

  /** The character of a decimal digit: the inverse of `DigitValue`. */
  function DigitChar(v: nat): (c: char)
    requires v <= 9
    ensures IsDigit(c) && DigitValue(c) == v
  {
    ('0' as int + v) as char
  }

  predicate AllDigits(s: string) {
    forall i :: 0 <= i < |s| ==> IsDigit(s[i])
  }

  /** The elements of `xs` that satisfy `keep`, in their original order. */
  function Filter<T(!new)>(xs: seq<T>, keep: T -> bool): (r: seq<T>)
    ensures |r| <= |xs|
    ensures forall x :: x in r <==> x in xs && keep(x)
  {
    if |xs| == 0 then []
    else
      assert xs == [xs[0]] + xs[1..];
      if keep(xs[0]) then [xs[0]] + Filter(xs[1..], keep) else Filter(xs[1..], keep)
  }

  /** `rel` holds of every pair of elements in the order they appear. */
  ghost predicate Pairwise<T>(xs: seq<T>, rel: (T, T) -> bool) {
    forall i, j :: 0 <= i < j < |xs| ==> rel(xs[i], xs[j])
  }

  lemma PairwiseTail<T>(xs: seq<T>, rel: (T, T) -> bool)
    requires |xs| > 0 && Pairwise(xs, rel)
    ensures Pairwise(xs[1..], rel)
  {
    forall i, j | 0 <= i < j < |xs| - 1 ensures rel(xs[1..][i], xs[1..][j]) {
      assert xs[1..][i] == xs[i + 1] && xs[1..][j] == xs[j + 1];
    }
  }

  /** Two runs that are each ordered, and wholly ordered against each other, stay
      ordered when the second is appended to the first. */
  lemma PairwiseAppend<T>(xs: seq<T>, ys: seq<T>, rel: (T, T) -> bool)
    requires Pairwise(xs, rel) && Pairwise(ys, rel)
    requires forall i, j :: 0 <= i < |xs| && 0 <= j < |ys| ==> rel(xs[i], ys[j])
    ensures Pairwise(xs + ys, rel)
  {
    var zs := xs + ys;
    forall i, j | 0 <= i < j < |zs| ensures rel(zs[i], zs[j]) {
      if j < |xs| {
        assert zs[i] == xs[i] && zs[j] == xs[j];
      } else if i < |xs| {
        assert zs[i] == xs[i] && zs[j] == ys[j - |xs|];
      } else {
        assert zs[i] == ys[i - |xs|] && zs[j] == ys[j - |xs|];
      }
    }
  }

  /** Filtering keeps the survivors in their relative order, so any ordering or
      distinctness relation between earlier and later elements survives it. */
  lemma {:induction false} FilterKeepsPairwise<T(!new)>(xs: seq<T>, keep: T -> bool, rel: (T, T) -> bool)
    requires Pairwise(xs, rel)
    ensures Pairwise(Filter(xs, keep), rel)
  {
    if |xs| > 0 {
      var tail := xs[1..];
      PairwiseTail(xs, rel);
      FilterKeepsPairwise(tail, keep, rel);
      if keep(xs[0]) {
        var r := Filter(xs, keep);
        var rest := Filter(tail, keep);
        assert r == [xs[0]] + rest;
        forall i, j | 0 <= i < j < |r| ensures rel(r[i], r[j]) {
          if i == 0 {
            assert r[j] == rest[j - 1];
            assert r[j] in tail;
            var k :| 0 <= k < |tail| && tail[k] == r[j];
            assert xs[k + 1] == r[j];
          } else {
            assert r[i] == rest[i - 1] && r[j] == rest[j - 1];
          }
        }
      }
    }
  }

  /** The index of the first element satisfying `p`, or `|xs|` when there is none:
      the row a `fetchone()` returns. */
  function FirstIndex<T>(xs: seq<T>, p: T -> bool): (i: nat)
    ensures i <= |xs|
    ensures i < |xs| ==> p(xs[i])
    ensures forall j :: 0 <= j < i ==> !p(xs[j])
  {
    if |xs| == 0 then 0
    else if p(xs[0]) then 0
    else 1 + FirstIndex(xs[1..], p)
  }

  /** Two predicates that agree on every element select the same first index. */
  lemma FirstIndexAgrees<T>(xs: seq<T>, ys: seq<T>, p: T -> bool, q: T -> bool)
    requires |xs| == |ys|
    requires forall j :: 0 <= j < |xs| ==> (p(xs[j]) <==> q(ys[j]))
    ensures FirstIndex(xs, p) == FirstIndex(ys, q)
  {
  }
}
