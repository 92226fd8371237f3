/** Sequence helpers shared by both pipelines: membership, prefixes taken up to a
    limit, and order-preserving de-duplication (the "seen set plus output list"
    idiom used whenever the crawler uniquifies URLs). */
module Seqs {

  /* The de-duplication helpers are stated for sequences of strings, the only
     element type the crawler and the tokenizer de-duplicate. */

  /** No element occurs twice. */
  ghost predicate Distinct(s: seq<string>) {
    forall i, j :: 0 <= i < j < |s| ==> s[i] != s[j]
  }

  /** The set of the elements of a sequence. */
  function Elems(s: seq<string>): set<string> {
    set x | x in s
  }

  /** A prefix one longer is the prefix and the next element. */
  lemma TakeSnoc<T>(xs: seq<T>, j: nat)
    requires j < |xs|
    ensures xs[..j + 1] == xs[..j] + [xs[j]]
  {
  }

  lemma ElemsSnoc(s: seq<string>, x: string)
    ensures Elems(s + [x]) == Elems(s) + {x}
  {
  }

  /** The first `n` elements of `s` (all of them when `s` is shorter, none when
      `n <= 0`), as Python's `s[:n]` for the non-negative `n` that occurs. */
  function Take<T>(s: seq<T>, n: int): (r: seq<T>)
    ensures |r| <= |s| && r == s[..|r|]
    ensures n >= 0 ==> |r| <= n
    ensures n > 0 && |s| >= n ==> |r| == n
    ensures |s| <= n ==> r == s
  {
    if n <= 0 then [] else if |s| <= n then s else s[..n]
  }

  /** Appends to `acc`, in order, every element of `xs` not already present:
      `acc` plays the role of both the `seen` set and the output list. */
  function Dedup(acc: seq<string>, xs: seq<string>): seq<string>
    decreases |xs|
  {
    if xs == [] then acc
    else Dedup(if xs[0] in acc then acc else acc + [xs[0]], xs[1..])
  }

  /** The elements of `xs` in first-seen order, each once. */
  function Unique(xs: seq<string>): seq<string> {
    Dedup([], xs)
  }

  /** Index of the first occurrence of `x` in `s`. */
  function FirstIndex(s: seq<string>, x: string): (i: nat)
    requires x in s
    ensures i < |s| && s[i] == x && x !in s[..i]
  {
    if s[0] == x then 0 else 1 + FirstIndex(s[1..], x)
  }

  /** `a` is a (not necessarily contiguous) order-preserving subsequence of `b`. */
  ghost predicate SubsequenceOf(a: seq<string>, b: seq<string>) {
    exists idx: seq<nat> ::
      |idx| == |a|
      && (forall k :: 0 <= k < |idx| ==> idx[k] < |b| && b[idx[k]] == a[k])
      && (forall k, l :: 0 <= k < l < |idx| ==> idx[k] < idx[l])
  }

  /** An index list witnessing the subsequence relation. */
  lemma SubsequenceWitness(a: seq<string>, b: seq<string>, idx: seq<nat>)
    requires |idx| == |a|
    requires forall k :: 0 <= k < |idx| ==> idx[k] < |b| && b[idx[k]] == a[k]
    requires forall k, l :: 0 <= k < l < |idx| ==> idx[k] < idx[l]
    ensures SubsequenceOf(a, b)
  {
  }

  /** A prefix of a subsequence is a subsequence. */
  lemma SubsequencePrefix(a: seq<string>, b: seq<string>, n: nat)
    requires n <= |a| && SubsequenceOf(a, b)
    ensures SubsequenceOf(a[..n], b)
  {
    var idx: seq<nat> :| |idx| == |a|
      && (forall k :: 0 <= k < |idx| ==> idx[k] < |b| && b[idx[k]] == a[k])
      && (forall k, l :: 0 <= k < l < |idx| ==> idx[k] < idx[l]);
    SubsequenceWitness(a[..n], b, idx[..n]);
  }

  lemma {:induction false} DedupExtends(acc: seq<string>, xs: seq<string>)
    ensures |acc| <= |Dedup(acc, xs)| && Dedup(acc, xs)[..|acc|] == acc
    decreases |xs|
  {
    if xs != [] {
      var acc' := if xs[0] in acc then acc else acc + [xs[0]];
      DedupExtends(acc', xs[1..]);
      assert acc'[..|acc|] == acc;
    }
  }

  lemma {:induction false} DedupConcat(acc: seq<string>, a: seq<string>, b: seq<string>)
    ensures Dedup(acc, a + b) == Dedup(Dedup(acc, a), b)
    decreases |a|
  {
    if a == [] {
      assert a + b == b;
    } else {
      assert (a + b)[0] == a[0];
      assert (a + b)[1..] == a[1..] + b;
      DedupConcat(if a[0] in acc then acc else acc + [a[0]], a[1..], b);
    }
  }

  lemma {:induction false} DedupElems(acc: seq<string>, xs: seq<string>)
    ensures Elems(Dedup(acc, xs)) == Elems(acc) + Elems(xs)
    decreases |xs|
  {
    if xs != [] {
      var acc' := if xs[0] in acc then acc else acc + [xs[0]];
      DedupElems(acc', xs[1..]);
      assert xs == [xs[0]] + xs[1..];
      assert Elems(xs) == {xs[0]} + Elems(xs[1..]);
      assert Elems(acc') == Elems(acc) + {xs[0]};
    }
  }

  lemma {:induction false} DedupDistinct(acc: seq<string>, xs: seq<string>)
    requires Distinct(acc)
    ensures Distinct(Dedup(acc, xs))
    decreases |xs|
  {
    if xs != [] {
      var acc' := if xs[0] in acc then acc else acc + [xs[0]];
      assert Distinct(acc');
      DedupDistinct(acc', xs[1..]);
    }
  }

  /** Uniquifying one more element keeps the earlier result and appends the new
      element exactly when it was not seen before. */
  lemma UniqueSnoc(xs: seq<string>, x: string)
    ensures x in xs ==> Unique(xs + [x]) == Unique(xs)
    ensures x !in xs ==> Unique(xs + [x]) == Unique(xs) + [x]
  {
    DedupConcat([], xs, [x]);
    DedupElems([], xs);
    assert Elems(Unique(xs)) == Elems(xs);
    assert (x in Unique(xs)) == (x in xs) by {
      assert x in Unique(xs) <==> x in Elems(Unique(xs));
    }
  }

  /** `Unique(xs)` holds each element of `xs` once, nothing else, in the order of
      first occurrence in `xs`. */
  lemma {:induction false} UniqueSpec(xs: seq<string>)
    ensures Distinct(Unique(xs))
    ensures forall x :: x in Unique(xs) <==> x in xs
    ensures forall i, j :: 0 <= i < j < |Unique(xs)| ==>
              FirstIndex(xs, Unique(xs)[i]) < FirstIndex(xs, Unique(xs)[j])
    decreases |xs|
  {
    if xs != [] {
      var pre, x := xs[..|xs| - 1], xs[|xs| - 1];
      assert xs == pre + [x];
      UniqueSpec(pre);
      UniqueSnoc(pre, x);
      var u, r := Unique(pre), Unique(xs);
      forall y | y in pre
        ensures FirstIndex(xs, y) == FirstIndex(pre, y)
      {
        FirstIndexPrefix(pre, [x], y);
      }
      if x !in pre {
        assert r == u + [x];
        assert FirstIndex(xs, x) == |pre| by {
          assert xs[FirstIndex(xs, x)] == x;
        }
        forall i, j | 0 <= i < j < |r|
          ensures FirstIndex(xs, r[i]) < FirstIndex(xs, r[j])
        {
          assert r[i] == u[i] && u[i] in Unique(pre);
          assert r[i] in pre;
          if j < |u| {
            assert r[j] == u[j] && u[j] in Unique(pre);
          } else {
            assert r[j] == x;
          }
        }
      }
    }
  }

  lemma {:induction false} FirstIndexPrefix(a: seq<string>, b: seq<string>, y: string)
    requires y in a
    ensures FirstIndex(a + b, y) == FirstIndex(a, y)
    decreases |a|
  {
    if a[0] != y {
      assert (a + b)[1..] == a[1..] + b;
      FirstIndexPrefix(a[1..], b, y);
    }
  }

  /** The elements of `xs` satisfying `p`, in order (a list comprehension with
      an `if`). */
  function Filter(p: string -> bool, xs: seq<string>): (r: seq<string>)
    ensures |r| <= |xs|
    decreases |xs|
  {
    if xs == [] then []
    else
      var pre := Filter(p, xs[..|xs| - 1]);
      if p(xs[|xs| - 1]) then pre + [xs[|xs| - 1]] else pre
  }

  /** Filtering one more element. */
  lemma FilterSnoc(p: string -> bool, xs: seq<string>, x: string)
    ensures p(x) ==> Filter(p, xs + [x]) == Filter(p, xs) + [x]
    ensures !p(x) ==> Filter(p, xs + [x]) == Filter(p, xs)
  {
    assert (xs + [x])[..|xs|] == xs;
  }

  lemma AppendAssoc(a: seq<string>, b: seq<string>, c: seq<string>)
    ensures a + b + c == a + (b + c)
  {
  }

  /** The loop that appends each element of `xs` satisfying `p`. */
  method Select(p: string -> bool, xs: seq<string>) returns (ys: seq<string>)
    ensures ys == Filter(p, xs)
  {
    ys := [];
    var i := 0;
    while i < |xs|
      invariant 0 <= i <= |xs|
      invariant ys == Filter(p, xs[..i])
    {
      TakeSnoc(xs, i);
      FilterSnoc(p, xs[..i], xs[i]);
      if p(xs[i]) {
        ys := ys + [xs[i]];
      }
      i := i + 1;
    }
    assert xs[..i] == xs;
  }
  /** Exactly the elements of `xs` satisfying `p` survive. */
  lemma {:induction false} FilterMembers(p: string -> bool, xs: seq<string>)
    ensures forall x :: x in Filter(p, xs) <==> x in xs && p(x)
    decreases |xs|
  {
    if xs != [] {
      var pre := xs[..|xs| - 1];
      FilterMembers(p, pre);
      assert xs == pre + [xs[|xs| - 1]];
    }
  }

  /** Uniquifying a longer list only appends to the shorter one's result. */
  lemma UniquePrefix(xs: seq<string>, ys: seq<string>)
    ensures |Unique(xs)| <= |Unique(xs + ys)|
    ensures Unique(xs + ys)[..|Unique(xs)|] == Unique(xs)
  {
    DedupConcat([], xs, ys);
    DedupExtends(Unique(xs), ys);
  }

  /** Cutting an extension of `a` at `n` gives the same as cutting `a`, once
      `a` already reaches `n`. */
  lemma TakePrefix<T>(a: seq<T>, b: seq<T>, n: int)
    requires |a| <= |b| && b[..|a|] == a && |a| >= n
    ensures Take(a, n) == Take(b, n)
  {
    if n > 0 {
      assert b[..n] == a[..n];
    }
  }

  /** Filtering keeps every copy of a kept element and no copy of the others. */
  lemma {:induction false} FilterMultiset(p: string -> bool, xs: seq<string>, x: string)
    ensures multiset(Filter(p, xs))[x] == if p(x) then multiset(xs)[x] else 0
    decreases |xs|
  {
    if xs != [] {
      var pre := xs[..|xs| - 1];
      FilterMultiset(p, pre, x);
      assert xs == pre + [xs[|xs| - 1]];
    }
  }
}
