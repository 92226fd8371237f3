/** Python's ordering of `str` values and `sorted` applied to a set of strings,
    as used by task2/tokens_lemmas.py for tokens, lemmas and groups. */
module Order {
  import opened Seqs

  /** `a < b` on Python strings: code-point lexicographic order, a proper
      prefix coming first. */
  predicate Less(a: string, b: string)
    decreases |a|
  {
    if a == [] then b != []
    else b != [] && (a[0] < b[0] || (a[0] == b[0] && Less(a[1..], b[1..])))
  }

  lemma {:induction false} LessIrreflexive(a: string)
    ensures !Less(a, a)
    decreases |a|
  {
    if a != [] {
      LessIrreflexive(a[1..]);
    }
  }

  lemma {:induction false} LessTransitive(a: string, b: string, c: string)
    requires Less(a, b) && Less(b, c)
    ensures Less(a, c)
    decreases |a|
  {
    if a != [] && a[0] == b[0] && b[0] == c[0] {
      LessTransitive(a[1..], b[1..], c[1..]);
    }
  }

  /** Any two different strings are ordered one way or the other. */
  lemma {:induction false} LessTotal(a: string, b: string)
    requires a != b
    ensures Less(a, b) || Less(b, a)
    decreases |a|
  {
    if a != [] && b != [] && a[0] == b[0] {
      assert a == [a[0]] + a[1..] && b == [b[0]] + b[1..];
      LessTotal(a[1..], b[1..]);
    }
  }

  lemma LessAsymmetric(a: string, b: string)
    requires Less(a, b)
    ensures !Less(b, a)
  {
    if Less(b, a) {
      LessTransitive(a, b, a);
      LessIrreflexive(a);
    }
  }

  /** Each element is smaller than every later one (so none repeats). */
  predicate StrictlySorted(xs: seq<string>) {
    forall i, j :: 0 <= i < j < |xs| ==> Less(xs[i], xs[j])
  }

  /** `m` is the smallest element of `s`. */
  predicate IsMinimum(m: string, s: set<string>) {
    m in s && forall y | y in s :: y == m || Less(m, y)
  }

  /** Every non-empty finite set of strings has a smallest element. */
  lemma {:induction false} MinimumExists(s: set<string>) returns (m: string)
    requires s != {}
    ensures IsMinimum(m, s)
    decreases |s|
  {
    var x :| x in s;
    if s == {x} {
      return x;
    }
    var m' := MinimumExists(s - {x});
    if Less(x, m') {
      forall y | y in s ensures y == x || Less(x, y) {
        if y != x && y != m' {
          LessTransitive(x, m', y);
        }
      }
      m := x;
    } else {
      if x != m' {
        LessTotal(x, m');
      }
      m := m';
    }
  }

  /** A set has at most one smallest element. */
  lemma MinimumUnique(s: set<string>)
    ensures forall m, m' :: IsMinimum(m, s) && IsMinimum(m', s) ==> m == m'
  {
    forall m, m' | IsMinimum(m, s) && IsMinimum(m', s) ensures m == m' {
      if m != m' {
        LessAsymmetric(m, m');
      }
    }
  }

  lemma SortedCons(m: string, s: set<string>, rest: seq<string>)
    requires IsMinimum(m, s)
    requires |rest| == |s - {m}| && Elems(rest) == s - {m} && StrictlySorted(rest)
    ensures |[m] + rest| == |s| && Elems([m] + rest) == s && StrictlySorted([m] + rest)
  {
    assert forall j :: 0 <= j < |rest| ==> rest[j] in Elems(rest);
    assert Elems([m] + rest) == {m} + Elems(rest);
  }

  /** `sorted(s)` for a set of strings. */
  function SortedOf(s: set<string>): (r: seq<string>)
    ensures |r| == |s| && Elems(r) == s
    ensures StrictlySorted(r)
    decreases |s|
  {
    if s == {} then []
    else
      assert exists m :: IsMinimum(m, s) by {
        var m := MinimumExists(s);
      }
      MinimumUnique(s);
      var m :| m in s && IsMinimum(m, s);
      var rest := SortedOf(s - {m});
      SortedCons(m, s, rest);
      [m] + rest
  }

  /** There is only one strictly sorted list of the elements of a set: any
      list that is strictly sorted and holds exactly `s` is `sorted(s)`. */
  lemma {:induction false} SortedOfUnique(xs: seq<string>, s: set<string>)
    requires StrictlySorted(xs) && Elems(xs) == s
    ensures xs == SortedOf(s)
    decreases |xs|
  {
    var r := SortedOf(s);
    if xs != [] {
      assert xs[0] in Elems(r);
      var m := r[0];
      assert m in Elems(xs);
      var i :| 0 <= i < |xs| && xs[i] == m;
      var j :| 0 <= j < |r| && r[j] == xs[0];
      if i != 0 {
        assert Less(xs[0], m);
        if j != 0 {
          assert Less(m, xs[0]);
          LessAsymmetric(m, xs[0]);
        }
      }
      assert xs[0] == m;
      var s' := s - {m};
      assert Elems(xs[1..]) == s' by {
        forall y | y in xs[1..] ensures y != m {
          var k :| 1 <= k < |xs| && xs[k] == y;
          assert Less(xs[0], xs[k]);
          LessIrreflexive(m);
        }
        assert xs == [xs[0]] + xs[1..];
      }
      SortedOfUnique(xs[1..], s');
      MinimumUnique(s);
    }
  }
}
