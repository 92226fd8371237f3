/** Character classes, case mapping, white-space stripping, substring search,
    joining and decimal formatting: the small pieces of Python's `str` that
    both pipelines rely on. */
module Strings {

  predicate IsAsciiDigit(c: char) {
    '0' <= c <= '9'
  }

  /** A lower-case letter of the Russian alphabet: а..я or ё (the class `[а-яё]`). */
  predicate IsCyrillicLower(c: char) {
    '\U{0430}' <= c <= '\U{044F}' || c == '\U{0451}'
  }

  predicate AllCyrillicLower(s: string) {
    forall i :: 0 <= i < |s| ==> IsCyrillicLower(s[i])
  }

  /** Python's `str.lower` on one character, for ASCII A..Z, Cyrillic А..Я and
      Ѐ..Џ (which holds Ё); every other character is kept. */
  function LowerChar(c: char): (d: char)
    ensures IsCyrillicLower(c) ==> d == c
    ensures 'A' <= c <= 'Z' ==> 'a' <= d <= 'z'
    ensures !('A' <= c <= 'Z') && !('\U{0400}' <= c <= '\U{042F}') ==> d == c
  {
    if 'A' <= c <= 'Z' then (c as int + 32) as char
    else if '\U{0410}' <= c <= '\U{042F}' then (c as int + 32) as char
    else if '\U{0400}' <= c <= '\U{040F}' then (c as int + 80) as char
    else c
  }

  function Lower(s: string): (r: string)
    ensures |r| == |s|
    ensures forall i :: 0 <= i < |s| ==> r[i] == LowerChar(s[i])
  {
    seq(|s|, i requires 0 <= i < |s| => LowerChar(s[i]))
  }

  /** Lower-casing a character twice changes nothing more than once. */
  lemma LowerCharIdempotent(c: char)
    ensures LowerChar(LowerChar(c)) == LowerChar(c)
  {
  }

  lemma LowerIdempotent(s: string)
    ensures Lower(Lower(s)) == Lower(s)
  {
    forall i | 0 <= i < |s| ensures Lower(Lower(s))[i] == Lower(s)[i] {
      LowerCharIdempotent(s[i]);
    }
  }

  /** Every Cyrillic capital of the Russian alphabet lands on its small letter,
      Ё on ё. */
  lemma LowerMapsRussianCapitals(c: char)
    requires '\U{0410}' <= c <= '\U{042F}' || c == '\U{0401}'
    ensures IsCyrillicLower(LowerChar(c))
  {
  }

  predicate StartsWith(s: string, p: string) {
    |p| <= |s| && s[..|p|] == p
  }

  lemma SplitAt(s: string, k: nat)
    requires k <= |s|
    ensures s == s[..k] + s[k..]
  {
  }

  lemma SplitAround(s: string, k: nat)
    requires k < |s|
    ensures s == s[..k] + [s[k]] + s[k + 1..]
  {
  }

  lemma SliceAround(s: string, i: nat, a: nat, e: nat)
    requires i <= a < e <= |s|
    ensures s[i..e] == s[i..a] + [s[a]] + s[a + 1..e]
  {
  }

  /** A string that differs from `p` at some position of `p` does not start
      with `p`. */
  lemma NotStartsWithAt(s: string, p: string, k: nat)
    requires k < |p| && (k >= |s| || s[k] != p[k])
    ensures !StartsWith(s, p)
  {
    if |p| <= |s| {
      assert s[..|p|][k] == s[k];
    }
  }

  /** Python's `p in s` for strings. */
  predicate Contains(s: string, p: string)
    decreases |s|
  {
    StartsWith(s, p) || (s != [] && Contains(s[1..], p))
  }

  /** `p` occurs in `s` starting at index `i`. */
  ghost predicate OccursAt(s: string, p: string, i: int) {
    0 <= i <= |s| - |p| && s[i..i + |p|] == p
  }

  /** The scanning definition of `Contains` agrees with "some slice of `s`
      equals `p`". */
  lemma {:induction false} ContainsIff(s: string, p: string)
    ensures Contains(s, p) <==> exists i :: OccursAt(s, p, i)
    decreases |s|
  {
    if StartsWith(s, p) {
      assert OccursAt(s, p, 0);
    }
    if s != [] {
      ContainsIff(s[1..], p);
      if Contains(s[1..], p) {
        var i :| OccursAt(s[1..], p, i);
        assert s[i + 1..i + 1 + |p|] == s[1..][i..i + |p|];
        assert OccursAt(s, p, i + 1);
      }
      if i :| OccursAt(s, p, i) && i > 0 {
        assert s[1..][i - 1..i - 1 + |p|] == s[i..i + |p|];
        assert OccursAt(s[1..], p, i - 1);
      }
    }
  }

  /** Python's `sep.join(xs)`. */
  function Join(xs: seq<string>, sep: string): string
    decreases |xs|
  {
    if xs == [] then "" else if |xs| == 1 then xs[0] else xs[0] + sep + Join(xs[1..], sep)
  }

  /** Every line followed by a newline: what a loop of `f.write(x + "\n")` produces. */
  function NewlineTerminated(xs: seq<string>): string
    decreases |xs|
  {
    if xs == [] then "" else xs[0] + "\n" + NewlineTerminated(xs[1..])
  }

  /** A file written one line at a time, each line followed by a newline. */
  method WriteLines(lines: seq<string>) returns (text: string)
    ensures text == NewlineTerminated(lines)
  {
    text := "";
    var i := 0;
    while i < |lines|
      invariant 0 <= i <= |lines|
      invariant text == NewlineTerminated(lines[..i])
    {
      NewlineTerminatedNext(lines, i);
      text := text + lines[i] + "\n";
      i := i + 1;
    }
    assert lines[..i] == lines;
  }

  /** Writing one more line of `lines`. */
  lemma NewlineTerminatedNext(lines: seq<string>, i: nat)
    requires i < |lines|
    ensures NewlineTerminated(lines[..i + 1]) == NewlineTerminated(lines[..i]) + lines[i] + "\n"
  {
    NewlineTerminatedSnoc(lines[..i], lines[i]);
    assert lines[..i + 1] == lines[..i] + [lines[i]];
  }

  /** `"\n".join(lines) + ("\n" if lines else "")` is the same text as writing
      each line with its own newline. */
  lemma {:induction false} JoinWithTrailingNewline(xs: seq<string>)
    ensures Join(xs, "\n") + (if xs != [] then "\n" else "") == NewlineTerminated(xs)
    decreases |xs|
  {
    if |xs| > 1 {
      JoinWithTrailingNewline(xs[1..]);
      assert xs[1..] != [];
    } else if |xs| == 1 {
      assert xs[1..] == [];
    }
  }

  function DigitChar(d: nat): (c: char)
    requires d < 10
    ensures IsAsciiDigit(c)
  {
    ('0' as int + d) as char
  }

  /** Python's `f"{n}"` for a non-negative integer. */
  function Decimal(n: nat): (r: string)
    ensures |r| > 0
    ensures forall i :: 0 <= i < |r| ==> IsAsciiDigit(r[i])
    ensures n > 0 ==> r[0] != '0'
    ensures n < 10 <==> |r| == 1
  {
    if n < 10 then [DigitChar(n)] else Decimal(n / 10) + [DigitChar(n % 10)]
  }

  /** The value of a string of decimal digits, read most significant first. */
  function DecimalValue(s: string): nat
    requires forall i :: 0 <= i < |s| ==> IsAsciiDigit(s[i])
  {
    if s == [] then 0
    else 10 * DecimalValue(s[..|s| - 1]) + DigitValue(s[|s| - 1])
  }

  function DigitValue(c: char): (d: nat)
    requires IsAsciiDigit(c)
    ensures d < 10 && DigitChar(d) == c
  {
    c as int - '0' as int
  }

  /** Decimal formatting is reversible: reading the digits back gives `n`. */
  lemma {:induction false} DecimalRoundTrip(n: nat)
    ensures DecimalValue(Decimal(n)) == n
  {
    if n >= 10 {
      DecimalRoundTrip(n / 10);
      var r := Decimal(n);
      assert r[..|r| - 1] == Decimal(n / 10);
    }
  }

  /** Writing one more line appends it and its newline. */
  lemma {:induction false} NewlineTerminatedSnoc(xs: seq<string>, x: string)
    ensures NewlineTerminated(xs + [x]) == NewlineTerminated(xs) + x + "\n"
    decreases |xs|
  {
    if xs == [] {
      assert [x][1..] == [];
    } else {
      assert (xs + [x])[1..] == xs[1..] + [x];
      NewlineTerminatedSnoc(xs[1..], x);
    }
  }

  /** Index of the first `c` in `s`, or `|s|` when there is none
      (`s.find(c)` with "not found" read as the length). */
  function Find(s: string, c: char): (i: nat)
    ensures i <= |s| && c !in s[..i]
    ensures i < |s| ==> s[i] == c
    decreases |s|
  {
    if s == [] || s[0] == c then 0
    else
      var j := Find(s[1..], c);
      assert s[..j + 1] == [s[0]] + s[1..][..j];
      j + 1
  }

  /** Index of the last `c` in `s`, or -1 (`s.rfind(c)`). */
  function RFind(s: string, c: char): (i: int)
    ensures -1 <= i < |s|
    ensures i >= 0 ==> s[i] == c
    ensures forall j :: i < j < |s| ==> s[j] != c
    decreases |s|
  {
    if s == [] then -1
    else if s[|s| - 1] == c then |s| - 1
    else RFind(s[..|s| - 1], c)
  }

  /** The lines of a text, as reading it line by line and dropping each
      newline gives them. */
  function SplitLines(s: string): seq<string>
    decreases |s|
  {
    if s == [] then []
    else
      var i := Find(s, '\n');
      [s[..i]] + (if i < |s| then SplitLines(s[i + 1..]) else [])
  }

  lemma {:induction false} FindAfter(a: string, c: char, b: string)
    requires c !in a
    ensures Find(a + [c] + b, c) == |a|
    decreases |a|
  {
    if a != [] {
      assert (a + [c] + b)[1..] == a[1..] + [c] + b;
      assert a[0] in a;
      FindAfter(a[1..], c, b);
    }
  }

  /** Reading back a file written one line at a time gives back the lines,
      provided none of them holds a newline. */
  lemma {:induction false} SplitNewlineTerminated(xs: seq<string>)
    requires forall k :: 0 <= k < |xs| ==> '\n' !in xs[k]
    ensures SplitLines(NewlineTerminated(xs)) == xs
    decreases |xs|
  {
    if xs != [] {
      var rest := NewlineTerminated(xs[1..]);
      var s := NewlineTerminated(xs);
      FindAfter(xs[0], '\n', rest);
      assert s == xs[0] + ['\n'] + rest;
      assert s[..|xs[0]|] == xs[0];
      assert s[|xs[0]| + 1..] == rest;
      SplitNewlineTerminated(xs[1..]);
    }
  }

  /** Python's `s.split(c)` for a one-character separator. */
  function Split(s: string, c: char): (r: seq<string>)
    ensures r != []
    decreases |s|
  {
    var i := Find(s, c);
    if i == |s| then [s] else [s[..i]] + Split(s[i + 1..], c)
  }

  lemma FindAbsent(s: string, c: char)
    requires c !in s
    ensures Find(s, c) == |s|
  {
  }

  /** Splitting a joined list on its separator gives the list back, provided
      no element holds the separator. */
  lemma {:induction false} SplitJoin(xs: seq<string>, c: char)
    requires xs != [] && forall k :: 0 <= k < |xs| ==> c !in xs[k]
    ensures Split(Join(xs, [c]), c) == xs
    decreases |xs|
  {
    if |xs| == 1 {
      FindAbsent(xs[0], c);
    } else {
      var rest := Join(xs[1..], [c]);
      var s := Join(xs, [c]);
      assert s == xs[0] + [c] + rest;
      FindAfter(xs[0], c, rest);
      assert s[..|xs[0]|] == xs[0];
      assert s[|xs[0]| + 1..] == rest;
      SplitJoin(xs[1..], c);
    }
  }

  // ---- str.strip ---------------------------------------------------------

  /** The characters `str.strip` removes, restricted to Latin-1. */
  predicate IsSpace(c: char) {
    c == ' ' || '\t' <= c <= '\r' || '\U{001C}' <= c <= '\U{001F}'
    || c == '\U{0085}' || c == '\U{00A0}'
  }

  function LeadingSpace(s: string): (n: nat)
    ensures n <= |s|
    ensures forall i :: 0 <= i < n ==> IsSpace(s[i])
    ensures n < |s| ==> !IsSpace(s[n])
    decreases |s|
  {
    if s != [] && IsSpace(s[0]) then 1 + LeadingSpace(s[1..]) else 0
  }

  function TrailingSpace(s: string): (n: nat)
    ensures n <= |s|
    ensures forall i :: |s| - n <= i < |s| ==> IsSpace(s[i])
    ensures n < |s| ==> !IsSpace(s[|s| - 1 - n])
    decreases |s|
  {
    if s != [] && IsSpace(s[|s| - 1]) then 1 + TrailingSpace(s[..|s| - 1]) else 0
  }

  /** Python's `s.strip()`. */
  function Strip(s: string): string {
    var t := s[LeadingSpace(s)..];
    t[..|t| - TrailingSpace(t)]
  }

  /** `Strip(s)` is the slice of `s` left after removing a run of white space
      at each end, and it neither starts nor ends with white space; it is empty
      exactly when `s` is all white space. */
  lemma StripShape(s: string) returns (l: nat)
    ensures l + |Strip(s)| <= |s| && s[l..l + |Strip(s)|] == Strip(s)
    ensures forall i :: 0 <= i < l ==> IsSpace(s[i])
    ensures forall i :: l + |Strip(s)| <= i < |s| ==> IsSpace(s[i])
    ensures Strip(s) != [] ==> !IsSpace(Strip(s)[0]) && !IsSpace(Strip(s)[|Strip(s)| - 1])
    ensures Strip(s) == [] <==> forall i :: 0 <= i < |s| ==> IsSpace(s[i])
  {
    l := LeadingSpace(s);
    var t := s[l..];
    var n := TrailingSpace(t);
    var r := Strip(s);
    assert r == t[..|t| - n];
    forall i | l + |r| <= i < |s| ensures IsSpace(s[i]) {
      assert s[i] == t[i - l];
    }
    if r != [] {
      assert r[0] == s[l];
      assert r[|r| - 1] == t[|t| - 1 - n];
    }
  }

  /** Stripping twice strips nothing more. */
  lemma StripIdempotent(s: string)
    ensures Strip(Strip(s)) == Strip(s)
  {
    var r := Strip(s);
    var _ := StripShape(s);
    if r != [] {
      assert LeadingSpace(r) == 0;
      assert TrailingSpace(r) == 0;
      assert r[0..] == r && r[..|r|] == r;
    }
  }
}
