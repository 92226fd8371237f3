/** The string functions of task2/tokens_lemmas.py: clitic stripping, the
    clean-token filter, file ids and the `WORD_RE` scanner.

    Both `WORD_RE` and `CLITIC_RE` are compiled with `re.IGNORECASE` and only
    see text that has been lower-cased first, so the letter class is taken to
    be the lower-case Russian letters `[а-яё]`. Under `re.IGNORECASE` Python
    also lets that class match the small-letter variants U+1C80..U+1C86,
    which `lower()` leaves unchanged; the model does not match them. */
module Tokens {
  import opened Options
  import opened Strings

  const MIN_LEN := 3

  /** The hyphenated particles `CLITIC_RE` strips: -то, -де, -ка, -т. */
  const CLITICS: seq<string> := ["\U{0442}\U{043E}", "\U{0434}\U{0435}", "\U{043A}\U{0430}", "\U{0442}"]

  // ---- normalize_token ---------------------------------------------------

  /** The stem of `t` when `t` is exactly Russian letters, `-` and a clitic. */
  function CliticStem(t: string): Option<string> {
    var h := Find(t, '-');
    if 0 < h < |t| && AllCyrillicLower(t[..h]) && t[h + 1..] in CLITICS then Some(t[..h]) else None
  }

  /** `normalize_token`: lower-case, then strip a trailing clitic; the final
      `$` of `CLITIC_RE` also matches before a last newline. */
  function NormalizeToken(tok: string): string {
    StripClitic(Lower(tok))
  }

  /** The `stem` group when `CLITIC_RE` matches the lower-cased token `t`,
      else `t` itself. */
  function StripClitic(t: string): string {
    match CliticStem(t)
    case Some(stem) => stem
    case None =>
      if t != [] && t[|t| - 1] == '\n' && CliticStem(t[..|t| - 1]).Some? then
        CliticStem(t[..|t| - 1]).value
      else t
  }

  /** `t` is `stem` followed by a hyphenated clitic (and perhaps a newline). */
  ghost predicate CliticForm(t: string, stem: string) {
    stem != [] && AllCyrillicLower(stem)
    && exists c :: c in CLITICS && (t == stem + "-" + c || t == stem + "-" + c + "\n")
  }

  lemma CliticStemOf(stem: string, c: string)
    requires stem != [] && AllCyrillicLower(stem) && c in CLITICS
    ensures CliticStem(stem + "-" + c) == Some(stem)
  {
    var t := stem + "-" + c;
    assert '-' !in stem by {
      assert forall i :: 0 <= i < |stem| ==> IsCyrillicLower(stem[i]);
    }
    FindAfter(stem, '-', c);
    assert t == stem + ['-'] + c;
    assert t[..|stem|] == stem && t[|stem| + 1..] == c;
  }

  lemma CliticStemNewline(stem: string, c: string)
    requires stem != [] && AllCyrillicLower(stem) && c in CLITICS
    ensures CliticStem(stem + "-" + c + "\n") == None
  {
    var t := stem + "-" + c + "\n";
    assert '-' !in stem by {
      assert forall i :: 0 <= i < |stem| ==> IsCyrillicLower(stem[i]);
    }
    FindAfter(stem, '-', c + "\n");
    assert t == stem + ['-'] + (c + "\n");
    assert t[|stem| + 1..] == c + "\n";
    assert forall x :: x in CLITICS ==> x != [] && x[|x| - 1] != '\n';
    assert (c + "\n")[|c|] == '\n';
  }

  /** A lower-cased token of the form `stem-clitic` normalises to its stem. */
  lemma NormalizeClitic(tok: string, stem: string)
    requires CliticForm(Lower(tok), stem)
    ensures NormalizeToken(tok) == stem
  {
    var t := Lower(tok);
    var c :| c in CLITICS && (t == stem + "-" + c || t == stem + "-" + c + "\n");
    CliticStemOf(stem, c);
    if t != stem + "-" + c {
      CliticStemNewline(stem, c);
      assert t[..|t| - 1] == stem + "-" + c;
    }
  }

  /** A token with a clitic stem is that stem, `-` and a clitic. */
  lemma CliticStemForm(t: string)
    requires CliticStem(t).Some?
    ensures CliticForm(t, CliticStem(t).value) && CliticForm(t + "\n", CliticStem(t).value)
  {
    var h := Find(t, '-');
    var stem, c := t[..h], t[h + 1..];
    SplitAround(t, h);
    assert t == stem + "-" + c;
  }

  /** Stripping either leaves a token alone, or yields the stem of a
      `stem-clitic` token. */
  lemma StripCliticCases(t: string)
    ensures StripClitic(t) == t || CliticForm(t, StripClitic(t))
  {
    if CliticStem(t).Some? {
      CliticStemForm(t);
    } else if StripClitic(t) != t {
      assert t != [] && t[|t| - 1] == '\n';
      var u := t[..|t| - 1];
      CliticStemForm(u);
      SplitAround(t, |t| - 1);
      assert t == u + "\n";
    }
  }

  /** Normalising either only lower-cases, or yields the stem of a lower-cased
      `stem-clitic` token. */
  lemma NormalizeCases(tok: string)
    ensures NormalizeToken(tok) == Lower(tok) || CliticForm(Lower(tok), NormalizeToken(tok))
  {
    StripCliticCases(Lower(tok));
  }

  // ---- is_clean_token ----------------------------------------------------

  /** `[а-яё]+(?:-[а-яё]+)?` spans the whole of `t`. */
  predicate WordShape(t: string) {
    var h := Find(t, '-');
    if h == |t| then t != [] && AllCyrillicLower(t)
    else 0 < h && h + 1 < |t| && AllCyrillicLower(t[..h]) && AllCyrillicLower(t[h + 1..])
  }

  /** `is_clean_token`. */
  predicate IsCleanToken(tok: string) {
    var t := Lower(tok);
    |t| >= MIN_LEN && WordShape(t)
  }

  /** Russian letters with at most one hyphen, which is neither first nor last. */
  ghost predicate HyphenatedWord(t: string) {
    t != [] && t[0] != '-' && t[|t| - 1] != '-'
    && (forall i :: 0 <= i < |t| ==> t[i] == '-' || IsCyrillicLower(t[i]))
    && (forall i, j :: 0 <= i < j < |t| && t[i] == '-' ==> t[j] != '-')
  }

  lemma WordShapeIff(t: string)
    ensures WordShape(t) <==> HyphenatedWord(t)
  {
    var h := Find(t, '-');
    if h < |t| {
      if WordShape(t) {
        forall i | 0 <= i < |t| && i != h ensures IsCyrillicLower(t[i]) {
          if i < h {
            assert t[i] == t[..h][i];
          } else {
            assert t[i] == t[h + 1..][i - h - 1];
          }
        }
      }
      if HyphenatedWord(t) {
        assert 0 < h && h + 1 < |t|;
        assert forall i :: 0 <= i < h ==> t[..h][i] == t[i];
        assert forall i :: 0 <= i < h ==> IsCyrillicLower(t[..h][i]);
        assert forall i :: h + 1 <= i < |t| ==> t[h + 1..][i - h - 1] == t[i];
      }
    } else {
      if HyphenatedWord(t) {
        assert forall i :: 0 <= i < |t| ==> t[i] != '-' by {
          assert forall i :: 0 <= i < |t| ==> t[..h][i] == t[i];
        }
      }
      if WordShape(t) {
        assert t[0] != '-' && t[|t| - 1] != '-';
      }
    }
  }

  /** A clean token is, once lower-cased, at least three characters of Russian
      letters with at most one inner hyphen; nothing else is clean. */
  lemma CleanTokenIff(tok: string)
    ensures IsCleanToken(tok) <==> |Lower(tok)| >= MIN_LEN && HyphenatedWord(Lower(tok))
  {
    WordShapeIff(Lower(tok));
  }

  // ---- file_id_from_path -------------------------------------------------

  /** `os.path.basename` (POSIX): what follows the last `/`. */
  function Basename(path: string): string {
    path[RFind(path, '/') + 1..]
  }

  /** Number of `.` characters at the start of `s`. */
  function LeadingDots(s: string): (n: nat)
    ensures n <= |s|
    ensures forall i :: 0 <= i < n ==> s[i] == '.'
    ensures n < |s| ==> s[n] != '.'
    decreases |s|
  {
    if s != [] && s[0] == '.' then 1 + LeadingDots(s[1..]) else 0
  }

  /** `os.path.splitext(name)[0]`: drop from the last `.` on, unless only dots
      precede it. */
  function StemOf(name: string): string {
    var d := RFind(name, '.');
    if d >= 0 && LeadingDots(name) < d then name[..d] else name
  }

  /** `file_id_from_path`: both of its branches return the stem. */
  function FileIdFromPath(path: string): string {
    StemOf(Basename(path))
  }

  lemma {:induction false} RFindBefore(a: string, c: char, b: string)
    requires c !in b
    ensures RFind(a + [c] + b, c) == |a|
    decreases |b|
  {
    if b != [] {
      var s := a + [c] + b;
      assert s[|s| - 1] == b[|b| - 1];
      assert s[..|s| - 1] == a + [c] + b[..|b| - 1];
      assert b[|b| - 1] in b;
      RFindBefore(a, c, b[..|b| - 1]);
    } else {
      assert a + [c] + b == a + [c];
    }
  }

  /** The file id of `dir/name.ext` is `name`, for a name with some character
      other than `.` and an extension without `.`. */
  lemma FileIdOf(dir: string, name: string, ext: string)
    requires '/' !in name && '/' !in ext && '.' !in ext
    requires exists i :: 0 <= i < |name| && name[i] != '.'
    ensures FileIdFromPath(dir + "/" + name + "." + ext) == name
  {
    var b := name + "." + ext;
    assert '/' !in b;
    RFindBefore(dir, '/', b);
    assert dir + "/" + name + "." + ext == dir + ['/'] + b;
    assert Basename(dir + "/" + name + "." + ext) == b;
    RFindBefore(name, '.', ext);
    assert b == name + ['.'] + ext;
    assert b[..|name|] == name;
    var i :| 0 <= i < |name| && name[i] != '.';
    assert b[i] == name[i];
  }

  /** The file id of `dir/name` is `name` when `name` has no extension. */
  lemma FileIdNoExtension(dir: string, name: string)
    requires '/' !in name && '.' !in name
    ensures FileIdFromPath(dir + "/" + name) == name
  {
    RFindBefore(dir, '/', name);
    assert dir + "/" + name == dir + ['/'] + name;
    assert Basename(dir + "/" + name) == name;
    assert RFind(name, '.') == -1;
  }

  /** The page `<num>.txt` saved by the crawler gets the id `<num>`. */
  lemma FileIdOfDump(dir: string, num: nat)
    ensures FileIdFromPath(dir + "/" + Decimal(num) + ".txt") == Decimal(num)
  {
    var d := Decimal(num);
    assert forall i :: 0 <= i < |d| ==> IsAsciiDigit(d[i]);
    assert '/' !in d && '.' !in d;
    assert d[0] != '.';
    FileIdOf(dir, d, "txt");
    assert dir + "/" + d + ".txt" == dir + "/" + d + "." + "txt";
  }

  // ---- WORD_RE -----------------------------------------------------------

  /** Length of the run of lower-case Russian letters at position `i`. */
  function LetterRun(s: string, i: nat): (n: nat)
    requires i <= |s|
    ensures i + n <= |s|
    decreases |s| - i
  {
    if i < |s| && IsCyrillicLower(s[i]) then 1 + LetterRun(s, i + 1) else 0
  }

  /** The run is all letters and stops at a non-letter or at the end. */
  lemma {:induction false} LetterRunSpec(s: string, i: nat)
    requires i <= |s|
    ensures forall j :: i <= j < i + LetterRun(s, i) ==> IsCyrillicLower(s[j])
    ensures i + LetterRun(s, i) < |s| ==> !IsCyrillicLower(s[i + LetterRun(s, i)])
    decreases |s| - i
  {
    if i < |s| && IsCyrillicLower(s[i]) {
      LetterRunSpec(s, i + 1);
    }
  }

  /** Where the `WORD_RE` match at position `i` ends, `i` when there is none:
      a greedy letter run, then `-` and a second run if one follows. */
  function MatchEnd(s: string, i: nat): (e: nat)
    requires i <= |s|
    ensures i <= e <= |s|
  {
    var a := i + LetterRun(s, i);
    if a == i then i
    else if a < |s| && s[a] == '-' && LetterRun(s, a + 1) > 0 then a + 1 + LetterRun(s, a + 1)
    else a
  }

  datatype Span = Span(start: nat, end: nat)

  /** The matches of `WORD_RE.finditer(s)` from position `i` on. */
  function Matches(s: string, i: nat): seq<Span>
    decreases |s| - i
  {
    if i >= |s| then []
    else
      var e := MatchEnd(s, i);
      if e == i then Matches(s, i + 1) else [Span(i, e)] + Matches(s, e)
  }

  /** The matched words of `s`, in order. */
  function Words(s: string): (ws: seq<string>)
    ensures |ws| == |Matches(s, 0)|
  {
    var m := Matches(s, 0);
    seq(|m|, k requires 0 <= k < |m| => if m[k].start <= m[k].end <= |s| then s[m[k].start..m[k].end] else "")
  }

  /** Every non-empty match is word-shaped. */
  lemma MatchShape(s: string, i: nat)
    requires i <= |s| && MatchEnd(s, i) > i
    ensures WordShape(s[i..MatchEnd(s, i)])
  {
    var a := i + LetterRun(s, i);
    var e := MatchEnd(s, i);
    LetterRunSpec(s, i);
    var head := s[i..a];
    RunAllLower(s, i, a);
    if e == a {
      NoHyphen(head);
      FindAbsent(head, '-');
    } else {
      LetterRunSpec(s, a + 1);
      var tail := s[a + 1..e];
      RunAllLower(s, a + 1, e);
      SliceAround(s, i, a, e);
      HyphenatedShape(head, tail);
    }
  }

  /** A slice of letters is all letters. */
  lemma RunAllLower(s: string, i: nat, j: nat)
    requires i <= j <= |s| && forall k :: i <= k < j ==> IsCyrillicLower(s[k])
    ensures AllCyrillicLower(s[i..j])
  {
    forall k | 0 <= k < j - i ensures IsCyrillicLower(s[i..j][k]) {
      assert s[i..j][k] == s[i + k];
    }
  }

  lemma NoHyphen(t: string)
    requires AllCyrillicLower(t)
    ensures '-' !in t
  {
  }

  /** Two runs of letters joined by a hyphen are word-shaped. */
  lemma HyphenatedShape(head: string, tail: string)
    requires head != [] && tail != [] && AllCyrillicLower(head) && AllCyrillicLower(tail)
    ensures WordShape(head + ['-'] + tail)
  {
    var w := head + ['-'] + tail;
    NoHyphen(head);
    FindAfter(head, '-', tail);
    assert w[..|head|] == head;
    assert w[|head| + 1..] == tail;
  }

  lemma MatchesSkip(s: string, i: nat)
    requires i < |s| && MatchEnd(s, i) == i
    ensures Matches(s, i) == Matches(s, i + 1) && !IsCyrillicLower(s[i])
  {
  }

  lemma MatchesHead(s: string, i: nat)
    requires i < |s| && MatchEnd(s, i) > i
    ensures Matches(s, i) == [Span(i, MatchEnd(s, i))] + Matches(s, MatchEnd(s, i))
  {
  }

  /** `sp` is a non-empty, word-shaped span of `s` starting at `i` or later. */
  predicate WellPlaced(s: string, i: nat, sp: Span) {
    i <= sp.start < sp.end <= |s| && WordShape(s[sp.start..sp.end])
  }

  /** Matches are non-empty, word-shaped and inside the text. */
  lemma {:induction false} MatchesInside(s: string, i: nat)
    ensures forall k :: 0 <= k < |Matches(s, i)| ==> WellPlaced(s, i, Matches(s, i)[k])
    decreases |s| - i
  {
    if i < |s| {
      var e := MatchEnd(s, i);
      if e == i {
        MatchesSkip(s, i);
        MatchesInside(s, i + 1);
      } else {
        MatchesHead(s, i);
        MatchesInside(s, e);
        MatchShape(s, i);
        var m, tl := Matches(s, i), Matches(s, e);
        forall k | 0 <= k < |m| ensures WellPlaced(s, i, m[k]) {
          if k > 0 {
            assert m[k] == tl[k - 1];
          }
        }
      }
    }
  }

  /** Matches come left to right and do not overlap. */
  lemma {:induction false} MatchesOrdered(s: string, i: nat)
    ensures forall k :: 0 <= k < |Matches(s, i)| - 1 ==> Matches(s, i)[k].end <= Matches(s, i)[k + 1].start
    decreases |s| - i
  {
    if i < |s| {
      var e := MatchEnd(s, i);
      if e == i {
        MatchesSkip(s, i);
        MatchesOrdered(s, i + 1);
      } else {
        MatchesHead(s, i);
        MatchesOrdered(s, e);
        var m, tl := Matches(s, i), Matches(s, e);
        if tl != [] {
          MatchesInside(s, e);
          assert WellPlaced(s, e, tl[0]);
        }
        forall k | 0 <= k < |m| - 1 ensures m[k].end <= m[k + 1].start {
          assert m[k + 1] == tl[k];
          if k > 0 {
            assert m[k] == tl[k - 1];
          }
        }
      }
    }
  }

  /** Matches are non-empty, word-shaped, inside the text, left to right and
      non-overlapping. */
  lemma MatchesWellFormed(s: string, i: nat)
    ensures forall k :: 0 <= k < |Matches(s, i)| ==>
              i <= Matches(s, i)[k].start < Matches(s, i)[k].end <= |s|
              && WordShape(s[Matches(s, i)[k].start..Matches(s, i)[k].end])
    ensures forall k :: 0 <= k < |Matches(s, i)| - 1 ==> Matches(s, i)[k].end <= Matches(s, i)[k + 1].start
  {
    MatchesInside(s, i);
    MatchesOrdered(s, i);
  }

  /** No Russian letter is missed: each one lies inside some match, the
      `k`-th. */
  lemma {:induction false} MatchesCover(s: string, i: nat, p: nat) returns (k: nat)
    requires i <= p < |s| && IsCyrillicLower(s[p])
    ensures k < |Matches(s, i)| && Matches(s, i)[k].start <= p < Matches(s, i)[k].end
    decreases |s| - i
  {
    var e := MatchEnd(s, i);
    if e == i {
      MatchesSkip(s, i);
      k := MatchesCover(s, i + 1, p);
    } else {
      MatchesHead(s, i);
      if e <= p {
        var k' := MatchesCover(s, e, p);
        k := k' + 1;
        assert Matches(s, i)[k] == Matches(s, e)[k'];
      } else {
        k := 0;
      }
    }
  }

  /** `sp` is a match `finditer` could not have made longer or started
      earlier: it starts at a letter, not right after one (unless at the scan
      position `i`), is not followed by a letter, and, when it has no hyphen,
      is not followed by `-` and a letter. */
  predicate Maximal(s: string, i: nat, sp: Span) {
    i <= sp.start < sp.end <= |s|
    && IsCyrillicLower(s[sp.start])
    && (sp.start > i ==> !IsCyrillicLower(s[sp.start - 1]))
    && (sp.end < |s| ==> !IsCyrillicLower(s[sp.end]))
    && ('-' !in s[sp.start..sp.end] && sp.end + 1 < |s| && s[sp.end] == '-'
        ==> !IsCyrillicLower(s[sp.end + 1]))
  }

  /** The match at a letter is maximal. */
  lemma MatchEndMaximal(s: string, i: nat)
    requires i < |s| && MatchEnd(s, i) > i
    ensures Maximal(s, i, Span(i, MatchEnd(s, i)))
  {
    var a := i + LetterRun(s, i);
    var e := MatchEnd(s, i);
    LetterRunSpec(s, i);
    if e == a {
      if a + 1 < |s| && s[a] == '-' {
        assert LetterRun(s, a + 1) == 0;
      }
    } else {
      LetterRunSpec(s, a + 1);
      assert s[i..e][a - i] == '-';
    }
  }

  /** Every match is maximal: greedy at both ends, as `finditer` scans. */
  lemma {:induction false} MatchesMaximal(s: string, i: nat)
    ensures forall k :: 0 <= k < |Matches(s, i)| ==> Maximal(s, i, Matches(s, i)[k])
    decreases |s| - i
  {
    if i < |s| {
      var e := MatchEnd(s, i);
      if e == i {
        MatchesSkip(s, i);
        MatchesMaximal(s, i + 1);
      } else {
        MatchesHead(s, i);
        MatchesMaximal(s, e);
        MatchEndMaximal(s, i);
        var m, tl := Matches(s, i), Matches(s, e);
        forall k | 0 <= k < |m| ensures Maximal(s, i, m[k]) {
          if k > 0 {
            assert m[k] == tl[k - 1];
          }
        }
      }
    }
  }

  /** A run of letters from `i` up to a non-letter or the end has `LetterRun`
      as its length. */
  lemma {:induction false} LetterRunOf(s: string, i: nat, j: nat)
    requires i <= j <= |s| && forall k :: i <= k < j ==> IsCyrillicLower(s[k])
    requires j < |s| ==> !IsCyrillicLower(s[j])
    ensures LetterRun(s, i) == j - i
    decreases j - i
  {
    if i < j {
      LetterRunOf(s, i + 1, j);
    }
  }

  /** A word of two letter runs joined by one hyphen is a single match. */
  lemma HyphenatedMatches(head: string, tail: string)
    requires head != [] && tail != [] && AllCyrillicLower(head) && AllCyrillicLower(tail)
    ensures Words(head + ['-'] + tail) == [head + ['-'] + tail]
  {
    var w := head + ['-'] + tail;
    var a := |head|;
    assert forall k :: 0 <= k < a ==> w[k] == head[k];
    assert forall k :: a + 1 <= k < |w| ==> w[k] == tail[k - a - 1];
    LetterRunOf(w, 0, a);
    LetterRunOf(w, a + 1, |w|);
    assert MatchEnd(w, 0) == |w|;
    MatchesHead(w, 0);
    assert w[0..|w|] == w;
  }

  /** The example of `WORD_RE`'s comment: "северо-запад" is one word. */
  lemma NorthWestIsOneWord()
    ensures Words("\U{0441}\U{0435}\U{0432}\U{0435}\U{0440}\U{043E}-\U{0437}\U{0430}\U{043F}\U{0430}\U{0434}")
            == ["\U{0441}\U{0435}\U{0432}\U{0435}\U{0440}\U{043E}-\U{0437}\U{0430}\U{043F}\U{0430}\U{0434}"]
  {
    var head := "\U{0441}\U{0435}\U{0432}\U{0435}\U{0440}\U{043E}";
    var tail := "\U{0437}\U{0430}\U{043F}\U{0430}\U{0434}";
    assert AllCyrillicLower(head) && AllCyrillicLower(tail);
    HyphenatedMatches(head, tail);
    assert head + ['-'] + tail == "\U{0441}\U{0435}\U{0432}\U{0435}\U{0440}\U{043E}-\U{0437}\U{0430}\U{043F}\U{0430}\U{0434}";
  }
}
