/** The URL classifiers and the works-list URL derivation of
    task1/hw1/crawler.py, as hand-coded string predicates.

    Both regular expressions are applied with `re.match` and end in `$`, which
    in Python also matches just before a final newline; `MatchesToEnd` models
    that. `\d` is taken to be an ASCII digit. */
module Urls {
  import opened Options
  import opened Strings

  /** The part of `u` after `https?://(?:www\.)?ilibrary\.ru`, if `u` starts so. */
  function AfterHost(u: string): (r: Option<string>)
    ensures r.Some? ==> |r.value| < |u|
  {
    var afterScheme :=
      if StartsWith(u, "https://") then Some(u[8..])
      else if StartsWith(u, "http://") then Some(u[7..])
      else None;
    match afterScheme
    case None => None
    case Some(s) =>
      var host := if StartsWith(s, "www.") then s[4..] else s;
      if StartsWith(host, "ilibrary.ru") then Some(host[11..]) else None
  }

  /** `/author/[^/]+/index\.html` spans the whole of `path`. */
  predicate IsAuthorPath(path: string) {
    StartsWith(path, "/author/")
    && var t := path[8..];
    |t| > 11 && t[|t| - 11..] == "/index.html" && '/' !in t[..|t| - 11]
  }

  /** Length of the run of ASCII digits at the start of `s`. */
  function DigitRun(s: string): (n: nat)
    ensures n <= |s|
    ensures forall i :: 0 <= i < n ==> IsAsciiDigit(s[i])
    ensures n < |s| ==> !IsAsciiDigit(s[n])
    decreases |s|
  {
    if s != [] && IsAsciiDigit(s[0]) then 1 + DigitRun(s[1..]) else 0
  }

  /** `/text/\d+/p\.\d+/index\.html` spans the whole of `path`. */
  predicate IsTextPath(path: string) {
    StartsWith(path, "/text/")
    && var t := path[6..];
    var n := DigitRun(t);
    n > 0 && StartsWith(t[n..], "/p.")
    && var t2 := t[n + 3..];
    var m := DigitRun(t2);
    m > 0 && t2[m..] == "/index.html"
  }

  predicate IsAuthorCore(u: string) {
    var rest := AfterHost(u);
    rest.Some? && IsAuthorPath(rest.value)
  }

  predicate IsTextCore(u: string) {
    var rest := AfterHost(u);
    rest.Some? && IsTextPath(rest.value)
  }

  /** A pattern ending in `$`, matched from the start of `u`. */
  predicate MatchesToEnd(u: string, core: string -> bool) {
    core(u) || (|u| > 0 && u[|u| - 1] == '\n' && core(u[..|u| - 1]))
  }

  /** The author-page filter of `get_author_pages` (crawler.py:144). */
  predicate IsAuthorPage(u: string) {
    MatchesToEnd(u, IsAuthorCore)
  }

  /** `TEXT_PAGE_RE.match(u)` (crawler.py:43). */
  predicate IsTextPage(u: string) {
    MatchesToEnd(u, IsTextCore)
  }

  // ---- reference shapes --------------------------------------------------

  /** `https://` or `http://`. */
  function Scheme(secure: bool): string {
    SchemeName(secure) + "//"
  }

  function SchemeName(secure: bool): string {
    if secure then "https:" else "http:"
  }

  function Host(www: bool): string {
    (if www then "www." else "") + "ilibrary.ru"
  }

  predicate IsSlug(slug: string) {
    slug != [] && '/' !in slug
  }

  predicate IsNumber(s: string) {
    s != [] && forall i :: 0 <= i < |s| ==> IsAsciiDigit(s[i])
  }

  /** `scheme://[www.]ilibrary.ru/author/<slug>/index.html`. */
  function AuthorUrl(secure: bool, www: bool, slug: string): string {
    Scheme(secure) + Host(www) + AuthorPath(slug)
  }

  function AuthorPath(slug: string): string {
    "/author/" + slug + "/index.html"
  }

  /** `scheme://[www.]ilibrary.ru/text/<id>/p.<page>/index.html`. */
  function TextUrl(secure: bool, www: bool, id: string, page: string): string {
    Scheme(secure) + Host(www) + TextPath(id, page)
  }

  function TextPath(id: string, page: string): string {
    "/text/" + id + "/p." + page + "/index.html"
  }

  lemma AfterHostOf(secure: bool, www: bool, rest: string)
    ensures AfterHost(Scheme(secure) + Host(www) + rest) == Some(rest)
  {
    var s := Host(www) + rest;
    assert Scheme(secure) + Host(www) + rest == Scheme(secure) + s;
    SchemeStrip(secure, s);
    HostStrip(www, rest);
  }

  lemma SchemeStrip(secure: bool, s: string)
    ensures StartsWith(Scheme(secure) + s, "https://") == secure
    ensures (Scheme(secure) + s)[|Scheme(secure)|..] == s
    ensures !secure ==> StartsWith(Scheme(secure) + s, "http://")
  {
    var u := Scheme(secure) + s;
    if !secure {
      assert u[4] == ':';
    }
  }

  lemma HostStrip(www: bool, rest: string)
    ensures var s := Host(www) + rest;
      && StartsWith(s, "www.") == www
      && var host := if www then s[4..] else s;
      host == "ilibrary.ru" + rest
  {
    var s := Host(www) + rest;
    if www {
      assert s == "www." + ("ilibrary.ru" + rest);
    } else {
      assert s[0] == 'i';
    }
  }

  lemma AfterHostInverse(u: string) returns (secure: bool, www: bool)
    requires AfterHost(u).Some?
    ensures u == Scheme(secure) + Host(www) + AfterHost(u).value
  {
    secure := StartsWith(u, "https://");
    SchemeLiterals();
    var k := |Scheme(secure)|;
    assert u[..k] == Scheme(secure);
    var s := u[k..];
    SplitAt(u, k);
    www := StartsWith(s, "www.");
    var pre: string := if www then "www." else "";
    var host := s[|pre|..];
    SplitAt(s, |pre|);
    var rest := host[11..];
    SplitAt(host, 11);
    assert AfterHost(u).value == rest;
    Associate3(pre, "ilibrary.ru", rest);
    Associate3(Scheme(secure), Host(www), rest);
  }

  lemma SchemeLiterals()
    ensures Scheme(true) == "https://" && Scheme(false) == "http://"
  {
  }

  lemma AuthorPathOf(slug: string)
    requires IsSlug(slug)
    ensures IsAuthorPath(AuthorPath(slug))
  {
    var path := AuthorPath(slug);
    var t := path[8..];
    assert t == slug + "/index.html";
    assert t[..|t| - 11] == slug;
  }

  lemma AuthorCoreOf(secure: bool, www: bool, slug: string)
    requires IsSlug(slug)
    ensures IsAuthorCore(AuthorUrl(secure, www, slug))
  {
    var path := AuthorPath(slug);
    var u := AuthorUrl(secure, www, slug);
    AfterHostOf(secure, www, path);
    assert AfterHost(u) == Some(path);
    AuthorPathOf(slug);
  }

  lemma AuthorCoreShape(u: string) returns (secure: bool, www: bool, slug: string)
    requires IsAuthorCore(u)
    ensures IsSlug(slug) && u == AuthorUrl(secure, www, slug)
  {
    secure, www := AfterHostInverse(u);
    slug := AuthorPathShape(AfterHost(u).value);
  }

  lemma AuthorPathShape(path: string) returns (slug: string)
    requires IsAuthorPath(path)
    ensures IsSlug(slug) && path == AuthorPath(slug)
  {
    var t := path[8..];
    slug := t[..|t| - 11];
    assert t == slug + "/index.html";
    assert path == "/author/" + t;
  }

  /** The hand-coded author predicate accepts exactly the author-index URLs. */
  lemma AuthorCoreIff(u: string)
    ensures IsAuthorCore(u) <==> exists secure, www, slug ::
              IsSlug(slug) && u == AuthorUrl(secure, www, slug)
  {
    if IsAuthorCore(u) {
      var secure, www, slug := AuthorCoreShape(u);
    }
    if secure, www, slug :| IsSlug(slug) && u == AuthorUrl(secure, www, slug) {
      AuthorCoreOf(secure, www, slug);
    }
  }

  lemma TextPathOf(id: string, page: string)
    requires IsNumber(id) && IsNumber(page)
    ensures IsTextPath(TextPath(id, page))
  {
    var path := TextPath(id, page);
    var t2 := page + INDEX_SUFFIX;
    var rest := "/p." + t2;
    var t := id + rest;
    assert path == "/text/" + t by {
      Associate5("/text/", id, "/p.", page, INDEX_SUFFIX);
    }
    assert StartsWith(path, "/text/") && path[6..] == t;
    assert DigitRun(t) == |id| by {
      DigitRunOf(id, rest);
    }
    assert StartsWith(t[|id|..], "/p.") by {
      assert t[|id|..] == rest;
    }
    assert t[|id| + 3..] == t2 by {
      assert t[|id|..] == rest;
      DropDrop(t, |id|, 3);
    }
    assert DigitRun(t2) == |page| && t2[|page|..] == "/index.html" by {
      DigitRunOf(page, INDEX_SUFFIX);
    }
  }

  /** Dropping `i` and then `j` elements drops `i + j`. */
  lemma DropDrop(s: string, i: nat, j: nat)
    requires i + j <= |s|
    ensures s[i..][j..] == s[i + j..]
  {
  }

  lemma TextCoreOf(secure: bool, www: bool, id: string, page: string)
    requires IsNumber(id) && IsNumber(page)
    ensures IsTextCore(TextUrl(secure, www, id, page))
  {
    var path := TextPath(id, page);
    var u := TextUrl(secure, www, id, page);
    AfterHostOf(secure, www, path);
    assert AfterHost(u) == Some(path);
    TextPathOf(id, page);
  }

  lemma TextPathShape(path: string) returns (id: string, page: string)
    requires IsTextPath(path)
    ensures IsNumber(id) && IsNumber(page)
    ensures path == TextPath(id, page)
  {
    var t := path[6..];
    assert path == "/text/" + t by {
      SplitAt(path, 6);
    }
    var n := DigitRun(t);
    id := t[..n];
    var t2 := t[n + 3..];
    assert t == id + ("/p." + t2) by {
      SplitAt(t, n);
      SplitAt(t[n..], 3);
      DropDrop(t, n, 3);
    }
    page := NumberThenSuffix(t2);
    assert path == "/text/" + (id + ("/p." + (page + INDEX_SUFFIX)));
    Associate5("/text/", id, "/p.", page, INDEX_SUFFIX);
  }

  lemma NumberThenSuffix(t2: string) returns (page: string)
    requires DigitRun(t2) > 0 && t2[DigitRun(t2)..] == "/index.html"
    ensures IsNumber(page) && t2 == page + "/index.html"
  {
    page := t2[..DigitRun(t2)];
    assert t2 == page + t2[DigitRun(t2)..];
  }

  lemma TextCoreShape(u: string) returns (secure: bool, www: bool, id: string, page: string)
    requires IsTextCore(u)
    ensures IsNumber(id) && IsNumber(page) && u == TextUrl(secure, www, id, page)
  {
    secure, www := AfterHostInverse(u);
    var path := AfterHost(u).value;
    id, page := TextPathShape(path);
  }

  /** The hand-coded text-page predicate accepts exactly the text-page URLs. */
  lemma TextCoreIff(u: string)
    ensures IsTextCore(u) <==> exists secure, www, id, page ::
              IsNumber(id) && IsNumber(page) && u == TextUrl(secure, www, id, page)
  {
    if IsTextCore(u) {
      var secure, www, id, page := TextCoreShape(u);
    }
    if secure, www, id, page :| IsNumber(id) && IsNumber(page) && u == TextUrl(secure, www, id, page) {
      TextCoreOf(secure, www, id, page);
    }
  }

  /** A URL of the text-page shape has no newline in it. */
  lemma TextCoreNoNewline(u: string)
    requires IsTextCore(u)
    ensures '\n' !in u
  {
    TextCoreIff(u);
    var secure, www, id, page :| IsNumber(id) && IsNumber(page) && u == TextUrl(secure, www, id, page);
    TextUrlNoNewline(secure, www, id, page);
  }

  lemma TextUrlNoNewline(secure: bool, www: bool, id: string, page: string)
    requires IsNumber(id) && IsNumber(page)
    ensures '\n' !in TextUrl(secure, www, id, page)
  {
    assert '\n' !in id && '\n' !in page by {
      assert forall k :: 0 <= k < |id| ==> IsAsciiDigit(id[k]);
      assert forall k :: 0 <= k < |page| ==> IsAsciiDigit(page[k]);
    }
    assert '\n' !in Scheme(secure) + Host(www);
    assert '\n' !in TextPath(id, page);
  }

  lemma {:induction false} DigitRunOf(digits: string, rest: string)
    requires forall i :: 0 <= i < |digits| ==> IsAsciiDigit(digits[i])
    requires rest != [] && !IsAsciiDigit(rest[0])
    ensures DigitRun(digits + rest) == |digits|
    decreases |digits|
  {
    if digits != [] {
      assert (digits + rest)[1..] == digits[1..] + rest;
      DigitRunOf(digits[1..], rest);
    } else {
      assert digits + rest == rest;
    }
  }

  // ---- author_to_all_works_url -------------------------------------------

  /** Python's `s.replace(pat, rep)`: left to right, non-overlapping. */
  function ReplaceAll(s: string, pat: string, rep: string): string
    requires pat != []
    decreases |s|
  {
    if |s| < |pat| then s
    else if s[..|pat|] == pat then rep + ReplaceAll(s[|pat|..], pat, rep)
    else [s[0]] + ReplaceAll(s[1..], pat, rep)
  }

  const INDEX_SUFFIX := "/index.html"
  const ALL_WORKS_SUFFIX := "/l.all/index.html"

  /** `author_to_all_works_url`. */
  function AllWorksUrl(authorUrl: string): string {
    ReplaceAll(authorUrl, INDEX_SUFFIX, ALL_WORKS_SUFFIX)
  }

  /** An occurrence in `s[1..]` is an occurrence in `s` one place later. */
  lemma OccursShift(s: string, pat: string, i: int)
    requires s != [] && i >= 0
    ensures OccursAt(s[1..], pat, i) <==> OccursAt(s, pat, i + 1)
  {
    if 0 <= i <= |s| - 1 - |pat| {
      assert s[1..][i..i + |pat|] == s[i + 1..i + 1 + |pat|];
    }
  }

  /** A string in which `pat` does not occur is left unchanged. */
  lemma {:induction false} ReplaceAbsent(s: string, pat: string, rep: string)
    requires pat != []
    requires forall i :: !OccursAt(s, pat, i)
    ensures ReplaceAll(s, pat, rep) == s
    decreases |s|
  {
    if |s| >= |pat| {
      assert !OccursAt(s, pat, 0);
      forall i ensures !OccursAt(s[1..], pat, i) {
        if i >= 0 {
          OccursShift(s, pat, i);
        }
      }
      ReplaceAbsent(s[1..], pat, rep);
    }
  }

  /** The first occurrence is the one replaced: when `pat` first occurs right
      after `a`, the result is `a`, then `rep`, then the rest replaced. */
  lemma {:induction false} ReplaceAtFirst(a: string, b: string, pat: string, rep: string)
    requires pat != []
    requires forall i :: 0 <= i < |a| ==> !OccursAt(a + pat + b, pat, i)
    ensures ReplaceAll(a + pat + b, pat, rep) == a + rep + ReplaceAll(b, pat, rep)
    decreases |a|
  {
    var s := a + pat + b;
    if a == [] {
      assert s == pat + b && s[..|pat|] == pat && s[|pat|..] == b;
    } else {
      assert !OccursAt(s, pat, 0);
      assert s[1..] == a[1..] + pat + b;
      forall i | 0 <= i < |a[1..]| ensures !OccursAt(a[1..] + pat + b, pat, i) {
        OccursShift(s, pat, i);
      }
      ReplaceAtFirst(a[1..], b, pat, rep);
      assert s[..|pat|] != pat;
      assert ReplaceAll(s, pat, rep) == [s[0]] + ReplaceAll(s[1..], pat, rep);
      assert [s[0]] + (a[1..] + rep + ReplaceAll(b, pat, rep)) == a + rep + ReplaceAll(b, pat, rep);
    }
  }

  /** A prefix free of the pattern's first character is copied unchanged. */
  lemma {:induction false} ReplacePeel(q: string, t: string, pat: string, rep: string)
    requires pat != [] && pat[0] !in q
    ensures ReplaceAll(q + t, pat, rep) == q + ReplaceAll(t, pat, rep)
    decreases |q|
  {
    if q == [] {
      assert q + t == t;
    } else {
      var s := q + t;
      assert s[0] == q[0];
      assert s[1..] == q[1..] + t;
      ReplacePeel(q[1..], t, pat, rep);
    }
  }

  /** A `/` that does not start `/index.html` is copied unchanged. */
  lemma ReplacePeelSlash(t: string)
    requires !StartsWith(t, "index.html")
    ensures AllWorksUrl("/" + t) == "/" + AllWorksUrl(t)
  {
    var s := "/" + t;
    assert s[1..] == t;
    if |s| >= 11 {
      assert s[..11][1..] == t[..10];
    }
  }

  /** `//` before something other than `index.html` is copied unchanged. */
  lemma ReplacePeelDoubleSlash(x: string)
    requires !StartsWith(x, "index.html")
    ensures AllWorksUrl("//" + x) == "//" + AllWorksUrl(x)
  {
    var y := "/" + x;
    ReplacePeelSlash(x);
    assert y[0] == '/';
    ReplacePeelSlash(y);
    assert "//" + x == "/" + y;
  }

  lemma AllWorksUrlScheme(secure: bool, x: string)
    requires !StartsWith(x, "index.html")
    ensures AllWorksUrl(Scheme(secure) + x) == Scheme(secure) + AllWorksUrl(x)
  {
    var sch := SchemeName(secure);
    assert '/' !in sch;
    ReplacePeelDoubleSlash(x);
    ReplacePeel(sch, "//" + x, INDEX_SUFFIX, ALL_WORKS_SUFFIX);
    Associate3(sch, "//", x);
    Associate3(sch, "//", AllWorksUrl(x));
  }

  lemma AllWorksUrlAuthorDir(t: string)
    ensures AllWorksUrl("/author" + t) == "/author" + AllWorksUrl(t)
  {
    ReplacePeel("author", t, INDEX_SUFFIX, ALL_WORKS_SUFFIX);
    assert ("author" + t)[0] == 'a';
    ReplacePeelSlash("author" + t);
    AuthorDirSplit();
    Associate3("/", "author", t);
    Associate3("/", "author", AllWorksUrl(t));
  }

  lemma AuthorDirSplit()
    ensures "/author" == "/" + "author"
    ensures "/author/" == "/author" + "/"
  {
  }

  lemma AllWorksUrlHost(www: bool, x: string)
    ensures AllWorksUrl(Host(www) + x) == Host(www) + AllWorksUrl(x)
    ensures !StartsWith(Host(www) + x, "index.html")
  {
    var hw := Host(www);
    HostChars(www);
    ReplacePeel(hw, x, INDEX_SUFFIX, ALL_WORKS_SUFFIX);
    assert (hw + x)[1] == hw[1];
    NotStartsWithAt(hw + x, "index.html", 1);
  }

  lemma HostChars(www: bool)
    ensures '/' !in Host(www) && |Host(www)| > 1 && Host(www)[1] != 'n'
  {
    assert '/' !in "ilibrary.ru";
    if www {
      assert '/' !in "www.";
    }
  }

  lemma Associate3(a: string, b: string, c: string)
    ensures a + b + c == a + (b + c)
  {
  }

  lemma Associate5(a: string, b: string, c: string, d: string, e: string)
    ensures a + b + c + d + e == a + (b + (c + (d + e)))
  {
  }

  lemma Associate(a: string, b: string, c: string, d: string)
    ensures a + b + c + d == a + (b + (c + d))
  {
  }

  /** Works-list derivation leaves the `scheme://[www.]ilibrary.ru/author` head
      of a URL alone. */
  lemma AllWorksUrlHead(secure: bool, www: bool, t: string)
    ensures AllWorksUrl(Scheme(secure) + Host(www) + ("/author" + t))
            == Scheme(secure) + Host(www) + ("/author" + AllWorksUrl(t))
  {
    AllWorksUrlAuthorDir(t);
    AllWorksUrlHost(www, "/author" + t);
    AllWorksUrlScheme(secure, Host(www) + ("/author" + t));
    Associate3(Scheme(secure), Host(www), "/author" + t);
    Associate3(Scheme(secure), Host(www), "/author" + AllWorksUrl(t));
  }

  /** Works-list derivation of `/<slug>/index.html` for a slug that does not
      itself begin with `index.html`. */
  lemma AllWorksUrlTail(slug: string)
    requires IsSlug(slug) && !StartsWith(slug, "index.html")
    ensures AllWorksUrl("/" + slug + INDEX_SUFFIX) == "/" + slug + ALL_WORKS_SUFFIX
  {
    var p, r := INDEX_SUFFIX, ALL_WORKS_SUFFIX;
    var tail := slug + p;
    assert !StartsWith(tail, "index.html") by {
      if |slug| >= 10 {
        assert tail[..10] == slug[..10];
      } else {
        assert tail[|slug|] == '/';
        assert '/' !in "index.html";
      }
    }
    ReplacePeelSlash(tail);
    ReplacePeel(slug, p, p, r);
    assert ReplaceAll(p, p, r) == r by {
      assert p[..|p|] == p && p[|p|..] == [];
    }
    Associate3("/", slug, p);
    Associate3("/", slug, r);
  }

  /** The works-list path of an author: `/author/<slug>/l.all/index.html`. */
  function AllWorksPath(slug: string): string {
    "/author/" + slug + ALL_WORKS_SUFFIX
  }

  /** For an author-index URL whose slug does not itself begin with
      `index.html`, the works-list URL is the same URL with `/l.all` inserted
      before the final `/index.html`: `/index.html` occurs only at the end. */
  lemma AllWorksUrlOfAuthor(secure: bool, www: bool, slug: string)
    requires IsSlug(slug) && !StartsWith(slug, "index.html")
    ensures AllWorksUrl(AuthorUrl(secure, www, slug))
            == Scheme(secure) + Host(www) + AllWorksPath(slug)
  {
    var tail := "/" + slug + INDEX_SUFFIX;
    var tail' := "/" + slug + ALL_WORKS_SUFFIX;
    AuthorDirSplit();
    Associate("/author", "/", slug, INDEX_SUFFIX);
    Associate3("/", slug, INDEX_SUFFIX);
    assert AuthorPath(slug) == "/author" + tail;
    Associate("/author", "/", slug, ALL_WORKS_SUFFIX);
    Associate3("/", slug, ALL_WORKS_SUFFIX);
    assert AllWorksPath(slug) == "/author" + tail';
    AllWorksUrlHead(secure, www, tail);
    AllWorksUrlTail(slug);
  }
}
