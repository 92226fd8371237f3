/** Link extraction, author discovery and text-page collection of
    task1/hw1/crawler.py.

    The site is an oracle: `fetch` is `fetch_html` as seen by its callers
    (transport, the size gate and decoding already applied; `None` when it gave
    up), `parse` lists the raw `href` values of the `<a>` elements of a page,
    and `join` is `urljoin`. */
module Crawl {
  import opened Options
  import opened Strings
  import opened Seqs
  import opened Urls

  const BASE := "https://ilibrary.ru"
  const AUTHORS_PAGE := BASE + "/author.html"

  datatype Site = Site(
    fetch: string -> Option<string>,
    parse: string -> seq<string>,
    join: (string, string) -> string)

  /** `if not html` fails both for `None` and for the empty page. */
  predicate Truthy(h: Option<string>) {
    h.Some? && h.value != ""
  }

  // ---- extract_links -----------------------------------------------------

  /** The absolute URLs `extract_links` builds from the raw `href` values:
      each stripped value that is not empty, joined to `base`. */
  function Links(join: (string, string) -> string, base: string, hrefs: seq<string>): (r: seq<string>)
    ensures |r| <= |hrefs|
    decreases |hrefs|
  {
    if hrefs == [] then []
    else
      var pre := Links(join, base, hrefs[..|hrefs| - 1]);
      var h := Strip(hrefs[|hrefs| - 1]);
      if h == "" then pre else pre + [join(base, h)]
  }

  /** Link extraction works href by href: the links of two runs of anchors are
      the links of the first followed by those of the second. */
  lemma {:induction false} LinksConcat(join: (string, string) -> string, base: string, a: seq<string>, b: seq<string>)
    ensures Links(join, base, a + b) == Links(join, base, a) + Links(join, base, b)
    decreases |b|
  {
    if b == [] {
      assert a + b == a;
    } else {
      var b' := b[..|b| - 1];
      assert (a + b)[..|a + b| - 1] == a + b';
      LinksConcat(join, base, a, b');
    }
  }

  /** Each extracted link comes from a non-blank `href`, and each non-blank
      `href` yields one link at its own place. */
  lemma LinksSingle(join: (string, string) -> string, base: string, h: string)
    ensures Links(join, base, [h]) == if Strip(h) == "" then [] else [join(base, Strip(h))]
  {
    assert [h][..0] == [];
  }

  lemma LinksSnoc(join: (string, string) -> string, base: string, hrefs: seq<string>, h: string)
    ensures Strip(h) == "" ==> Links(join, base, hrefs + [h]) == Links(join, base, hrefs)
    ensures Strip(h) != "" ==> Links(join, base, hrefs + [h]) == Links(join, base, hrefs) + [join(base, Strip(h))]
  {
    assert (hrefs + [h])[..|hrefs|] == hrefs;
  }

  function LinksOf(site: Site, html: string, base: string): seq<string> {
    Links(site.join, base, site.parse(html))
  }

  /** `extract_links(html, base_url)`. */
  method ExtractLinks(site: Site, html: string, base: string) returns (out: seq<string>)
    ensures out == LinksOf(site, html, base)
  {
    var hrefs := site.parse(html);
    out := [];
    var i := 0;
    while i < |hrefs|
      invariant 0 <= i <= |hrefs|
      invariant out == Links(site.join, base, hrefs[..i])
    {
      TakeSnoc(hrefs, i);
      LinksSnoc(site.join, base, hrefs[..i], hrefs[i]);
      var href := Strip(hrefs[i]);
      if href == "" {
        i := i + 1;
        continue;
      }
      var absUrl := site.join(base, href);
      out := out + [absUrl];
      i := i + 1;
    }
    assert hrefs[..i] == hrefs;
  }

  // ---- get_author_pages --------------------------------------------------

  /** The author index pages linked from the author list `html`, first
      occurrence first. */
  function AuthorPagesFrom(site: Site, html: string): seq<string> {
    Unique(Filter(IsAuthorPage, LinksOf(site, html, AUTHORS_PAGE)))
  }

  /** The author pages are exactly the links of the author list that match the
      author pattern, each once, in order of first appearance. */
  lemma AuthorPagesSpec(site: Site, html: string)
    ensures Distinct(AuthorPagesFrom(site, html))
    ensures forall u :: u in AuthorPagesFrom(site, html) <==>
              u in LinksOf(site, html, AUTHORS_PAGE) && IsAuthorPage(u)
    ensures forall u :: u in AuthorPagesFrom(site, html) ==>
              u in Filter(IsAuthorPage, LinksOf(site, html, AUTHORS_PAGE))
    ensures var f := Filter(IsAuthorPage, LinksOf(site, html, AUTHORS_PAGE));
            var r := AuthorPagesFrom(site, html);
            forall i, j :: 0 <= i < j < |r| ==> FirstIndex(f, r[i]) < FirstIndex(f, r[j])
  {
    var f := Filter(IsAuthorPage, LinksOf(site, html, AUTHORS_PAGE));
    FilterMembers(IsAuthorPage, LinksOf(site, html, AUTHORS_PAGE));
    UniqueSpec(f);
  }

  /** The "seen set plus output list" loop that ends `get_author_pages`. */
  method KeepFirstOccurrences(xs: seq<string>) returns (uniq: seq<string>)
    ensures uniq == Unique(xs)
  {
    var seen: set<string> := {};
    uniq := [];
    var k := 0;
    while k < |xs|
      invariant 0 <= k <= |xs|
      invariant uniq == Unique(xs[..k])
      invariant seen == Elems(uniq)
    {
      var u := xs[k];
      assert xs[..k + 1] == xs[..k] + [u];
      UniqueSnoc(xs[..k], u);
      UniqueSpec(xs[..k]);
      if u !in seen {
        seen := seen + {u};
        uniq := uniq + [u];
      }
      k := k + 1;
    }
    assert xs[..k] == xs;
  }

  /** `get_author_pages`: `None` stands for the `RuntimeError` raised when the
      author list cannot be fetched or is empty. */
  method GetAuthorPages(site: Site) returns (r: Option<seq<string>>)
    ensures !Truthy(site.fetch(AUTHORS_PAGE)) ==> r == None
    ensures Truthy(site.fetch(AUTHORS_PAGE)) ==>
              r == Some(AuthorPagesFrom(site, site.fetch(AUTHORS_PAGE).value))
  {
    var html := site.fetch(AUTHORS_PAGE);
    if !Truthy(html) {
      return None;
    }
    var links := ExtractLinks(site, html.value, AUTHORS_PAGE);

    var authorPages := Select(IsAuthorPage, links);
    var uniq := KeepFirstOccurrences(authorPages);
    return Some(uniq);
  }

  // ---- collect_text_page_urls --------------------------------------------

  /* The collection is specified over two parameters: `works` gives the links
     found on an author's works list and `keep` is the link filter.
     `CollectTextPageUrls` instantiates them with `Works(site)` and
     `IsTextPage`; keeping them abstract lets the lemmas below reason about
     the order of the collection alone. */

  /** The links of an author's works list, or none when its fetch is falsy. */
  function WorksLinks(site: Site, author: string): seq<string> {
    var w := AllWorksUrl(author);
    var h := site.fetch(w);
    if Truthy(h) then LinksOf(site, h.value, w) else []
  }

  function Works(site: Site): string -> seq<string> {
    author => WorksLinks(site, author)
  }

  /** The inner loop of the collection: appends each link that passes `keep`
      and is not already collected, until `limit` URLs are held. */
  function AddLinks(keep: string -> bool, acc: seq<string>, links: seq<string>, limit: int): (r: seq<string>)
    ensures |acc| <= |r| && r[..|acc|] == acc
    decreases |links|
  {
    if links == [] then acc
    else
      var s := AddLinks(keep, acc, links[..|links| - 1], limit);
      var u := links[|links| - 1];
      if |s| >= limit || !keep(u) || u in s then s else s + [u]
  }

  /** The URLs collected after going through `authors` in order. */
  function Collect(works: string -> seq<string>, keep: string -> bool, authors: seq<string>, limit: int): (r: seq<string>)
    decreases |authors|
  {
    if authors == [] then []
    else
      var s := Collect(works, keep, authors[..|authors| - 1], limit);
      if |s| >= limit then s else AddLinks(keep, s, works(authors[|authors| - 1]), limit)
  }

  /** The authors whose works lists are fetched while going through `authors`. */
  function Reached(works: string -> seq<string>, keep: string -> bool, authors: seq<string>, limit: int): seq<string>
    decreases |authors|
  {
    if authors == [] then []
    else
      var pre := authors[..|authors| - 1];
      if |Collect(works, keep, pre, limit)| >= limit then Reached(works, keep, pre, limit)
      else Reached(works, keep, pre, limit) + [authors[|authors| - 1]]
  }

  /** The works-list URLs of `authors`, in order. */
  function AllWorksUrls(authors: seq<string>): (r: seq<string>)
    ensures |r| == |authors| && forall k :: 0 <= k < |authors| ==> r[k] == AllWorksUrl(authors[k])
  {
    seq(|authors|, k requires 0 <= k < |authors| => AllWorksUrl(authors[k]))
  }

  /** All links of all works lists, author after author. */
  function Gathered(works: string -> seq<string>, authors: seq<string>): seq<string>
    decreases |authors|
  {
    if authors == [] then []
    else Gathered(works, authors[..|authors| - 1]) + works(authors[|authors| - 1])
  }

  /** The links passing `keep`, first occurrence first. */
  function TextPages(keep: string -> bool, links: seq<string>): seq<string> {
    Unique(Filter(keep, links))
  }

  /** One more link: the step `AddLinks` takes for `links[j]`. */
  lemma AddLinksNext(keep: string -> bool, acc: seq<string>, links: seq<string>, j: nat, limit: int)
    requires j < |links|
    ensures var s := AddLinks(keep, acc, links[..j], limit);
            AddLinks(keep, acc, links[..j + 1], limit)
            == if |s| >= limit || !keep(links[j]) || links[j] in s then s else s + [links[j]]
  {
    assert links[..j + 1][..j] == links[..j];
  }

  /** One more author, reached below the limit: its works list is fetched and
      its links are added. */
  lemma CollectNext(works: string -> seq<string>, keep: string -> bool, authors: seq<string>, i: nat, limit: int)
    requires i < |authors| && |Collect(works, keep, authors[..i], limit)| < limit
    ensures Collect(works, keep, authors[..i + 1], limit)
            == AddLinks(keep, Collect(works, keep, authors[..i], limit), works(authors[i]), limit)
    ensures Reached(works, keep, authors[..i + 1], limit)
            == Reached(works, keep, authors[..i], limit) + [authors[i]]
  {
    assert authors[..i + 1][..i] == authors[..i];
  }

  lemma {:induction false} AddLinksStops(keep: string -> bool, acc: seq<string>, links: seq<string>, j: nat, limit: int)
    requires j <= |links| && |AddLinks(keep, acc, links[..j], limit)| >= limit
    ensures AddLinks(keep, acc, links, limit) == AddLinks(keep, acc, links[..j], limit)
    decreases |links|
  {
    if j < |links| {
      var pre := links[..|links| - 1];
      assert pre[..j] == links[..j];
      AddLinksStops(keep, acc, pre, j, limit);
    } else {
      assert links[..j] == links;
    }
  }

  lemma {:induction false} CollectStops(works: string -> seq<string>, keep: string -> bool, authors: seq<string>, i: nat, limit: int)
    requires i <= |authors| && |Collect(works, keep, authors[..i], limit)| >= limit
    ensures Collect(works, keep, authors, limit) == Collect(works, keep, authors[..i], limit)
    ensures Reached(works, keep, authors, limit) == Reached(works, keep, authors[..i], limit)
    decreases |authors|
  {
    if i < |authors| {
      var pre := authors[..|authors| - 1];
      assert pre[..i] == authors[..i];
      CollectStops(works, keep, pre, i, limit);
    } else {
      assert authors[..i] == authors;
    }
  }

  /** Appending the links of one more works list to what was collected from
      the links `g` before it collects the first `limit` kept links of the
      whole run. */
  lemma {:induction false} AddLinksSpec(keep: string -> bool, g: seq<string>, links: seq<string>, limit: int)
    ensures AddLinks(keep, Take(TextPages(keep, g), limit), links, limit) == Take(TextPages(keep, g + links), limit)
    decreases |links|
  {
    if links == [] {
      assert g + links == g;
    } else {
      var l', u := links[..|links| - 1], links[|links| - 1];
      assert links == l' + [u];
      AddLinksSpec(keep, g, l', limit);
      AddLinksSpecStep(keep, g, l', u, limit);
    }
  }

  lemma AddLinksSpecStep(keep: string -> bool, g: seq<string>, links: seq<string>, u: string, limit: int)
    requires AddLinks(keep, Take(TextPages(keep, g), limit), links, limit) == Take(TextPages(keep, g + links), limit)
    ensures AddLinks(keep, Take(TextPages(keep, g), limit), links + [u], limit)
            == Take(TextPages(keep, g + (links + [u])), limit)
  {
    assert (links + [u])[..|links|] == links;
    AppendAssoc(g, links, [u]);
    FilterSnoc(keep, g + links, u);
    if keep(u) {
      TakeUniqueSnoc(Filter(keep, g + links), u, limit);
    }
  }

  /** Cutting at `limit` the uniquified list with one more element. */
  lemma TakeUniqueSnoc(a: seq<string>, u: string, limit: int)
    ensures var s := Take(Unique(a), limit);
            |s| >= limit || u in s ==> Take(Unique(a + [u]), limit) == s
    ensures var s := Take(Unique(a), limit);
            |s| < limit && u !in s ==> Take(Unique(a + [u]), limit) == s + [u]
  {
    var s := Take(Unique(a), limit);
    UniqueSnoc(a, u);
    if |s| >= limit {
      TakePrefix(Unique(a), Unique(a + [u]), limit);
    } else {
      UniqueSpec(a);
    }
  }

  /** Collection keeps, in author order and then link order, the first `limit`
      distinct kept links among the links of the works lists it fetched. */
  lemma {:induction false} CollectSpec(works: string -> seq<string>, keep: string -> bool, authors: seq<string>, limit: int)
    ensures Collect(works, keep, authors, limit) == Take(TextPages(keep, Gathered(works, authors)), limit)
    decreases |authors|
  {
    if authors == [] {
      assert Filter(keep, []) == [];
    } else {
      var pre := authors[..|authors| - 1];
      var w := works(authors[|authors| - 1]);
      CollectSpec(works, keep, pre, limit);
      AddLinksSpec(keep, Gathered(works, pre), w, limit);
      var s := Collect(works, keep, pre, limit);
      if |s| >= limit {
        assert w[..0] == [];
        assert AddLinks(keep, s, w[..0], limit) == s;
        AddLinksStops(keep, s, w, 0, limit);
      }
    }
  }

  /** For `limit >= 0` at most `limit` URLs are collected; they are pairwise
      distinct, pass `keep`, and each is linked from some works list. */
  lemma CollectProperties(works: string -> seq<string>, keep: string -> bool, authors: seq<string>, limit: int)
    ensures limit >= 0 ==> |Collect(works, keep, authors, limit)| <= limit
    ensures Distinct(Collect(works, keep, authors, limit))
    ensures forall u :: u in Collect(works, keep, authors, limit) ==>
              keep(u) && u in Gathered(works, authors)
  {
    var g := Gathered(works, authors);
    CollectSpec(works, keep, authors, limit);
    UniqueSpec(Filter(keep, g));
    FilterMembers(keep, g);
    var r, t := Collect(works, keep, authors, limit), TextPages(keep, g);
    assert r == t[..|r|];
    forall u | u in r ensures u in t {
      var i :| 0 <= i < |r| && r[i] == u;
      assert t[i] == u;
    }
  }

  lemma {:induction false} CollectGrows(works: string -> seq<string>, keep: string -> bool, authors: seq<string>, j: nat, limit: int)
    requires j <= |authors|
    ensures |Collect(works, keep, authors[..j], limit)| <= |Collect(works, keep, authors, limit)|
    decreases |authors|
  {
    if j < |authors| {
      var pre := authors[..|authors| - 1];
      assert pre[..j] == authors[..j];
      CollectGrows(works, keep, pre, j, limit);
    } else {
      assert authors[..j] == authors;
    }
  }

  /** Works lists are fetched for a prefix of the authors, in order, and only
      while fewer than `limit` URLs are held: the first author not reached is
      reached with the limit already met. */
  lemma ReachedSpec(works: string -> seq<string>, keep: string -> bool, authors: seq<string>, limit: int)
    returns (k: nat)
    ensures k <= |authors| && Reached(works, keep, authors, limit) == authors[..k]
    ensures forall j :: 0 <= j < k ==> |Collect(works, keep, authors[..j], limit)| < limit
    ensures k < |authors| ==> |Collect(works, keep, authors[..k], limit)| >= limit
  {
    k := 0;
    while k < |authors| && |Collect(works, keep, authors[..k], limit)| < limit
      invariant k <= |authors|
      invariant Reached(works, keep, authors[..k], limit) == authors[..k]
      invariant forall j :: 0 <= j < k ==> |Collect(works, keep, authors[..j], limit)| < limit
    {
      CollectNext(works, keep, authors, k, limit);
      TakeSnoc(authors, k);
      k := k + 1;
    }
    if k < |authors| {
      CollectStops(works, keep, authors, k, limit);
    } else {
      assert authors[..k] == authors;
    }
  }

  /** The loop of `collect_text_page_urls` over the links of one works list,
      with the shared `seen` set; it is reached only below the limit. */
  method AddTextPages(collected0: seq<string>, seen0: set<string>, links: seq<string>, limit: int)
    returns (collected: seq<string>, seen: set<string>)
    requires seen0 == Elems(collected0) && |collected0| < limit
    ensures collected == AddLinks(IsTextPage, collected0, links, limit)
    ensures seen == Elems(collected)
  {
    collected, seen := collected0, seen0;
    var j := 0;
    while j < |links|
      invariant 0 <= j <= |links|
      invariant collected == AddLinks(IsTextPage, collected0, links[..j], limit)
      invariant seen == Elems(collected) && |collected| < limit
    {
      var u := links[j];
      AddLinksNext(IsTextPage, collected0, links, j, limit);
      if IsTextPage(u) && u !in seen {
        ElemsSnoc(collected, u);
        seen := seen + {u};
        collected := collected + [u];
        if |collected| >= limit {
          AddLinksStops(IsTextPage, collected0, links, j + 1, limit);
          return;
        }
      }
      j := j + 1;
    }
    assert links[..j] == links;
  }

  /** One more works-list URL. */
  lemma AllWorksUrlsSnoc(authors: seq<string>, a: string)
    ensures AllWorksUrls(authors + [a]) == AllWorksUrls(authors) + [AllWorksUrl(a)]
  {
  }

  /** One pass of the outer loop of `collect_text_page_urls`: fetch the works
      list of `authorUrl` and add its text pages. */
  method AddWorksList(site: Site, collected0: seq<string>, seen0: set<string>, authorUrl: string, limit: int)
    returns (collected: seq<string>, seen: set<string>)
    requires seen0 == Elems(collected0) && |collected0| < limit
    ensures collected == AddLinks(IsTextPage, collected0, WorksLinks(site, authorUrl), limit)
    ensures seen == Elems(collected)
  {
    var allWorksUrl := AllWorksUrl(authorUrl);
    var html := site.fetch(allWorksUrl);
    if !Truthy(html) {
      return collected0, seen0;
    }
    var links := ExtractLinks(site, html.value, allWorksUrl);
    collected, seen := AddTextPages(collected0, seen0, links, limit);
  }

  /** The outer loop of `collect_text_page_urls` over the author pages. */
  method CollectFrom(site: Site, authors: seq<string>, limit: int) returns (collected: seq<string>, fetched: seq<string>)
    ensures collected == Collect(Works(site), IsTextPage, authors, limit)
    ensures fetched == AllWorksUrls(Reached(Works(site), IsTextPage, authors, limit))
  {
    collected := [];
    var seen: set<string> := {};
    fetched := [];
    ghost var reached: seq<string> := [];
    var i := 0;
    while i < |authors|
      invariant 0 <= i <= |authors|
      invariant collected == Collect(Works(site), IsTextPage, authors[..i], limit)
      invariant reached == Reached(Works(site), IsTextPage, authors[..i], limit)
      invariant fetched == AllWorksUrls(reached)
      invariant seen == Elems(collected)
    {
      if |collected| >= limit {
        CollectStops(Works(site), IsTextPage, authors, i, limit);
        break;
      }
      CollectNext(Works(site), IsTextPage, authors, i, limit);
      var authorUrl := authors[i];
      var allWorksUrl := AllWorksUrl(authorUrl);
      AllWorksUrlsSnoc(reached, authorUrl);
      fetched := fetched + [allWorksUrl];
      reached := reached + [authorUrl];
      collected, seen := AddWorksList(site, collected, seen, authorUrl, limit);
      i := i + 1;
    }
    assert authors[..|authors|] == authors;
  }

  /** `collect_text_page_urls(limit)`: `None` when the author list cannot be
      fetched; `fetched` lists the works-list URLs requested, in order. */
  method CollectTextPageUrls(site: Site, limit: int) returns (r: Option<seq<string>>, fetched: seq<string>)
    ensures !Truthy(site.fetch(AUTHORS_PAGE)) ==> r == None && fetched == []
    ensures Truthy(site.fetch(AUTHORS_PAGE)) ==>
              var authors := AuthorPagesFrom(site, site.fetch(AUTHORS_PAGE).value);
              r == Some(Collect(Works(site), IsTextPage, authors, limit))
              && fetched == AllWorksUrls(Reached(Works(site), IsTextPage, authors, limit))
  {
    var authorPages := GetAuthorPages(site);
    if authorPages.None? {
      return None, [];
    }
    var collected;
    collected, fetched := CollectFrom(site, authorPages.value, limit);
    r := Some(collected);
  }

  // ---- urls.txt ------------------------------------------------------------

  /** `u` ends in the newline that the final `$` of TEXT_PAGE_RE lets through. */
  predicate EndsInNewline(u: string) {
    |u| > 0 && u[|u| - 1] == '\n'
  }

  /** `urls.txt` reads back, line by line, as the URLs written to it when each
      of them matches TEXT_PAGE_RE without a trailing newline. */
  lemma UrlsFileReadBack(urls: seq<string>)
    ensures (forall k :: 0 <= k < |urls| ==> IsTextPage(urls[k]) && !EndsInNewline(urls[k]))
            ==> SplitLines(NewlineTerminated(urls)) == urls
  {
    if forall k :: 0 <= k < |urls| ==> IsTextPage(urls[k]) && !EndsInNewline(urls[k]) {
      forall k | 0 <= k < |urls| ensures '\n' !in urls[k] {
        TextCoreNoNewline(urls[k]);
      }
      SplitNewlineTerminated(urls);
    }
  }

  /** A URL accepted only through that newline does not read back: its first
      line is shorter than the URL. */
  lemma UrlsFileNewlineCase(u: string, rest: seq<string>)
    requires IsTextPage(u) && EndsInNewline(u)
    ensures SplitLines(NewlineTerminated([u] + rest))[0] != u
  {
    var s := NewlineTerminated([u] + rest);
    assert ([u] + rest)[1..] == rest;
    assert s == u + "\n" + NewlineTerminated(rest);
    var i := Find(s, '\n');
    assert SplitLines(s)[0] == s[..i];
  }

  /** `main` writes the collected URLs to `urls.txt` (crawler.py:278-280). */
  method WriteUrlsFile(urls: seq<string>) returns (text: string)
    ensures text == NewlineTerminated(urls)
    ensures (forall k :: 0 <= k < |urls| ==> IsTextPage(urls[k]) && !EndsInNewline(urls[k]))
            ==> SplitLines(text) == urls
  {
    text := WriteLines(urls);
    UrlsFileReadBack(urls);
  }
}
