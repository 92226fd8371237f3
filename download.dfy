/** The download stage of task1/hw1/crawler.py: saving pages under consecutive
    numbers, the index text that maps numbers to URLs, and the URL list text.
    Files are returned as (name, content) pairs instead of being written. */
module Download {
  import opened Options
  import opened Strings
  import opened Seqs
  import opened Crawl

  /** Pages shorter than this many characters are taken for stubs. */
  const MIN_HTML_LENGTH := 1000

  datatype Page = Page(url: string, html: string)

  /** A fetch result `download_pages` saves: not falsy and not too short. */
  predicate Keeps(h: Option<string>) {
    Truthy(h) && |h.value| >= MIN_HTML_LENGTH
  }

  /** Every page of `urls` worth saving, in list order, with no quota. */
  function Qualifying(site: Site, urls: seq<string>): (r: seq<Page>)
    ensures |r| <= |urls|
    decreases |urls|
  {
    if urls == [] then []
    else
      var pre := Qualifying(site, urls[..|urls| - 1]);
      var u := urls[|urls| - 1];
      var h := site.fetch(u);
      if Keeps(h) then pre + [Page(u, h.value)] else pre
  }

  /** The pages `download_pages(urls, need)` saves. */
  function Downloads(site: Site, urls: seq<string>, need: int): seq<Page>
    decreases |urls|
  {
    if urls == [] then []
    else
      var s := Downloads(site, urls[..|urls| - 1], need);
      var u := urls[|urls| - 1];
      var h := site.fetch(u);
      if |s| >= need || !Keeps(h) then s else s + [Page(u, h.value)]
  }

  function UrlsOf(pages: seq<Page>): (r: seq<string>)
    ensures |r| == |pages| && forall k :: 0 <= k < |pages| ==> r[k] == pages[k].url
  {
    seq(|pages|, k requires 0 <= k < |pages| => pages[k].url)
  }

  lemma {:induction false} DownloadsStops(site: Site, urls: seq<string>, i: nat, need: int)
    requires i <= |urls| && |Downloads(site, urls[..i], need)| >= need
    ensures Downloads(site, urls, need) == Downloads(site, urls[..i], need)
    decreases |urls|
  {
    if i < |urls| {
      var pre := urls[..|urls| - 1];
      assert pre[..i] == urls[..i];
      DownloadsStops(site, pre, i, need);
    } else {
      assert urls[..i] == urls;
    }
  }

  /** One more URL, reached below the quota. */
  lemma DownloadsNext(site: Site, urls: seq<string>, i: nat, need: int)
    requires i < |urls| && |Downloads(site, urls[..i], need)| < need
    ensures Keeps(site.fetch(urls[i])) ==>
              Downloads(site, urls[..i + 1], need)
              == Downloads(site, urls[..i], need) + [Page(urls[i], site.fetch(urls[i]).value)]
    ensures !Keeps(site.fetch(urls[i])) ==>
              Downloads(site, urls[..i + 1], need) == Downloads(site, urls[..i], need)
  {
    assert urls[..i + 1][..i] == urls[..i];
  }

  /** Downloading saves the first `need` pages worth saving and skips the rest. */
  lemma {:induction false} DownloadsSpec(site: Site, urls: seq<string>, need: int)
    ensures Downloads(site, urls, need) == Take(Qualifying(site, urls), need)
    decreases |urls|
  {
    if urls != [] {
      var pre := urls[..|urls| - 1];
      DownloadsSpec(site, pre, need);
      var q := Qualifying(site, pre);
      var s := Downloads(site, pre, need);
      var q' := Qualifying(site, urls);
      assert |q| <= |q'| && q'[..|q|] == q;
      if |s| >= need {
        TakePrefix(q, q', need);
      }
    }
  }

  /** The saved URLs occur in `urls` in the same order. */
  lemma {:induction false} QualifyingSubsequence(site: Site, urls: seq<string>) returns (idx: seq<nat>)
    ensures |idx| == |Qualifying(site, urls)|
    ensures forall k :: 0 <= k < |idx| ==>
              idx[k] < |urls| && urls[idx[k]] == Qualifying(site, urls)[k].url
    ensures forall k, l :: 0 <= k < l < |idx| ==> idx[k] < idx[l]
    decreases |urls|
  {
    if urls == [] {
      return [];
    }
    var n := |urls|;
    var pre := urls[..n - 1];
    idx := QualifyingSubsequence(site, pre);
    if Keeps(site.fetch(urls[n - 1])) {
      idx := idx + [n - 1];
    }
  }

  /** At most `need` pages are saved (for `need >= 0`) and at most one per URL;
      their URLs are an order-preserving subsequence of `urls`; each saved page
      is the body returned for its URL, which is long enough. */
  lemma DownloadsProperties(site: Site, urls: seq<string>, need: int)
    ensures need >= 0 ==> |Downloads(site, urls, need)| <= need
    ensures |Downloads(site, urls, need)| <= |urls|
    ensures SubsequenceOf(UrlsOf(Downloads(site, urls, need)), urls)
    ensures forall p :: p in Downloads(site, urls, need) ==>
              Keeps(site.fetch(p.url)) && site.fetch(p.url).value == p.html
  {
    DownloadsSpec(site, urls, need);
    DownloadsSubsequence(site, urls, need);
    QualifyingPages(site, urls);
    var q, d := Qualifying(site, urls), Downloads(site, urls, need);
    forall p | p in d ensures p in q {
      var k :| 0 <= k < |d| && d[k] == p;
      assert q[k] == p;
    }
  }

  lemma DownloadsSubsequence(site: Site, urls: seq<string>, need: int)
    ensures SubsequenceOf(UrlsOf(Downloads(site, urls, need)), urls)
  {
    DownloadsSpec(site, urls, need);
    var q := Qualifying(site, urls);
    var d := Downloads(site, urls, need);
    var idx := QualifyingSubsequence(site, urls);
    SubsequenceWitness(UrlsOf(q), urls, idx);
    SubsequencePrefix(UrlsOf(q), urls, |d|);
    UrlsOfPrefix(q, |d|);
  }

  lemma UrlsOfPrefix(pages: seq<Page>, n: nat)
    requires n <= |pages|
    ensures UrlsOf(pages[..n]) == UrlsOf(pages)[..n]
  {
  }

  lemma {:induction false} QualifyingPages(site: Site, urls: seq<string>)
    ensures forall p :: p in Qualifying(site, urls) ==>
              Keeps(site.fetch(p.url)) && site.fetch(p.url).value == p.html
    decreases |urls|
  {
    if urls != [] {
      QualifyingPages(site, urls[..|urls| - 1]);
    }
  }

  // ---- file names and the index ------------------------------------------

  /** The file a page is saved to, relative to the dump directory. */
  function FileName(num: nat): string {
    Decimal(num) + ".txt"
  }

  /** `f"{num}\t{url}"`. */
  function IndexLine(num: nat, url: string): string {
    Decimal(num) + "\t" + url
  }

  /** An index line reads back as its number, a tab, then its URL. */
  lemma IndexLineParse(num: nat, url: string)
    ensures var d := Decimal(num);
            var l := IndexLine(num, url);
            |d| < |l| && l[..|d|] == d && '\t' !in d && l[|d|] == '\t' && l[|d| + 1..] == url
            && DecimalValue(l[..|d|]) == num
  {
    var d := Decimal(num);
    DecimalRoundTrip(num);
    assert '\t' !in d by {
      assert forall i :: 0 <= i < |d| ==> IsAsciiDigit(d[i]);
    }
  }

  /** The lines of the index file for the saved `pages`, numbered from 1. */
  function IndexLines(pages: seq<Page>): (r: seq<string>)
    ensures |r| == |pages| && forall k :: 0 <= k < |pages| ==> r[k] == IndexLine(k + 1, pages[k].url)
  {
    seq(|pages|, k requires 0 <= k < |pages| => IndexLine(k + 1, pages[k].url))
  }

  /** `download_pages(urls, need)`: returns `saved`, the saved files and the
      text of the index file. */
  method DownloadPages(site: Site, urls: seq<string>, need: int)
    returns (saved: int, files: seq<(string, string)>, indexText: string)
    ensures var pages := Downloads(site, urls, need);
            saved == |pages| && |files| == saved
            && (forall k :: 0 <= k < saved ==> files[k] == (FileName(k + 1), pages[k].html))
            && indexText == NewlineTerminated(IndexLines(pages))
  {
    var indexLines: seq<string> := [];
    files := [];
    saved := 0;
    ghost var pages: seq<Page> := [];
    var i := 0;
    while i < |urls|
      invariant 0 <= i <= |urls|
      invariant pages == Downloads(site, urls[..i], need)
      invariant saved == |pages| && |files| == saved
      invariant forall k :: 0 <= k < saved ==> files[k] == (FileName(k + 1), pages[k].html)
      invariant indexLines == IndexLines(pages)
    {
      if saved >= need {
        DownloadsStops(site, urls, i, need);
        break;
      }
      var url := urls[i];
      DownloadsNext(site, urls, i, need);
      var html := site.fetch(url);
      if !Truthy(html) {
        i := i + 1;
        continue;
      }
      if |html.value| < MIN_HTML_LENGTH {
        i := i + 1;
        continue;
      }
      var num := saved + 1;
      files := files + [(FileName(num), html.value)];
      indexLines := indexLines + [IndexLine(num, url)];
      pages := pages + [Page(url, html.value)];
      saved := saved + 1;
      i := i + 1;
    }
    assert urls[..|urls|] == urls;
    indexText := Join(indexLines, "\n") + (if indexLines != [] then "\n" else "");
    JoinWithTrailingNewline(indexLines);
  }
}
