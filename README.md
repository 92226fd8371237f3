# ilibrary crawler and per-file token/lemma dictionaries — a Dafny model

The repository builds a small corpus of Russian literature in two steps.

1. A crawler (`task1/hw1/crawler.py`):
   - reads the authors index of ilibrary.ru;
   - finds every author page;
   - turns each into the author's "all works" page (`l.all/index.html`);
   - collects up to `limit` distinct text-page URLs (`/text/<id>/p.<n>/index.html`);
   - writes them to `urls.txt`;
   - downloads the first `need` pages that are HTML, no larger than 5 MB and at least 1000 characters long;
   - saves them as `1.txt`, `2.txt`, …;
   - writes an `index.txt` that maps each number to its URL.
2. A tokenizer (`task2/tokens_lemmas.py`) handles each saved page:
   - finds the Cyrillic words of its text, lower-cased, with at most one inner hyphen;
   - strips the clitics `-то`, `-де`, `-ка` and `-т`;
   - counts the clean tokens, at least three characters long (a hyphen counts as one);
   - keeps the tokens the morphological analyser trusts, with a stricter threshold for words seen once;
   - groups the kept tokens by their normal form;
   - writes a sorted token list and a sorted `lemma tok tok …` list.

The model is split into modules that follow these steps:

- `Fetch`: the content-type and streaming size gates of `fetch_html`.
- `Urls`: the two URL regular expressions, reference URL shapes, and the `l.all` rewrite.
- `Crawl`: link extraction, the author pages, and the bounded, de-duplicated collection of text pages.
- `Download`: the bounded download, file numbering and the index text.
- `Tokens`: `WORD_RE` scanning, `normalize_token`, `is_clean_token` and `file_id_from_path`.
- `Lemmatize`: counting, the morphological filter, grouping and the two output texts.
- Shared helpers: `Strings`, `Seqs` (filter, first-occurrence de-duplication, take), `Order` (Python string order, `sorted` of a set) and `Options`.

The network and the outside libraries are parameters of the model:

- `Crawl.Site` holds `fetch`, the page or nothing for a URL, standing for `fetch_html`. It also holds `parse`, the raw `href` values of a page in document order, standing for BeautifulSoup. Its `join` stands for `urljoin`.
- `Lemmatize.Analysis` is the best parse that `pymorphy3` returns for a token.

The loops of the source are methods. Most methods are proved equal to a specification function defined by recursion on the input, and lemmas then state what those functions mean: bounds, distinctness, order, membership rules and read-back of written lines. The others (Fetch.FetchHtml, Lemmatize.CountWords, Lemmatize.SelectTokens, Lemmatize.GroupByLemma) state their result directly or against a set or map description.

## Model

| member | source | states |
|---|---|---|
| Fetch.IsHtml | task1/hw1/crawler.py:74-75 | the content-type gate: the header (`""` when absent), lower-cased, contains `text/html`; the first clauses of Fetch.FetchHtml give None without reading a chunk when it fails |
| Fetch.FetchHtml | task1/hw1/crawler.py:56-98 | gives None without reading anything when the request fails or the lower-cased Content-Type lacks `text/html`; for HTML gives None exactly when some running total exceeds MAX_BYTES, stopping at the first chunk that does; otherwise reads the whole stream, the body is the non-empty chunks joined and is at most MAX_BYTES long |
| Fetch.ConcatNonEmpty | task1/hw1/crawler.py:87-98 | skipping empty chunks does not change the joined body, whose length is the sum of the chunk lengths |
| Strings.Strip | task1/hw1/crawler.py:117 | `str.strip()`: drops the leading and the trailing run of white space; Strings.StripShape and Strings.StripIdempotent characterise it |
| Strings.StripShape | task1/hw1/crawler.py:117 | `strip()` leaves a contiguous slice with only whitespace cut on either side, with no whitespace at its ends, and is empty exactly when the input is all whitespace |
| Strings.StripIdempotent | task1/hw1/crawler.py:117 | stripping twice is stripping once |
| Crawl.Links | task1/hw1/crawler.py:116-121 | the links of an href list, at most one per href; Crawl.LinksConcat and Crawl.LinksSingle fix it href by href |
| Crawl.ExtractLinks | task1/hw1/crawler.py:106-122 | the loop returns the joined, stripped, non-blank hrefs of the page in document order |
| Crawl.LinksConcat | task1/hw1/crawler.py:116-121 | link extraction distributes over concatenation of the href list |
| Crawl.LinksSingle | task1/hw1/crawler.py:117-121 | a single href gives no link when blank after stripping, else the one joined link |
| Urls.IsAuthorPage | task1/hw1/crawler.py:144 | the author-page pattern, whose `$` also matches before one final newline; Urls.AuthorCoreIff gives the URLs it accepts |
| Urls.IsTextPage | task1/hw1/crawler.py:43 | TEXT_PAGE_RE, whose `$` also matches before one final newline; Urls.TextCoreIff gives the URLs it accepts |
| Urls.AuthorCoreIff | task1/hw1/crawler.py:144 | a URL matches the author-page pattern (without a trailing newline) exactly when it is `http(s)://[www.]ilibrary.ru/author/<slug>/index.html` for a slug with no `/` |
| Urls.TextCoreIff | task1/hw1/crawler.py:43 | a URL matches TEXT_PAGE_RE (without a trailing newline) exactly when it is `http(s)://[www.]ilibrary.ru/text/<digits>/p.<digits>/index.html` |
| Urls.AfterHostInverse | task1/hw1/crawler.py:43 | a URL accepted by the scheme-and-host prefix is that scheme and host followed by the rest |
| Seqs.Select | task1/hw1/crawler.py:140-145 | the filter loop keeps exactly the elements that pass, in order |
| Seqs.FilterMembers | task1/hw1/crawler.py:140-145 | an element is in the filtered list iff it is in the list and passes |
| Crawl.KeepFirstOccurrences | task1/hw1/crawler.py:147-155 | the seen-set loop returns the first-occurrence de-duplication of its input |
| Seqs.UniqueSpec | task1/hw1/crawler.py:147-155 | de-duplication gives a list without repeats, with the same members, in order of first occurrence |
| Crawl.AuthorPagesSpec | task1/hw1/crawler.py:138-155 | the author pages are distinct, are exactly the extracted links that match the author pattern, and keep their first-occurrence order |
| Crawl.GetAuthorPages | task1/hw1/crawler.py:134-155 | a falsy authors page gives None (the RuntimeError); otherwise the de-duplicated author links of that page |
| Urls.ReplaceAll | task1/hw1/crawler.py:169 | `str.replace` with a non-empty pattern, left to right without overlap; Urls.ReplaceAbsent and Urls.ReplaceAtFirst characterise it |
| Urls.AllWorksUrl | task1/hw1/crawler.py:158-169 | `author_to_all_works_url`; Urls.AllWorksUrlOfAuthor gives its result on every `AuthorUrl` whose slug does not begin with `index.html` |
| Urls.ReplaceAbsent | task1/hw1/crawler.py:169 | `replace` leaves a string without the pattern unchanged |
| Urls.ReplaceAtFirst | task1/hw1/crawler.py:169 | `replace` rewrites the first occurrence and continues after it |
| Urls.AllWorksUrlOfAuthor | task1/hw1/crawler.py:158-169 | an author page URL is rewritten to the same scheme and host followed by `/author/<slug>/l.all/index.html` |
| Crawl.AddLinks | task1/hw1/crawler.py:201-207 | the inner loop as a function: it only appends to what was collected; Crawl.AddLinksSpec shows it extends the first `limit` de-duplicated matching links by one more works list |
| Crawl.Collect | task1/hw1/crawler.py:186-207 | the author loop as a function; Crawl.CollectSpec, Crawl.CollectProperties and Crawl.CollectGrows characterise it |
| Crawl.AddTextPages | task1/hw1/crawler.py:201-207 | the inner loop appends each new link that matches TEXT_PAGE_RE and is not yet seen, stops at the limit, and keeps the seen set equal to the collected elements |
| Crawl.AddWorksList | task1/hw1/crawler.py:193-207 | one author step: a falsy all-works page adds nothing, else its links are added as above |
| Crawl.CollectFrom | task1/hw1/crawler.py:186-213 | the author loop produces the specified collection and fetches the all-works pages of exactly the authors reached before the limit |
| Crawl.CollectTextPageUrls | task1/hw1/crawler.py:172-213 | None when the authors page is falsy; otherwise the collection over the author pages, with the list of all-works URLs it fetched |
| Crawl.CollectSpec | task1/hw1/crawler.py:186-207 | the collection is the first `limit` elements of the de-duplicated matching links of all authors' works lists taken in order |
| Crawl.CollectProperties | task1/hw1/crawler.py:186-207 | at most `limit` URLs, no repeats, each matching the filter and found on some author's works list |
| Crawl.CollectGrows | task1/hw1/crawler.py:189-207 | more authors never shrink the collection |
| Crawl.ReachedSpec | task1/hw1/crawler.py:189-194 | the authors whose works lists are fetched are a prefix of the list: each was reached with fewer than `limit` URLs, and the next one (if any) was not |
| Download.Downloads | task1/hw1/crawler.py:237-258 | the loop of `download_pages` as a function; Download.DownloadsSpec and Download.DownloadsProperties characterise it |
| Download.DownloadPages | task1/hw1/crawler.py:225-266 | returns the number of saved pages; page k is saved as `(k+1).txt` with its HTML, and the index text is the lines `num<TAB>url`, each newline-terminated |
| Download.DownloadsSpec | task1/hw1/crawler.py:237-258 | the saved pages are the first `need` pages worth saving (truthy and at least 1000 characters) in URL order |
| Download.DownloadsProperties | task1/hw1/crawler.py:237-258 | at most `need` pages and one per URL; their URLs are a subsequence of the input; each saved body is the one fetched for its URL and long enough |
| Download.DownloadsSubsequence | task1/hw1/crawler.py:237-258 | the saved URLs occur in the input list in the same order |
| Download.IndexLineParse | task1/hw1/crawler.py:257 | an index line reads back as its decimal number, one tab and the URL |
| Strings.JoinWithTrailingNewline | task1/hw1/crawler.py:264 | joining with newlines, plus a final newline when non-empty, is each line followed by a newline |
| Strings.DecimalRoundTrip | task1/hw1/crawler.py:252-257 | the decimal form of a number reads back as that number |
| Strings.WriteLines | task1/hw1/crawler.py:278-280 | writing `u + "\n"` for each URL gives each line followed by a newline |
| Crawl.WriteUrlsFile | task1/hw1/crawler.py:278-280 | the text of `urls.txt` is each collected URL followed by a newline, and it reads back line by line as those URLs when each matches TEXT_PAGE_RE without a trailing newline |
| Crawl.UrlsFileReadBack | task1/hw1/crawler.py:278-280 | URLs that match TEXT_PAGE_RE without a trailing newline read back from the written text unchanged |
| Crawl.UrlsFileNewlineCase | task1/hw1/crawler.py:43 | a URL that TEXT_PAGE_RE accepts only through `$` before a final newline does not read back as the first line of `urls.txt` |
| Urls.TextCoreNoNewline | task1/hw1/crawler.py:43 | a URL of the text-page shape contains no newline |
| Strings.SplitNewlineTerminated | task1/hw1/crawler.py:278-280 | a newline-terminated text of newline-free lines splits back into those lines |
| Strings.Lower | task2/tokens_lemmas.py:62 | `str.lower()`: the same length, each character mapped on its own; Strings.LowerIdempotent and Strings.LowerMapsRussianCapitals state what the mapping does |
| Strings.LowerIdempotent | task2/tokens_lemmas.py:62 | lower-casing twice is lower-casing once |
| Strings.LowerMapsRussianCapitals | task2/tokens_lemmas.py:24 | every Russian capital letter lower-cases into the lower-case letter class `[а-яё]` |
| Strings.ContainsIff | task1/hw1/crawler.py:75 | the substring test holds iff the pattern occurs at some position |
| Tokens.NormalizeToken | task2/tokens_lemmas.py:56-66 | `normalize_token`; Tokens.NormalizeClitic and Tokens.NormalizeCases give its result in both cases |
| Tokens.NormalizeClitic | task2/tokens_lemmas.py:56-66 | a token whose lower-cased form is `stem-то/де/ка/т` normalises to the stem |
| Tokens.NormalizeCases | task2/tokens_lemmas.py:56-66 | a normalised token is either the lower-cased token or the stem of its clitic form |
| Tokens.StripCliticCases | task2/tokens_lemmas.py:63-66 | the clitic step either returns its input or a stem whose clitic form is the input |
| Tokens.CliticStemForm | task2/tokens_lemmas.py:30 | when CLITIC_RE matches, the input (also with one trailing newline allowed by `$`) is that stem, a hyphen and a clitic |
| Tokens.IsCleanToken | task2/tokens_lemmas.py:69-78 | `is_clean_token`; Tokens.CleanTokenIff gives the tokens it accepts |
| Tokens.WordShapeIff | task2/tokens_lemmas.py:78 | the full-match test holds iff the token is one Cyrillic run, or two joined by one hyphen |
| Tokens.CleanTokenIff | task2/tokens_lemmas.py:69-78 | a token is clean iff its lower-cased form has at least three characters and has that word shape |
| Tokens.FileIdFromPath | task2/tokens_lemmas.py:81-85 | `file_id_from_path`; Tokens.FileIdOf, Tokens.FileIdNoExtension and Tokens.FileIdOfDump give its result |
| Tokens.FileIdOf | task2/tokens_lemmas.py:81-85 | the id of `dir/name.ext` is `name` |
| Tokens.FileIdNoExtension | task2/tokens_lemmas.py:81-85 | the id of a path without an extension is its base name |
| Tokens.FileIdOfDump | task2/tokens_lemmas.py:81-85 | the id of a dump file `dir/<n>.txt` is `<n>` |
| Tokens.LetterRunSpec | task2/tokens_lemmas.py:24 | a letter run covers only lower-case Cyrillic letters and ends before the next non-letter |
| Tokens.MatchShape | task2/tokens_lemmas.py:24 | each match of WORD_RE has the word shape |
| Tokens.MatchesInside | task2/tokens_lemmas.py:24 | each match found from a position lies in the text after that position, is non-empty and has the word shape |
| Tokens.Matches | task2/tokens_lemmas.py:104 | the spans of `WORD_RE.finditer`: Tokens.MatchesWellFormed (shape, inside, ordered), Tokens.MatchesCover (no letter missed) and Tokens.MatchesMaximal (each span as long as the greedy scan makes it) characterise them |
| Tokens.MatchesMaximal | task2/tokens_lemmas.py:24 | every match starts at a letter not right after another (past the scan start), is not followed by a letter, and when hyphen-free is not followed by `-` and a letter |
| Tokens.HyphenatedMatches | task2/tokens_lemmas.py:23-24 | two letter runs joined by one hyphen come out as a single word |
| Tokens.NorthWestIsOneWord | task2/tokens_lemmas.py:23-24 | `северо-запад` is scanned as the one word `северо-запад` |
| Tokens.Words | task2/tokens_lemmas.py:104 | the matched words, one per span of Tokens.Matches, in order |
| Tokens.MatchesOrdered | task2/tokens_lemmas.py:104 | the matches of `finditer` come left to right without overlap |
| Tokens.MatchesWellFormed | task2/tokens_lemmas.py:104 | matches lie inside the text, are non-empty, have the word shape and do not overlap |
| Tokens.MatchesCover | task2/tokens_lemmas.py:104 | every lower-case Cyrillic letter of the text lies inside some match |
| Lemmatize.CountWords | task2/tokens_lemmas.py:102-107 | the counting loop tallies exactly the clean normalised words, each with its number of occurrences |
| Lemmatize.CountTokens | task2/tokens_lemmas.py:102-107 | the counter's keys are exactly the counted tokens of the text and each count is that token's multiplicity |
| Lemmatize.CountedTokensSpec | task2/tokens_lemmas.py:102-107 | every counted token is clean and is counted as often as it occurs among the normalised words |
| Lemmatize.SelectTokens | task2/tokens_lemmas.py:109-130 | a token is kept iff it was counted, is known, is not of a dropped part of speech, scores at least MIN_SCORE, and scores at least HAPAX_SCORE when seen once |
| Order.Less | task2/tokens_lemmas.py:132 | `<` on `str`; Order.LessIrreflexive, Order.LessTransitive and Order.LessTotal make it a strict total order |
| Order.SortedOf | task2/tokens_lemmas.py:132 | `sorted` of a set lists each element once, in strictly increasing order |
| Order.SortedOfUnique | task2/tokens_lemmas.py:132 | a strictly sorted list of the elements of a set is `sorted` of that set |
| Order.LessTotal | task2/tokens_lemmas.py:132 | two different strings are ordered one way or the other |
| Order.LessTransitive | task2/tokens_lemmas.py:132 | string order is transitive |
| Lemmatize.GroupByLemma | task2/tokens_lemmas.py:134-137 | the grouping loop maps each normal form to the set of kept tokens that have it |
| Lemmatize.GroupsOfAdd | task2/tokens_lemmas.py:135-137 | adding a token adds it to the group of its normal form, creating the group if needed |
| Lemmatize.GroupsPartition | task2/tokens_lemmas.py:134-137 | every group is non-empty, every token is in the group of its normal form, and nothing else is in any group |
| Lemmatize.ProcessOneFile | task2/tokens_lemmas.py:88-139 | the token list is strictly sorted and holds exactly the counted tokens that pass the morphological filter; the groups are those tokens grouped by normal form |
| Lemmatize.WriteOutputs | task2/tokens_lemmas.py:142-160 | the tokens text is each token followed by a newline; the lemmas text is one line per lemma, in lemma order, each followed by a newline |
| Lemmatize.WriteLemmaLines | task2/tokens_lemmas.py:157-160 | the lemma loop writes `lemma tok …` lines in sorted lemma order |
| Lemmatize.LemmaLineParse | task2/tokens_lemmas.py:160 | a lemma line split at spaces reads back as the lemma followed by its sorted tokens |
| Strings.SplitJoin | task2/tokens_lemmas.py:160 | joining space-free words with a space and splitting at spaces gives the words back |

## Left out

- The HTTP transport is a `Site.fetch` oracle standing for all of `fetch_html`. Timeouts, redirects and `resp.close()` are not modelled. An exception raised while streaming is not modelled.
- Fetch.FetchHtml: stops at the raw bytes. The `decode` step with its guessed encoding and `errors="replace"` is not modelled, so the page text used by `Crawl` and `Download` is a separate `fetch` oracle.
- `fetch` is a pure function of the URL, so fetching the same URL twice gives the same answer.
- HTML parsing (BeautifulSoup `find_all("a", href=True)` and `html_to_text`) is an oracle. So is `urljoin`.
- The `pymorphy3` analyser is an oracle: the best parse of a token. `hasattr(p, "is_known")` is taken to hold, so `is_known` is a plain field.
- `polite_sleep`, randomness, printing and progress logging have no effect on results, so they are left out.
- File I/O and `os.makedirs`/`os.path.join` are left out. Download.DownloadPages returns the saved pages as (name, text) pairs. Lemmatize.WriteOutputs returns only the two texts; the file names `tokens{ID}.txt` and `lemmas{ID}.txt` are not modelled.
- Both `main` functions are left out: the directory glob, the `SystemExit`, and the final comparison with the quota.
- Crawl.GetAuthorPages: the `RuntimeError` is modelled as `None`. Crawl.CollectTextPageUrls passes that `None` on.
- Strings.IsSpace: `str.strip()` strips all Unicode whitespace. The model knows only the Latin-1 whitespace characters.
- Strings.Lower: only A–Z and U+0400–U+042F are lower-cased; other capitals, such as `Ѣ` (U+0462), are left unchanged where Python lowers them. The `re.IGNORECASE` matching is reduced to lower-casing first. Under `re.IGNORECASE` Python also lets `[а-яё]` match U+1C80..U+1C86, which `lower()` leaves unchanged. So on `приᲀет` Python finds one unclean word, while the model finds `при` and `ет`.
- Urls.IsTextPage: `\d` is taken as the ASCII digits only.
- Crawl.AddTextPages: requires that the collection is still below the limit. Its only caller checks this before each author.
- Urls.AllWorksUrlOfAuthor: requires that the slug does not begin with `index.html`. Otherwise `replace` would rewrite a second occurrence.
- Tokens.Basename: paths are taken as POSIX paths, split at `/` only. On Windows `os.path` would also split at `\`.
