# dod_spending — a Dafny model of the PDF search script

`dod_spending.py` searches the web for Department of Defense spending PDFs.
It works in four steps:

1. It reads a list of `Title:query` entries, or falls back to three
   built-in queries.
2. It runs one search per query. Each search result is handled by kind:
   - a URL ending in `.pdf` gets a HEAD check;
   - any other URL is fetched, and the `.pdf` links on that page get HEAD checks.
3. It collects the URLs whose HEAD check answers 200.
4. It writes a dated text report.

This project models the sequential logic of that script and proves
properties about it. It has three parts.

- **Query parsing** (`App`): `SearchApplication._get_queries`.
  - An entry is split at its first `:` only, and both halves are stripped
    of whitespace, as Python's `str.strip()` does.
  - The result is stored in an insertion-ordered map (`OrderedMap`, Python's
    `dict`). A repeated title overwrites the earlier query but keeps the
    title's position.
  - The first entry without a `:` ends the program with exit code 1.
  - An absent or empty list gives the built-in queries.
- **The crawl** (`Crawl`): `PDFSearcher.find_pdf_links`, `_process_url`,
  `_check_direct_pdf` and `_scrape_page_for_pdfs`.
  - The outside world is a `Web` value with four oracles: HEAD, GET plus
    link extraction, `urljoin`, and the search provider.
  - Each worker-pool loop runs sequentially. The shared `pdf_links` set is
    threaded through the methods as a value.
  - Only a HEAD status of exactly 200 admits a URL. Every exception
    leaves the set as it was.
  - `FindsOverMembership` characterises the result set in full: a URL is in
    it exactly when it passes the HEAD check and one search result offers
    it. A `.pdf` result offers itself; any other result offers the resolved
    `.pdf` links of its one page.
  - `FindsOverOrderIndependent` shows that the order of the results does not
    matter. Given oracles that answer the same for the same URL throughout
    a run (see "## Left out"), this is why a sequential loop stands in for
    the thread pools.
- **The report** (`Report`): `FileHandler.save_results` and the file-name
  choice in `_save_results`. The report is the sequence of lines written:
  - a header line, then an empty line;
  - for each title in map order: a count line, the links in code-point order
    (Python's `sorted` on `str`), then an empty line.

Supporting modules:

- `Text` models `strip`, `split(":", 1)`, `endswith`, decimal formatting and
  string ordering.
- `Basics` holds `Option`.

The code admits a URL only when its HEAD status is exactly 200
(dod_spending.py:78). Other 2xx statuses do not count, and the model follows
the code.

The clocks are parameters: `time.ctime()` is the header's timestamp and
`time.strftime` is the file-name stamp. The command-line values are
parameters too: the `-q` list as `Option<seq<string>>` and the `-o` value as
`Option<string>`.

## Model

| member | source | states |
|---|---|---|
| Text.StripSpec | dod_spending.py:149 | `strip()` leaves the infix between a whitespace-only prefix and a whitespace-only suffix, and that infix neither starts nor ends with whitespace |
| Text.TrimStartSpec | dod_spending.py:149 | removing leading whitespace leaves a suffix of the input that does not start with whitespace, and everything removed is whitespace |
| Text.TrimEndSpec | dod_spending.py:149 | removing trailing whitespace leaves a prefix of the input that does not end with whitespace, and everything removed is whitespace |
| Text.StripIdempotent | dod_spending.py:149 | stripping a stripped string changes nothing |
| Text.StripEmptyIffAllSpace | dod_spending.py:149 | a string strips to the empty string exactly when all its characters are whitespace |
| Text.SplitOnce | dod_spending.py:148 | `split(":", 1)` unpacked into two names fails (ValueError) exactly when there is no `:`; otherwise the entry is head, `:`, tail, and the head holds no `:` |
| Text.SplitOnceUnique | dod_spending.py:148 | the split is determined: any head without `:` followed by `:` and a tail is the split that is returned |
| Text.Decimal | dod_spending.py:107 | `str(len(links))` is a non-empty string of digits with no leading zero |
| Text.DecimalRoundTrip | dod_spending.py:107 | reading the written digits back gives the count |
| Text.LexIrreflexive | dod_spending.py:108 | the string order used by `sorted` is irreflexive |
| Text.LexTransitive | dod_spending.py:108 | the string order used by `sorted` is transitive |
| Text.LexTrichotomy | dod_spending.py:108 | any two distinct strings are ordered one way or the other |
| Text.LexAsymmetric | dod_spending.py:108 | no two strings are each below the other |
| OrderedMap.Put | dod_spending.py:149 | `d[k] = v` maps `k` to `v`, keeps every other key's value, keeps the key order, appends a new key at the end, and keeps keys distinct |
| Crawl.PdfUrls | dod_spending.py:91-92 | the list comprehension fails exactly when some `.pdf` href fails to resolve; otherwise it holds exactly the resolutions of the `.pdf` hrefs |
| Crawl.PageCandidates | dod_spending.py:86-96 | a page offers exactly the resolutions of its `.pdf` hrefs when the GET succeeded with a non-error status and every resolution succeeded; it offers nothing when one `urljoin` raises, and nothing otherwise |
| Crawl.FindsOver | dod_spending.py:59-60 | every URL collected from the search results passed the HEAD check |
| Crawl.FindsOverMembership | dod_spending.py:59-98 | a URL is collected exactly when its HEAD status is 200 and some search result offers it (itself if it ends in `.pdf`, else a resolved `.pdf` link of its page) |
| Crawl.UrlFindsMembership | dod_spending.py:66-98 | one search result adds exactly the admitted URLs it offers |
| Crawl.QueryFindsMembership | dod_spending.py:52-64 | a query's set is empty when the search fails, and otherwise holds exactly the admitted URLs some result offers |
| Crawl.FindsOverOrderIndependent | dod_spending.py:59-60 | any reordering of the search results yields the same set, so concurrent processing order does not matter |
| Crawl.FindsOverFrame | dod_spending.py:66-95 | GET is consulted only at non-`.pdf` search results: worlds that agree on HEAD, on `urljoin` and on GET at those URLs collect the same set, so extracted links are never fetched |
| Crawl.PdfUrlsFrame | dod_spending.py:91-92 | the resolved links depend on `urljoin` alone |
| Crawl.QueryFindsFrame | dod_spending.py:52-95 | the query-level form of the frame property |
| Crawl.CheckDirectPdf | dod_spending.py:75-84 | the set gains `url` exactly when HEAD answers 200, and is otherwise unchanged (other status or transport failure) |
| Crawl.ScrapePageForPdfs | dod_spending.py:86-98 | the set gains exactly the page's resolved `.pdf` links that pass HEAD, and nothing on a failed fetch, an error status or a failed resolution |
| Crawl.ProcessUrl | dod_spending.py:66-73 | a `.pdf` URL is HEAD-checked directly and any other URL is scraped; the set gains exactly what that URL yields |
| Crawl.FindPdfLinks | dod_spending.py:52-64 | the result is the union of what every search result yields, empty when the search fails, and every member passed the HEAD check |
| Report.SortedLinksSpec | dod_spending.py:108 | `sorted(links)` lists every member once, in strictly increasing order |
| Report.SortedLinksUnique | dod_spending.py:108 | any strictly increasing listing of the set is the `sorted` one |
| Report.ReportLines | dod_spending.py:105 | the report opens with `Search performed on: <timestamp>` and an empty line |
| Report.BlockLayout | dod_spending.py:107-110 | a block is `<title> (<n> results):`, the `n` links in sorted order, then an empty line |
| Report.BlocksLength | dod_spending.py:106-110 | the blocks take the sum over entries of links + 2 lines |
| Report.ReportLineCount | dod_spending.py:105-110 | the report has 2 + Σ(\|links\| + 2) lines |
| Report.BlockPlacement | dod_spending.py:106-110 | each entry's block sits right after the header and the blocks of the entries before it |
| Report.ReportLayout | dod_spending.py:105-110 | at the start of entry `k`'s block are its count line, then its links sorted, then an empty line |
| Report.ReportIgnoresTimestamp | dod_spending.py:105 | the timestamp affects the header line only |
| Report.WriteBlock | dod_spending.py:107-110 | one turn of the outer loop appends exactly that entry's block |
| Report.SaveResults | dod_spending.py:102-110 | the nested loops write exactly the report lines |
| App.EntrySplitsAtFirstColon | dod_spending.py:148-149 | the title is the stripped text before the first `:`; the query is the stripped rest, with any later `:` kept |
| App.ParseFrom | dod_spending.py:145-152 | a parsed map has distinct keys and no more keys than the entries seen |
| App.ParseExitIffMissingSeparator | dod_spending.py:146-152 | parsing exits exactly when some entry has no `:`, with code 1, naming the first such entry, and returns no map |
| App.ParseKeys | dod_spending.py:145-149 | the keys are the titles in order of first occurrence |
| App.ParseLastWins | dod_spending.py:145-149 | every title maps to the query of its last entry |
| App.ParseUntouched | dod_spending.py:145-149 | parsing changes no key that no entry names |
| App.ParsedEntries | dod_spending.py:145-153 | from an empty map: the keys are exactly the titles, there are between 1 and \|entries\| of them, and the later duplicate wins |
| App.ParsedQueriesNonEmpty | dod_spending.py:141-159 | whatever the parsing returns has at least one query and distinct titles, and `min(len(queries), 5)`, the outer pool's worker count, is at least 1 |
| App.ParseExitCode | dod_spending.py:150-152 | the only exit code parsing produces is 1 |
| App.GetQueries | dod_spending.py:141-153 | the loop computes the parse; an absent or empty list gives exactly the three built-in queries |
| App.SearchResults | dod_spending.py:155-178 | the result map has the query titles as keys, in the queries' order |
| App.SearchResultsGrow | dod_spending.py:165-170 | each stored title is new, so storing it appends one entry |
| App.PerformSearches | dod_spending.py:155-178 | each title maps to what its query finds, in query order, with distinct keys |
| App.ReportFilename | dod_spending.py:180-182 | the name is the `-o` value when that is non-empty, and otherwise `dod_spending_pdfs_<stamp>.txt` |
| App.Run | dod_spending.py:121-125 | a run exits with code 1 exactly when parsing fails; otherwise it saves the report of the searched queries under the chosen name |

## Left out

- HTTP transport, retries and backoff (`SessionManager`, `Config.max_retries`, `backoff_factor`, `retry_status_codes`, `timeout`, `user_agent`):
  - HEAD and GET are oracles that return a final status or a failure;
  - redirects followed by HEAD are inside that oracle; GET also follows redirects (the `requests` default) inside its oracle, and the page's hrefs are joined against the requested `url`, not the final response URL, as the source does.
- `googlesearch.search`, BeautifulSoup and `urljoin` are foreign libraries. They are oracles in `Crawl.Web`:
  - the parser's output is the list of `href` values;
  - a `urljoin` `ValueError` is `None`.
- Thread pools and `threading.Lock`: every pool runs its work sequentially. Set insertion commutes (`Crawl.FindsOverOrderIndependent`), so the final set is the same.
  - The crawl threads `pdf_links` through as a value (links in, links out) instead of sharing one mutable set. Aliasing between workers is not modelled.
  - Exceptions that `executor.map` would drop are modelled as "adds nothing".
- `time.sleep` after each URL is left out (no observable effect on the result).
- `time.ctime` and `time.strftime` are string parameters.
- argparse, logging setup, `-v`/`verbose` logging and progress logging are left out.
- Opening and writing the file, and the `IOError` handling, are left out. The model gives the lines written, each followed by a newline in the file.
- The future bookkeeping in `_perform_searches` (dod_spending.py:159-176) is a sequential loop. `find_pdf_links` catches every exception itself, so `future.result()` never raises and every title is stored.
- `Text.IsSpace` lists the characters for which `str.isspace()` holds. Strings are sequences of Unicode scalar values, so lone surrogates are not modelled.
- The oracles answer the same for the same argument throughout a run. The source can HEAD-check one URL several times in one query, concurrently, and each `session.head` may answer differently (a 429 retry, say). This happens for a duplicate search result, for a `.pdf` that is both a result and linked from a page, and for a `.pdf` linked from several pages. There the source admits the URL when ANY check returns 200. The model cannot express differing answers, so `Crawl.FindsOverMembership` and the order-independence argument assume repeated checks agree.
- `Report.ReportLineCount` counts newline-terminated writes, not file lines. `strip()` keeps inner whitespace, so a title such as `"A\nB"` (from `-q "A\nB:q"`), or a link containing a line break, is one model line that spans several lines in the file.
