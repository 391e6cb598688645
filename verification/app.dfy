/**
 * `SearchApplication` (dod_spending.py:115-183): choose the queries, run one
 * search per query, and render the report under the chosen file name.
 * Argument parsing, logging and the clocks are outside the model: the
 * `-q` list, the `-o` value and both timestamps are parameters.
 */
module App {
  import opened Basics
  import opened Text
  import opened OrderedMap
  import Crawl
  import Report

  /** The built-in queries used when no `-q` entry is given (dod_spending.py:16-20). */
  const DEFAULT_QUERIES: seq<(string, string)> := [
    ("FY 2024 DoD Budget",
     "DoD budget FY 2024 spending filetype:pdf site:*.edu | site:*.org | site:*.gov -inurl:(signup | login)"),
    ("FY 2025 DoD Budget",
     "DoD budget FY 2025 spending filetype:pdf site:*.edu | site:*.org | site:*.gov -inurl:(signup | login)"),
    ("FY 2024/2025 DoD Vendor Spending",
     "DoD vendor spending FY 2024 OR FY 2025 filetype:pdf site:*.edu | site:*.org | site:*.gov -inurl:(signup | login)")
  ]

  /** `Config.max_workers`. */
  const MAX_WORKERS: nat := 5

  const SEPARATOR: char := ':'
  const DEFAULT_FILENAME_PREFIX: string := "dod_spending_pdfs_"
  const DEFAULT_FILENAME_SUFFIX: string := ".txt"

  /** The outcome of `_get_queries`: an ordered title-to-query map, or `sys.exit(1)` naming the bad entry. */
  datatype Parsed = Queries(queries: seq<(string, string)>) | Exit(code: int, entry: string)

  /** The stripped text before the first `:` of a `Title:query` entry. */
  function TitleOf(entry: string): string
    requires SEPARATOR in entry
  {
    Strip(SplitOnce(entry, SEPARATOR).value.0)
  }

  /** The stripped text after the first `:` of a `Title:query` entry. */
  function QueryOf(entry: string): string
    requires SEPARATOR in entry
  {
    Strip(SplitOnce(entry, SEPARATOR).value.1)
  }

  /**
   * An entry is cut at its FIRST `:` only: the query keeps every later `:`,
   * and both halves are stripped.
   */
  lemma EntrySplitsAtFirstColon(entry: string, head: string, tail: string)
    requires entry == head + [SEPARATOR] + tail && SEPARATOR !in head
    ensures SEPARATOR in entry
    ensures TitleOf(entry) == Strip(head) && QueryOf(entry) == Strip(tail)
  {
    SplitOnceUnique(entry, SEPARATOR, head, tail);
  }

  /**
   * The loop at dod_spending.py:146-152 from a partly filled map `acc`:
   * each entry is split at its first `:` and stored under its stripped
   * title; the first entry without a `:` ends it with exit code 1.
   */
  function ParseFrom(acc: seq<(string, string)>, entries: seq<string>): (r: Parsed)
    requires DistinctKeys(acc)
    ensures r.Queries? ==> DistinctKeys(r.queries) && |acc| <= |r.queries| <= |acc| + |entries|
    decreases |entries|
  {
    if entries == [] then Queries(acc)
    else if SEPARATOR !in entries[0] then Exit(1, entries[0])
    else ParseFrom(Put(acc, TitleOf(entries[0]), QueryOf(entries[0])), entries[1..])
  }

  /** `_get_queries`: the defaults when `-q` is absent or empty, else the parsed entries. */
  function ParsedQueries(args: Option<seq<string>>): Parsed
  {
    if args.None? || args.value == [] then Queries(DEFAULT_QUERIES) else ParseFrom([], args.value)
  }

  /** The position of the first entry without a `:`, or the number of entries if there is none. */
  function FirstMalformed(entries: seq<string>): (r: nat)
    ensures r <= |entries|
    ensures forall j :: 0 <= j < r ==> SEPARATOR in entries[j]
    ensures r < |entries| ==> SEPARATOR !in entries[r]
  {
    if entries == [] || SEPARATOR !in entries[0] then 0 else 1 + FirstMalformed(entries[1..])
  }

  /**
   * Parsing ends in an exit exactly when some entry lacks a `:`; the exit
   * code is 1 and the entry it names is the first such entry.
   */
  lemma {:induction false} ParseExitIffMissingSeparator(acc: seq<(string, string)>, entries: seq<string>)
    requires DistinctKeys(acc)
    ensures ParseFrom(acc, entries).Exit? <==> FirstMalformed(entries) < |entries|
    ensures ParseFrom(acc, entries).Exit? ==>
              ParseFrom(acc, entries) == Exit(1, entries[FirstMalformed(entries)])
    decreases |entries|
  {
    if entries != [] && SEPARATOR in entries[0] {
      ParseExitIffMissingSeparator(Put(acc, TitleOf(entries[0]), QueryOf(entries[0])), entries[1..]);
    }
  }

  /** The titles of well-formed entries, in order. */
  function Titles(entries: seq<string>): (ts: seq<string>)
    requires FirstMalformed(entries) == |entries|
    ensures |ts| == |entries|
    ensures forall i :: 0 <= i < |entries| ==> ts[i] == TitleOf(entries[i])
  {
    seq(|entries|, i requires 0 <= i < |entries| => TitleOf(entries[i]))
  }

  /** `keys` followed by each member of `more` that is not already there, in first-occurrence order. */
  function AppendNew(keys: seq<string>, more: seq<string>): (r: seq<string>)
    ensures forall x :: x in r <==> x in keys || x in more
    ensures |r| <= |keys| + |more|
    ensures more != [] ==> r != []
    decreases |more|
  {
    if more == [] then keys
    else AppendNew(if more[0] in keys then keys else keys + [more[0]], more[1..])
  }

  /** With every entry well formed, the keys are those of `acc` followed by the new titles in order of first occurrence. */
  lemma {:induction false} ParseKeys(acc: seq<(string, string)>, entries: seq<string>)
    requires DistinctKeys(acc) && FirstMalformed(entries) == |entries|
    ensures ParseFrom(acc, entries).Queries?
    ensures Keys(ParseFrom(acc, entries).queries) == AppendNew(Keys(acc), Titles(entries))
    decreases |entries|
  {
    if entries != [] {
      var rest := entries[1..];
      ParseKeys(Put(acc, TitleOf(entries[0]), QueryOf(entries[0])), rest);
      assert Titles(entries)[1..] == Titles(rest);
    }
  }

  /** A key that no entry's title names keeps the value it had in `acc`. */
  lemma {:induction false} ParseUntouched(acc: seq<(string, string)>, entries: seq<string>, k: string)
    requires DistinctKeys(acc) && FirstMalformed(entries) == |entries|
    requires forall j :: 0 <= j < |entries| ==> TitleOf(entries[j]) != k
    ensures ParseFrom(acc, entries).Queries?
    ensures Get(ParseFrom(acc, entries).queries, k) == Get(acc, k)
    decreases |entries|
  {
    if entries != [] {
      var rest := entries[1..];
      assert forall j :: 0 <= j < |rest| ==> rest[j] == entries[j + 1];
      ParseUntouched(Put(acc, TitleOf(entries[0]), QueryOf(entries[0])), rest, k);
    }
  }

  /** A title maps to the query of its LAST entry: later duplicates overwrite earlier ones. */
  lemma {:induction false} ParseLastWins(acc: seq<(string, string)>, entries: seq<string>, i: nat)
    requires DistinctKeys(acc) && FirstMalformed(entries) == |entries| && i < |entries|
    requires forall j :: i < j < |entries| ==> TitleOf(entries[j]) != TitleOf(entries[i])
    ensures ParseFrom(acc, entries).Queries?
    ensures Get(ParseFrom(acc, entries).queries, TitleOf(entries[i])) == Some(QueryOf(entries[i]))
    decreases |entries|
  {
    var acc' := Put(acc, TitleOf(entries[0]), QueryOf(entries[0]));
    var rest := entries[1..];
    assert forall j :: 0 <= j < |rest| ==> rest[j] == entries[j + 1];
    if i == 0 {
      ParseUntouched(acc', rest, TitleOf(entries[0]));
    } else {
      ParseLastWins(acc', rest, i - 1);
    }
  }

  /** Later duplicates overwrite earlier ones, and the map never has more keys than there are entries. */
  lemma ParsedEntries(entries: seq<string>)
    requires FirstMalformed(entries) == |entries|
    ensures ParseFrom([], entries).Queries?
    ensures Keys(ParseFrom([], entries).queries) == AppendNew([], Titles(entries))
    ensures 1 <= |ParseFrom([], entries).queries| <= |entries| || entries == []
    ensures forall i :: 0 <= i < |entries| &&
                        (forall j :: i < j < |entries| ==> TitleOf(entries[j]) != TitleOf(entries[i])) ==>
              Get(ParseFrom([], entries).queries, TitleOf(entries[i])) == Some(QueryOf(entries[i]))
    ensures forall k :: k in Keys(ParseFrom([], entries).queries) <==> k in Titles(entries)
  {
    ParseKeys([], entries);
    forall i | 0 <= i < |entries| &&
               (forall j :: i < j < |entries| ==> TitleOf(entries[j]) != TitleOf(entries[i]))
      ensures Get(ParseFrom([], entries).queries, TitleOf(entries[i])) == Some(QueryOf(entries[i]))
    {
      ParseLastWins([], entries, i);
    }
  }

  /**
   * Whatever `_get_queries` returns holds at least one query, so the outer
   * pool `ThreadPoolExecutor(max_workers=min(len(queries), 5))` is never
   * asked for zero workers.
   */
  lemma ParsedQueriesNonEmpty(args: Option<seq<string>>)
    ensures ParsedQueries(args).Queries? ==>
              DistinctKeys(ParsedQueries(args).queries) && 1 <= |ParsedQueries(args).queries|
    ensures ParsedQueries(args).Queries? ==>
              (if |ParsedQueries(args).queries| < MAX_WORKERS then |ParsedQueries(args).queries| else MAX_WORKERS) >= 1
  {
    if args.Some? && args.value != [] {
      ParseExitIffMissingSeparator([], args.value);
      if FirstMalformed(args.value) == |args.value| {
        ParsedEntries(args.value);
      }
    }
  }

  /** `_get_queries`, as the loop that fills a dict entry by entry. */
  method GetQueries(args: Option<seq<string>>) returns (r: Parsed)
    ensures r == ParsedQueries(args)
    ensures args.None? || args.value == [] ==> r == Queries(DEFAULT_QUERIES)
  {
    if args.None? || args.value == [] {
      return Queries(DEFAULT_QUERIES);
    }
    var entries := args.value;
    var queries: seq<(string, string)> := [];
    var i := 0;
    while i < |entries|
      invariant 0 <= i <= |entries|
      invariant DistinctKeys(queries)
      invariant ParseFrom(queries, entries[i..]) == ParseFrom([], entries)
    {
      var entry := entries[i];
      assert entries[i..][0] == entry && entries[i..][1..] == entries[i + 1..];
      match SplitOnce(entry, SEPARATOR) {
        case None =>
          return Exit(1, entry);
        case Some(parts) =>
          queries := Put(queries, Strip(parts.0), Strip(parts.1));
      }
      i := i + 1;
    }
    return Queries(queries);
  }

  /** The map `_perform_searches` builds: each title with the set its query finds. */
  function SearchResults(web: Crawl.Web, queries: seq<(string, string)>): (results: seq<(string, set<string>)>)
    ensures |results| == |queries| && Keys(results) == Keys(queries)
  {
    seq(|queries|, i requires 0 <= i < |queries| => (queries[i].0, Crawl.QueryFinds(web, queries[i].1)))
  }

  /**
   * `_perform_searches`: one search per query; the result map has the query
   * titles as keys, in the queries' order.
   */
  method PerformSearches(web: Crawl.Web, queries: seq<(string, string)>) returns (results: seq<(string, set<string>)>)
    requires DistinctKeys(queries)
    ensures results == SearchResults(web, queries)
    ensures DistinctKeys(results)
  {
    results := [];
    var i := 0;
    while i < |queries|
      invariant 0 <= i <= |queries|
      invariant results == SearchResults(web, queries[..i])
      invariant DistinctKeys(results)
    {
      var (title, query) := queries[i];
      var links := Crawl.FindPdfLinks(web, query);
      SearchResultsGrow(web, queries, i);
      results := Put(results, title, links);
      i := i + 1;
    }
    assert queries[..i] == queries;
  }

  /** Searching one more query appends its title, which is new, and its finds. */
  lemma SearchResultsGrow(web: Crawl.Web, queries: seq<(string, string)>, i: nat)
    requires DistinctKeys(queries) && i < |queries|
    ensures queries[i].0 !in Keys(SearchResults(web, queries[..i]))
    ensures SearchResults(web, queries[..i + 1])
            == SearchResults(web, queries[..i]) + [(queries[i].0, Crawl.QueryFinds(web, queries[i].1))]
  {
    var before := SearchResults(web, queries[..i]);
    assert forall j :: 0 <= j < i ==> Keys(before)[j] == queries[j].0;
  }

  /**
   * `_save_results`' choice of file name: the `-o` value when it is a
   * non-empty string, otherwise `dod_spending_pdfs_<stamp>.txt`.
   */
  function ReportFilename(output: Option<string>, stamp: string): (name: string)
    ensures name != []
    ensures output.None? || output.value == [] ==>
              |name| == |DEFAULT_FILENAME_PREFIX| + |stamp| + |DEFAULT_FILENAME_SUFFIX|
    ensures output.Some? && output.value != [] ==> name == output.value
    ensures output.None? || output.value == [] ==>
              && name[..|DEFAULT_FILENAME_PREFIX|] == DEFAULT_FILENAME_PREFIX
              && name[|DEFAULT_FILENAME_PREFIX|..|name| - |DEFAULT_FILENAME_SUFFIX|] == stamp
              && EndsWith(name, DEFAULT_FILENAME_SUFFIX)
  {
    if output.Some? && output.value != [] then output.value
    else DEFAULT_FILENAME_PREFIX + stamp + DEFAULT_FILENAME_SUFFIX
  }

  /** How a run ends: `sys.exit(1)` on a malformed `-q` entry, or a report under a file name. */
  datatype RunOutcome = Exited(code: int, entry: string) | Saved(filename: string, lines: seq<string>)

  /**
   * `run`: choose the queries (exiting before any search on a malformed
   * entry), search, then render the report. `fileStamp` is the
   * `strftime` value used in the default name, `ctime` the header's.
   */
  method Run(web: Crawl.Web, args: Option<seq<string>>, output: Option<string>, fileStamp: string, ctime: string)
    returns (r: RunOutcome)
    ensures r.Exited? <==> ParsedQueries(args).Exit?
    ensures r.Exited? ==> r.code == 1 && r.entry == ParsedQueries(args).entry
    ensures r.Saved? ==>
              && r.filename == ReportFilename(output, fileStamp)
              && r.lines == Report.ReportLines(ctime, SearchResults(web, ParsedQueries(args).queries))
  {
    var parsed := GetQueries(args);
    match parsed {
      case Exit(code, entry) =>
        ParseExitCode(args);
        return Exited(code, entry);
      case Queries(queries) =>
        ParsedQueriesNonEmpty(args);
        var results := PerformSearches(web, queries);
        var filename := ReportFilename(output, fileStamp);
        var lines := Report.SaveResults(ctime, results);
        return Saved(filename, lines);
    }
  }

  /** The only exit code parsing produces is 1. */
  lemma ParseExitCode(args: Option<seq<string>>)
    ensures ParsedQueries(args).Exit? ==> ParsedQueries(args).code == 1
  {
    if args.Some? && args.value != [] {
      ParseExitIffMissingSeparator([], args.value);
    }
  }
}
