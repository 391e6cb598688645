/**
 * `FileHandler.save_results` (dod_spending.py:100-113): the lines of the
 * report file. Each line is written followed by a newline; opening and
 * writing the file are not modelled, only the lines it receives.
 */
module Report {
  import opened Text

  /** A set of links whose members appear in strictly increasing order. */
  predicate StrictlySorted(s: seq<string>)
  {
    forall i, j :: 0 <= i < j < |s| ==> LexLess(s[i], s[j])
  }

  /** `m` is the least member of `links`. */
  predicate IsLeast(m: string, links: set<string>)
  {
    m in links && forall y :: y in links ==> y == m || LexLess(m, y)
  }

  lemma {:induction false} LeastExists(links: set<string>)
    requires links != {}
    ensures exists m :: IsLeast(m, links)
    decreases |links|
  {
    var x :| x in links;
    if links != {x} {
      var rest := links - {x};
      LeastExists(rest);
      var m :| IsLeast(m, rest);
      LexTrichotomy(x, m);
      if LexLess(x, m) {
        forall y | y in rest ensures LexLess(x, y) {
          if y != m {
            LexTransitive(x, m, y);
          }
        }
        assert IsLeast(x, links);
      } else {
        assert IsLeast(m, links);
      }
    } else {
      assert IsLeast(x, links);
    }
  }

  lemma LeastUnique(links: set<string>)
    ensures forall m, n :: IsLeast(m, links) && IsLeast(n, links) ==> m == n
  {
    forall m, n | IsLeast(m, links) && IsLeast(n, links) ensures m == n {
      LexAsymmetric(m, n);
    }
  }

  /**
   * Python's `sorted(links)` on a set of strings: the least member first,
   * then the rest sorted (`SortedLinksSpec` states what this gives).
   */
  function SortedLinks(links: set<string>): seq<string>
    decreases |links|
  {
    if links == {} then []
    else
      LeastExists(links);
      LeastUnique(links);
      var m :| IsLeast(m, links);
      [m] + SortedLinks(links - {m})
  }

  /** `sorted(links)` lists every member of the set once, in strictly increasing order. */
  lemma {:induction false} SortedLinksSpec(links: set<string>)
    ensures StrictlySorted(SortedLinks(links))
    ensures forall x :: x in SortedLinks(links) <==> x in links
    ensures |SortedLinks(links)| == |links|
    decreases |links|
  {
    if links != {} {
      LeastExists(links);
      LeastUnique(links);
      var m :| IsLeast(m, links);
      var rest := SortedLinks(links - {m});
      SortedLinksSpec(links - {m});
      var r := [m] + rest;
      assert r == SortedLinks(links);
      forall i, j | 0 <= i < j < |r| ensures LexLess(r[i], r[j]) {
        assert r[j] == rest[j - 1] && rest[j - 1] in rest;
        if i > 0 {
          assert r[i] == rest[i - 1];
        }
      }
    }
  }

  /** A strictly sorted listing of a set is unique: it is `SortedLinks` of that set. */
  lemma {:induction false} SortedLinksUnique(s: seq<string>, links: set<string>)
    requires StrictlySorted(s)
    requires forall x :: x in s <==> x in links
    ensures s == SortedLinks(links)
    decreases |s|
  {
    if s != [] {
      assert s[0] in links;
      forall y | y in links ensures y == s[0] || LexLess(s[0], y) {
        var j :| 0 <= j < |s| && s[j] == y;
        if j > 0 {
          assert LexLess(s[0], s[j]);
        }
      }
      assert IsLeast(s[0], links);
      LeastUnique(links);
      var r := SortedLinks(links);
      SortedLinksSpec(links);
      assert IsLeast(r[0], links);
      assert r[0] == s[0];
      forall x ensures x in s[1..] <==> x in links - {s[0]} {
        if x in s[1..] {
          var j :| 1 <= j < |s| && s[j] == x;
          assert LexLess(s[0], s[j]);
          LexIrreflexive(s[0]);
        }
        if x in links && x != s[0] {
          var j :| 0 <= j < |s| && s[j] == x;
          assert s[1..][j - 1] == x;
        }
      }
      SortedLinksUnique(s[1..], links - {s[0]});
      assert s == [s[0]] + s[1..];
    }
  }

  /** The first line of the report. */
  function HeaderLine(timestamp: string): string
  {
    "Search performed on: " + timestamp
  }

  /** The line that opens a query's block: its title and how many links it found. */
  function CountLine(title: string, count: nat): string
  {
    title + " (" + Decimal(count) + " results):"
  }

  /** One query's block: the count line, the links sorted, then an empty line. */
  function Block(entry: (string, set<string>)): seq<string>
  {
    [CountLine(entry.0, |entry.1|)] + SortedLinks(entry.1) + [""]
  }

  /** The lines of consecutive blocks, one after the other. */
  function Flatten(blocks: seq<seq<string>>): seq<string>
  {
    if blocks == [] then [] else blocks[0] + Flatten(blocks[1..])
  }

  /** The number of lines in consecutive blocks. */
  function TotalLength(blocks: seq<seq<string>>): nat
  {
    if blocks == [] then 0 else |blocks[0]| + TotalLength(blocks[1..])
  }

  /** The block of every query, in the map's iteration order. */
  function Blocks(results: seq<(string, set<string>)>): (blocks: seq<seq<string>>)
    ensures |blocks| == |results|
    ensures forall k :: 0 <= k < |results| ==> blocks[k] == Block(results[k])
  {
    seq(|results|, k requires 0 <= k < |results| => Block(results[k]))
  }

  /** Every line written to the report, in order. */
  function ReportLines(timestamp: string, results: seq<(string, set<string>)>): (lines: seq<string>)
    ensures |lines| >= 2
    ensures lines[0] == HeaderLine(timestamp) && lines[1] == ""
  {
    [HeaderLine(timestamp), ""] + Flatten(Blocks(results))
  }

  /** The number of lines the blocks of `results` take: one count line, the links and one empty line each. */
  function BlocksSize(results: seq<(string, set<string>)>): nat
  {
    if results == [] then 0 else |results[0].1| + 2 + BlocksSize(results[1..])
  }

  lemma {:induction false} FlattenConcat(a: seq<seq<string>>, b: seq<seq<string>>)
    ensures Flatten(a + b) == Flatten(a) + Flatten(b)
  {
    if a != [] {
      assert (a + b)[1..] == a[1..] + b;
      FlattenConcat(a[1..], b);
    } else {
      assert a + b == b;
    }
  }

  lemma {:induction false} FlattenLength(blocks: seq<seq<string>>)
    ensures |Flatten(blocks)| == TotalLength(blocks)
  {
    if blocks != [] {
      FlattenLength(blocks[1..]);
    }
  }

  /** The blocks are those before the `k`-th, the `k`-th, and those after it. */
  lemma FlattenSplit(blocks: seq<seq<string>>, k: nat)
    requires k < |blocks|
    ensures Flatten(blocks) == Flatten(blocks[..k]) + blocks[k] + Flatten(blocks[k + 1..])
  {
    var before, rest := blocks[..k], blocks[k..];
    assert blocks == before + rest;
    FlattenConcat(before, rest);
    assert rest[0] == blocks[k] && rest[1..] == blocks[k + 1..];
  }

  /** The `k`-th block sits right after the lines of the blocks before it. */
  lemma FlattenAt(blocks: seq<seq<string>>, k: nat)
    requires k < |blocks|
    ensures TotalLength(blocks[..k]) + |blocks[k]| <= |Flatten(blocks)|
    ensures Flatten(blocks)[TotalLength(blocks[..k])..TotalLength(blocks[..k]) + |blocks[k]|] == blocks[k]
  {
    FlattenSplit(blocks, k);
    FlattenLength(blocks[..k]);
  }

  /** Appending one block appends its lines. */
  lemma FlattenSnoc(blocks: seq<seq<string>>, i: nat)
    requires i < |blocks|
    ensures Flatten(blocks[..i + 1]) == Flatten(blocks[..i]) + blocks[i]
  {
    assert blocks[..i + 1] == blocks[..i] + [blocks[i]];
    FlattenConcat(blocks[..i], [blocks[i]]);
    assert Flatten([blocks[i]]) == blocks[i] + Flatten([]);
  }

  /** A block is its count line, the links in sorted order and an empty line. */
  lemma BlockLayout(entry: (string, set<string>))
    ensures |Block(entry)| == |entry.1| + 2
    ensures Block(entry)[0] == CountLine(entry.0, |entry.1|)
    ensures Block(entry)[1..|entry.1| + 1] == SortedLinks(entry.1)
    ensures Block(entry)[|entry.1| + 1] == ""
  {
    assert |SortedLinks(entry.1)| == |entry.1| by { SortedLinksSpec(entry.1); }
  }

  lemma {:induction false} BlocksLength(results: seq<(string, set<string>)>)
    ensures TotalLength(Blocks(results)) == BlocksSize(results)
  {
    if results != [] {
      BlockLayout(results[0]);
      assert Blocks(results)[1..] == Blocks(results[1..]);
      BlocksLength(results[1..]);
    }
  }

  /** The report has 2 + the sum over the queries of (number of links + 2) lines. */
  lemma ReportLineCount(timestamp: string, results: seq<(string, set<string>)>)
    ensures |ReportLines(timestamp, results)| == 2 + BlocksSize(results)
  {
    FlattenLength(Blocks(results));
    BlocksLength(results);
  }

  /** The line at which the block of the `k`-th query starts. */
  function BlockStart(results: seq<(string, set<string>)>, k: nat): nat
    requires k <= |results|
  {
    2 + BlocksSize(results[..k])
  }

  /** The `k`-th query's block starts at line `BlockStart(results, k)`. */
  lemma BlockPlacement(timestamp: string, results: seq<(string, set<string>)>, k: nat)
    requires k < |results|
    ensures BlockStart(results, k) + |Block(results[k])| <= |ReportLines(timestamp, results)|
    ensures ReportLines(timestamp, results)[BlockStart(results, k)..BlockStart(results, k) + |Block(results[k])|]
            == Block(results[k])
  {
    var blocks := Blocks(results);
    FlattenAt(blocks, k);
    assert blocks[..k] == Blocks(results[..k]);
    BlocksLength(results[..k]);
    var lines := ReportLines(timestamp, results);
    assert lines[2..] == Flatten(blocks);
  }

  /**
   * The `k`-th query's block: at `BlockStart` its count line, then its links
   * in sorted order, then an empty line.
   */
  lemma ReportLayout(timestamp: string, results: seq<(string, set<string>)>, k: nat)
    requires k < |results|
    ensures BlockStart(results, k) + |results[k].1| + 2 <= |ReportLines(timestamp, results)|
    ensures ReportLines(timestamp, results)[BlockStart(results, k)] == CountLine(results[k].0, |results[k].1|)
    ensures ReportLines(timestamp, results)[BlockStart(results, k) + 1..BlockStart(results, k) + 1 + |results[k].1|]
            == SortedLinks(results[k].1)
    ensures ReportLines(timestamp, results)[BlockStart(results, k) + 1 + |results[k].1|] == ""
  {
    BlockPlacement(timestamp, results, k);
    BlockLayout(results[k]);
    InnerSlice(ReportLines(timestamp, results), BlockStart(results, k), Block(results[k]));
  }

  /** Where `block` sits at `start` in `lines`, so do its first line, its last line and what lies between. */
  lemma InnerSlice(lines: seq<string>, start: nat, block: seq<string>)
    requires 2 <= |block| && start + |block| <= |lines| && lines[start..start + |block|] == block
    ensures lines[start] == block[0] && lines[start + |block| - 1] == block[|block| - 1]
    ensures lines[start + 1..start + |block| - 1] == block[1..|block| - 1]
  {
    assert lines[start] == lines[start..start + |block|][0];
    assert lines[start + |block| - 1] == lines[start..start + |block|][|block| - 1];
    var middle, inner := lines[start + 1..start + |block| - 1], block[1..|block| - 1];
    forall i | 0 <= i < |inner| ensures middle[i] == inner[i] {
      assert middle[i] == lines[start..start + |block|][1 + i];
    }
  }

  /** Two reports of the same results differ at most in the header line. */
  lemma ReportIgnoresTimestamp(t1: string, t2: string, results: seq<(string, set<string>)>)
    ensures ReportLines(t1, results)[1..] == ReportLines(t2, results)[1..]
  {
  }

  /** `save_results`: the header, an empty line, then per query its count line, sorted links and an empty line. */
  method SaveResults(timestamp: string, results: seq<(string, set<string>)>) returns (lines: seq<string>)
    ensures lines == ReportLines(timestamp, results)
  {
    ghost var blocks := Blocks(results);
    lines := [HeaderLine(timestamp), ""];
    var i := 0;
    while i < |results|
      invariant 0 <= i <= |results|
      invariant lines == [HeaderLine(timestamp), ""] + Flatten(blocks[..i])
    {
      lines := WriteBlock(lines, results[i]);
      FlattenSnoc(blocks, i);
      i := i + 1;
    }
    assert blocks[..i] == blocks;
  }

  /** One turn of the outer loop: the count line, each link in sorted order, then an empty line. */
  method WriteBlock(lines: seq<string>, entry: (string, set<string>)) returns (lines': seq<string>)
    ensures lines' == lines + Block(entry)
  {
    var (title, links) := entry;
    lines' := lines + [CountLine(title, |links|)];
    var sorted := SortedLinks(links);
    var j := 0;
    while j < |sorted|
      invariant 0 <= j <= |sorted|
      invariant lines' == lines + [CountLine(title, |links|)] + sorted[..j]
    {
      lines' := lines' + [sorted[j]];
      assert sorted[..j + 1] == sorted[..j] + [sorted[j]];
      j := j + 1;
    }
    lines' := lines' + [""];
    assert sorted[..j] == sorted;
  }
}
