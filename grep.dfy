/** `fs_grep`: the lines containing a piece of text, across the files below a directory
    whose names match a pattern, in file order and line order, capped at `max_results`. */
module Grep {
  import opened Wrappers
  import opened Text
  import opened Errors
  import opened Paths
  import opened Order
  import opened Glob
  import opened FileSystem
  import opened Listing

  /** One matching line; `file` is still the absolute path. */
  datatype Hit = Hit(file: Path, line: nat, content: string)

  /** The first `k` items of `s`, or all of them when there are fewer. */
  function Take<T>(s: seq<T>, k: nat): (r: seq<T>)
    ensures |r| == if k < |s| then k else |s|
    ensures r == s[..|r|]
  {
    if k < |s| then s[..k] else s
  }

  /** Once `a` alone fills the cap, whatever follows it is cut off. */
  lemma TakeLong<T>(a: seq<T>, b: seq<T>, k: nat)
    requires |a| >= k
    ensures Take(a + b, k) == Take(a, k)
  {
    assert (a + b)[..k] == a[..k];
  }

  /** Taking from `a + b + c` after taking from `a + b`: when the cap is not yet filled,
      nothing was cut, so the rest just follows; otherwise `c` is cut off entirely. */
  lemma TakeThen<T>(a: seq<T>, b: seq<T>, c: seq<T>, k: nat)
    ensures |Take(a + b, k)| >= k ==> Take(a + b + c, k) == Take(a + b, k)
    ensures |Take(a + b, k)| < k ==> Take(Take(a + b, k) + c, k) == Take(a + b + c, k)
  {
    if |Take(a + b, k)| >= k {
      TakeLong(a + b, c, k);
    }
  }

  /** The text searched for: lowered unless the search is case-sensitive. */
  function Needle(text: string, caseSensitive: bool): (r: string)
    ensures |r| == |text|
    ensures !caseSensitive ==> forall i :: 0 <= i < |r| ==> !('A' <= r[i] <= 'Z')
    ensures !caseSensitive ==> forall i :: 0 <= i < |text| && !('A' <= text[i] <= 'Z') ==> r[i] == text[i]
  {
    if caseSensitive then text else Lower(text)
  }

  /** `needle in haystack`, the haystack lowered unless the search is case-sensitive. */
  predicate LineMatches(needle: string, line: string, caseSensitive: bool)
    ensures LineMatches(needle, line, caseSensitive) ==> |needle| <= |line|
  {
    Contains(if caseSensitive then line else Lower(line), needle)
  }

  /** A case-insensitive search finds every line a case-sensitive one finds. */
  lemma InsensitiveFindsMore(text: string, line: string)
    requires LineMatches(Needle(text, true), line, true)
    ensures LineMatches(Needle(text, false), line, false)
  {
    ContainsLower(line, text);
  }

  /** A file the walk yields that is a regular file and can be read; `denied` holds the
      files whose reading fails, which the tool skips. */
  predicate Readable(fs: FsMap, denied: set<Path>, f: Path)
  {
    IsFile(fs, f) && f !in denied
  }

  /** `read_text(...).splitlines()`. */
  function Lines(fs: FsMap, f: Path): seq<string>
    requires IsFile(fs, f)
  {
    SplitLines(Universal(fs[f].content))
  }

  // ---- reference definitions: every match, no cap ----

  /** Every matching line of `lines` from index `i` on, numbered from 1. */
  function HitsFrom(file: Path, lines: seq<string>, i: nat, needle: string, caseSensitive: bool)
    : seq<Hit>
    decreases |lines| - i
  {
    if i >= |lines| then []
    else
      (if LineMatches(needle, lines[i], caseSensitive) then [Hit(file, i + 1, RStrip(lines[i]))]
       else [])
      + HitsFrom(file, lines, i + 1, needle, caseSensitive)
  }

  /** Every matching line of every readable file of `files`, file by file. */
  function AllHits(fs: FsMap, denied: set<Path>, files: seq<Path>, needle: string,
                   caseSensitive: bool): seq<Hit>
  {
    if files == [] then []
    else
      (if Readable(fs, denied, files[0])
       then HitsFrom(files[0], Lines(fs, files[0]), 0, needle, caseSensitive) else [])
      + AllHits(fs, denied, files[1..], needle, caseSensitive)
  }

  /** How many of `files` are readable regular files. */
  function ReadableCount(fs: FsMap, denied: set<Path>, files: seq<Path>): nat
  {
    if files == [] then 0
    else (if Readable(fs, denied, files[0]) then 1 else 0) + ReadableCount(fs, denied, files[1..])
  }

  /** `h` is a line of one of `files` that matches, with its 1-based number and its text
      stripped of trailing whitespace. */
  predicate IsHit(fs: FsMap, denied: set<Path>, files: seq<Path>, needle: string,
                  caseSensitive: bool, h: Hit)
  {
    h.file in files && IsMatchingLine(fs, denied, needle, caseSensitive, h)
  }

  /** `h` is a matching line of a readable file, with its 1-based number and its text
      stripped of trailing whitespace. */
  predicate IsMatchingLine(fs: FsMap, denied: set<Path>, needle: string, caseSensitive: bool, h: Hit)
  {
    Readable(fs, denied, h.file) && LineHit(h.file, Lines(fs, h.file), needle, caseSensitive, h)
  }

  /** `h` is a line of `lines`, the lines of `file`, that matches, with its 1-based number
      and its text stripped of trailing whitespace. */
  predicate LineHit(file: Path, lines: seq<string>, needle: string, caseSensitive: bool, h: Hit)
  {
    && h.file == file && 1 <= h.line <= |lines|
    && LineMatches(needle, lines[h.line - 1], caseSensitive)
    && h.content == RStrip(lines[h.line - 1])
  }

  /** Files in ascending order, lines ascending within a file. */
  predicate HitBefore(a: Hit, b: Hit)
  {
    PathLess(a.file, b.file) || (a.file == b.file && a.line < b.line)
  }

  predicate InHitOrder(hs: seq<Hit>)
  {
    forall i, j :: 0 <= i < j < |hs| ==> HitBefore(hs[i], hs[j])
  }

  // ---- the tool's loops, as specification functions ----

  /** The inner loop: scan `lines` from index `i`, appending matches to `acc`; a match that
      brings `acc` to the cap ends the scan. */
  function ScanLines(file: Path, lines: seq<string>, i: nat, needle: string, caseSensitive: bool,
                     max: nat, acc: seq<Hit>): (r: seq<Hit>)
    ensures |acc| <= |r| && r[..|acc|] == acc
    ensures |acc| < max ==> |r| <= max
    decreases |lines| - i
  {
    if i >= |lines| then acc
    else if LineMatches(needle, lines[i], caseSensitive) then
      var grown := acc + [Hit(file, i + 1, RStrip(lines[i]))];
      if |grown| >= max then grown
      else ScanLines(file, lines, i + 1, needle, caseSensitive, max, grown)
    else ScanLines(file, lines, i + 1, needle, caseSensitive, max, acc)
  }

  /** The results so far and the number of files read. */
  datatype Outcome = Outcome(hits: seq<Hit>, searched: nat)

  /** The outer loop: skip what is not a readable file, count and scan the rest, stop once
      the results reach the cap. */
  function Search(fs: FsMap, denied: set<Path>, files: seq<Path>, needle: string,
                  caseSensitive: bool, max: nat, acc: seq<Hit>, searched: nat): (r: Outcome)
    ensures |acc| <= |r.hits| && r.hits[..|acc|] == acc
    ensures |acc| < max ==> |r.hits| <= max
    ensures searched <= r.searched <= searched + |files|
  {
    if files == [] then Outcome(acc, searched)
    else if !Readable(fs, denied, files[0]) then
      Search(fs, denied, files[1..], needle, caseSensitive, max, acc, searched)
    else
      var grown := ScanLines(files[0], Lines(fs, files[0]), 0, needle, caseSensitive, max, acc);
      if |grown| >= max then Outcome(grown, searched + 1)
      else Search(fs, denied, files[1..], needle, caseSensitive, max, grown, searched + 1)
  }

  // ---- what the loops compute ----

  /** The inner loop returns the first matches of the file, up to the cap. */
  lemma {:induction false} ScanTakes(file: Path, lines: seq<string>, i: nat, needle: string,
                                     caseSensitive: bool, max: nat, acc: seq<Hit>)
    requires |acc| < max
    ensures ScanLines(file, lines, i, needle, caseSensitive, max, acc)
            == Take(acc + HitsFrom(file, lines, i, needle, caseSensitive), max)
    decreases |lines| - i
  {
    if i >= |lines| {
      assert acc + [] == acc;
    } else {
      var rest := HitsFrom(file, lines, i + 1, needle, caseSensitive);
      if LineMatches(needle, lines[i], caseSensitive) {
        var grown := acc + [Hit(file, i + 1, RStrip(lines[i]))];
        assert acc + HitsFrom(file, lines, i, needle, caseSensitive) == grown + rest;
        if |grown| >= max {
          assert (grown + rest)[..max] == grown;
        } else {
          ScanTakes(file, lines, i + 1, needle, caseSensitive, max, grown);
        }
      } else {
        assert HitsFrom(file, lines, i, needle, caseSensitive) == rest;
        ScanTakes(file, lines, i + 1, needle, caseSensitive, max, acc);
      }
    }
  }

  /** The outer loop returns the first matches across all files, up to the cap. */
  lemma {:induction false} SearchTakes(fs: FsMap, denied: set<Path>, files: seq<Path>,
                                       needle: string, caseSensitive: bool, max: nat,
                                       acc: seq<Hit>, searched: nat)
    requires |acc| < max
    ensures Search(fs, denied, files, needle, caseSensitive, max, acc, searched).hits
            == Take(acc + AllHits(fs, denied, files, needle, caseSensitive), max)
    decreases |files|
  {
    if files == [] {
      assert acc + [] == acc;
    } else {
      var f := files[0];
      var rest := AllHits(fs, denied, files[1..], needle, caseSensitive);
      if !Readable(fs, denied, f) {
        assert AllHits(fs, denied, files, needle, caseSensitive) == rest;
        SearchTakes(fs, denied, files[1..], needle, caseSensitive, max, acc, searched);
      } else {
        var fh := HitsFrom(f, Lines(fs, f), 0, needle, caseSensitive);
        var grown := ScanLines(f, Lines(fs, f), 0, needle, caseSensitive, max, acc);
        ScanTakes(f, Lines(fs, f), 0, needle, caseSensitive, max, acc);
        assert AllHits(fs, denied, files, needle, caseSensitive) == fh + rest;
        assert acc + (fh + rest) == acc + fh + rest;
        TakeThen(acc, fh, rest, max);
        assert Search(fs, denied, files, needle, caseSensitive, max, acc, searched)
          == if |grown| >= max then Outcome(grown, searched + 1)
             else Search(fs, denied, files[1..], needle, caseSensitive, max, grown, searched + 1);
        if |grown| < max {
          SearchTakes(fs, denied, files[1..], needle, caseSensitive, max, grown, searched + 1);
        }
      }
    }
  }

  /** Every readable file is counted unless the cap ended the walk first. */
  lemma {:induction false} SearchCounts(fs: FsMap, denied: set<Path>, files: seq<Path>,
                                        needle: string, caseSensitive: bool, max: nat,
                                        acc: seq<Hit>, searched: nat)
    ensures var o := Search(fs, denied, files, needle, caseSensitive, max, acc, searched);
      searched <= o.searched <= searched + ReadableCount(fs, denied, files)
    ensures var o := Search(fs, denied, files, needle, caseSensitive, max, acc, searched);
      |o.hits| < max ==> o.searched == searched + ReadableCount(fs, denied, files)
    decreases |files|
  {
    if files != [] {
      var f := files[0];
      if !Readable(fs, denied, f) {
        SearchCounts(fs, denied, files[1..], needle, caseSensitive, max, acc, searched);
      } else {
        var grown := ScanLines(f, Lines(fs, f), 0, needle, caseSensitive, max, acc);
        if |grown| < max {
          SearchCounts(fs, denied, files[1..], needle, caseSensitive, max, grown, searched + 1);
        }
      }
    }
  }

  /** The reference list of one file holds exactly its matching lines from `i` on. */
  lemma {:induction false} HitsFromExactly(file: Path, lines: seq<string>, i: nat, needle: string,
                                           caseSensitive: bool, h: Hit)
    ensures h in HitsFrom(file, lines, i, needle, caseSensitive) <==>
      LineHit(file, lines, needle, caseSensitive, h) && i < h.line
    decreases |lines| - i
  {
    if i < |lines| {
      var head := if LineMatches(needle, lines[i], caseSensitive)
                  then [Hit(file, i + 1, RStrip(lines[i]))] else [];
      HitsFromExactly(file, lines, i + 1, needle, caseSensitive, h);
      assert HitsFrom(file, lines, i, needle, caseSensitive)
             == head + HitsFrom(file, lines, i + 1, needle, caseSensitive);
      assert h in head <==> LineHit(file, lines, needle, caseSensitive, h) && h.line == i + 1;
    }
  }

  /** The reference list holds exactly the matching lines of the readable files. */
  lemma {:induction false} AllHitsExactly(fs: FsMap, denied: set<Path>, files: seq<Path>,
                                          needle: string, caseSensitive: bool, h: Hit)
    ensures h in AllHits(fs, denied, files, needle, caseSensitive)
            <==> IsHit(fs, denied, files, needle, caseSensitive, h)
  {
    if files != [] {
      var f := files[0];
      var rest := files[1..];
      AllHitsExactly(fs, denied, rest, needle, caseSensitive, h);
      var head := if Readable(fs, denied, f)
                  then HitsFrom(f, Lines(fs, f), 0, needle, caseSensitive) else [];
      assert AllHits(fs, denied, files, needle, caseSensitive)
             == head + AllHits(fs, denied, rest, needle, caseSensitive);
      assert h in head <==> h.file == f && IsMatchingLine(fs, denied, needle, caseSensitive, h) by {
        if Readable(fs, denied, f) {
          HitsFromExactly(f, Lines(fs, f), 0, needle, caseSensitive, h);
        }
      }
      assert h.file in files <==> h.file == f || h.file in rest by {
        assert files == [f] + rest;
      }
    }
  }

  /** Within a file, matches come in line order. */
  lemma {:induction false} HitsFromOrdered(file: Path, lines: seq<string>, i: nat, needle: string,
                                           caseSensitive: bool)
    ensures InHitOrder(HitsFrom(file, lines, i, needle, caseSensitive))
    decreases |lines| - i
  {
    if i < |lines| {
      var rest := HitsFrom(file, lines, i + 1, needle, caseSensitive);
      HitsFromOrdered(file, lines, i + 1, needle, caseSensitive);
      forall k | 0 <= k < |rest|
        ensures rest[k].file == file && rest[k].line > i + 1
      {
        HitsFromExactly(file, lines, i + 1, needle, caseSensitive, rest[k]);
      }
    }
  }

  /** Over files in ascending order, the reference list is in file-then-line order. */
  lemma {:induction false} AllHitsOrdered(fs: FsMap, denied: set<Path>, files: seq<Path>,
                                          needle: string, caseSensitive: bool)
    requires Ascending(files)
    ensures InHitOrder(AllHits(fs, denied, files, needle, caseSensitive))
  {
    if files != [] {
      var f := files[0];
      var rest := AllHits(fs, denied, files[1..], needle, caseSensitive);
      assert Ascending(files[1..]) by {
        forall i, j | 0 <= i < j < |files[1..]| ensures PathLess(files[1..][i], files[1..][j]) {
          assert files[1..][i] == files[i + 1] && files[1..][j] == files[j + 1];
        }
      }
      AllHitsOrdered(fs, denied, files[1..], needle, caseSensitive);
      forall k | 0 <= k < |rest|
        ensures PathLess(f, rest[k].file)
      {
        AllHitsExactly(fs, denied, files[1..], needle, caseSensitive, rest[k]);
        var j :| 0 <= j < |files[1..]| && files[1..][j] == rest[k].file;
        assert files[j + 1] == rest[k].file;
      }
      if Readable(fs, denied, f) {
        var fh := HitsFrom(f, Lines(fs, f), 0, needle, caseSensitive);
        HitsFromOrdered(f, Lines(fs, f), 0, needle, caseSensitive);
        forall k | 0 <= k < |fh|
          ensures fh[k].file == f
        {
          HitsFromExactly(f, Lines(fs, f), 0, needle, caseSensitive, fh[k]);
        }
        assert AllHits(fs, denied, files, needle, caseSensitive) == fh + rest;
      }
    }
  }

  // ---- what `fs_grep` reports, over the whole walk ----

  /** The results are the first `max_results` matches of the whole walk. */
  lemma GrepPrefix(fs: FsMap, denied: set<Path>, files: seq<Path>, needle: string,
                   caseSensitive: bool, max: nat)
    requires max >= 1
    ensures Search(fs, denied, files, needle, caseSensitive, max, [], 0).hits
            == Take(AllHits(fs, denied, files, needle, caseSensitive), max)
  {
    SearchTakes(fs, denied, files, needle, caseSensitive, max, [], 0);
    assert [] + AllHits(fs, denied, files, needle, caseSensitive)
           == AllHits(fs, denied, files, needle, caseSensitive);
  }

  /** `truncated` (results reached the cap) holds exactly when the walk has at least
      `max_results` matches; never more than the cap are returned. */
  lemma GrepTruncated(fs: FsMap, denied: set<Path>, files: seq<Path>, needle: string,
                      caseSensitive: bool, max: nat)
    requires max >= 1
    ensures var o := Search(fs, denied, files, needle, caseSensitive, max, [], 0);
      && |o.hits| <= max
      && (|o.hits| >= max <==> |AllHits(fs, denied, files, needle, caseSensitive)| >= max)
  {
    GrepPrefix(fs, denied, files, needle, caseSensitive, max);
  }

  /** When the cap is not reached, every match is returned and every readable file was
      searched. */
  lemma GrepComplete(fs: FsMap, denied: set<Path>, files: seq<Path>, needle: string,
                     caseSensitive: bool, max: nat)
    requires max >= 1
    ensures var o := Search(fs, denied, files, needle, caseSensitive, max, [], 0);
      |o.hits| < max ==>
        && o.hits == AllHits(fs, denied, files, needle, caseSensitive)
        && o.searched == ReadableCount(fs, denied, files)
  {
    GrepPrefix(fs, denied, files, needle, caseSensitive, max);
    SearchCounts(fs, denied, files, needle, caseSensitive, max, [], 0);
  }

  /** With exactly `max_results` matches in the walk, all of them are returned and yet the
      report says `truncated`. */
  lemma GrepExactCap(fs: FsMap, denied: set<Path>, files: seq<Path>, needle: string,
                     caseSensitive: bool, max: nat)
    requires max >= 1
    requires |AllHits(fs, denied, files, needle, caseSensitive)| == max
    ensures var o := Search(fs, denied, files, needle, caseSensitive, max, [], 0);
      o.hits == AllHits(fs, denied, files, needle, caseSensitive) && |o.hits| >= max
  {
    GrepPrefix(fs, denied, files, needle, caseSensitive, max);
  }

  /** Every result is a real match: a line of a readable file of the walk that contains
      the needle, with its number and its stripped text. */
  lemma GrepSound(fs: FsMap, denied: set<Path>, files: seq<Path>, needle: string,
                  caseSensitive: bool, max: nat)
    requires max >= 1
    ensures forall h :: h in Search(fs, denied, files, needle, caseSensitive, max, [], 0).hits ==>
      IsHit(fs, denied, files, needle, caseSensitive, h)
  {
    GrepPrefix(fs, denied, files, needle, caseSensitive, max);
    var all := AllHits(fs, denied, files, needle, caseSensitive);
    var hits := Search(fs, denied, files, needle, caseSensitive, max, [], 0).hits;
    forall h | h in hits
      ensures IsHit(fs, denied, files, needle, caseSensitive, h)
    {
      assert h in all;
      AllHitsExactly(fs, denied, files, needle, caseSensitive, h);
    }
  }

  /** Over files in ascending order the results come file by file, lines ascending. */
  lemma GrepOrdered(fs: FsMap, denied: set<Path>, files: seq<Path>, needle: string,
                    caseSensitive: bool, max: nat)
    requires max >= 1 && Ascending(files)
    ensures InHitOrder(Search(fs, denied, files, needle, caseSensitive, max, [], 0).hits)
  {
    GrepPrefix(fs, denied, files, needle, caseSensitive, max);
    AllHitsOrdered(fs, denied, files, needle, caseSensitive);
  }

  // ---- the tool ----

  /** One step of the outer loop over a file that is skipped. */
  lemma SearchSkip(fs: FsMap, denied: set<Path>, files: seq<Path>, i: nat, needle: string,
                   caseSensitive: bool, max: nat, acc: seq<Hit>, searched: nat)
    requires i < |files| && !Readable(fs, denied, files[i])
    ensures Search(fs, denied, files[i..], needle, caseSensitive, max, acc, searched)
            == Search(fs, denied, files[i + 1..], needle, caseSensitive, max, acc, searched)
  {
    assert files[i..][1..] == files[i + 1..];
  }

  /** One step of the outer loop over a file that is read: its lines are scanned onto the
      results, and the walk stops once they reach the cap. */
  lemma SearchRead(fs: FsMap, denied: set<Path>, files: seq<Path>, i: nat, needle: string,
                   caseSensitive: bool, max: nat, acc: seq<Hit>, searched: nat)
    requires i < |files| && Readable(fs, denied, files[i])
    ensures var grown := ScanLines(files[i], Lines(fs, files[i]), 0, needle, caseSensitive, max, acc);
      Search(fs, denied, files[i..], needle, caseSensitive, max, acc, searched)
      == if |grown| >= max then Outcome(grown, searched + 1)
         else Search(fs, denied, files[i + 1..], needle, caseSensitive, max, grown, searched + 1)
  {
    assert files[i..][0] == files[i];
    assert files[i..][1..] == files[i + 1..];
  }

  /** The inner loop of `fs_grep`: the matching lines of one file, appended to `start`
      until the results reach the cap. */
  method ScanFile(f: Path, lines: seq<string>, needle: string, caseSensitive: bool, max: nat,
                  start: seq<Hit>)
    returns (hits: seq<Hit>)
    requires |start| < max
    ensures hits == ScanLines(f, lines, 0, needle, caseSensitive, max, start)
  {
    hits := start;
    var j := 0;
    while j < |lines|
      invariant 0 <= j <= |lines|
      invariant |hits| < max
      invariant ScanLines(f, lines, j, needle, caseSensitive, max, hits)
                == ScanLines(f, lines, 0, needle, caseSensitive, max, start)
    {
      var line := lines[j];
      var haystack := if caseSensitive then line else Lower(line);
      if Contains(haystack, needle) {
        hits := hits + [Hit(f, j + 1, RStrip(line))];
        if |hits| >= max {
          return;
        }
      }
      j := j + 1;
    }
  }

  /** The two nested loops of `fs_grep`, before the paths are made relative. */
  method ScanFiles(fs: FsMap, denied: set<Path>, files: seq<Path>, needle: string,
                   caseSensitive: bool, max: nat)
    returns (hits: seq<Hit>, searched: nat)
    requires max >= 1
    ensures Outcome(hits, searched) == Search(fs, denied, files, needle, caseSensitive, max, [], 0)
    ensures hits == Take(AllHits(fs, denied, files, needle, caseSensitive), max)
  {
    ghost var whole := Search(fs, denied, files, needle, caseSensitive, max, [], 0);
    hits := [];
    searched := 0;
    var i := 0;
    assert files[0..] == files;
    while i < |files|
      invariant 0 <= i <= |files|
      invariant |hits| < max
      invariant Search(fs, denied, files[i..], needle, caseSensitive, max, hits, searched) == whole
    {
      var f := files[i];
      if !IsFile(fs, f) || f in denied {
        SearchSkip(fs, denied, files, i, needle, caseSensitive, max, hits, searched);
        i := i + 1;
        continue;
      }
      SearchRead(fs, denied, files, i, needle, caseSensitive, max, hits, searched);
      hits := ScanFile(f, Lines(fs, f), needle, caseSensitive, max, hits);
      searched := searched + 1;
      if |hits| >= max {
        break;
      }
      i := i + 1;
    }
    GrepPrefix(fs, denied, files, needle, caseSensitive, max);
  }

  /** One entry of `results`: the file relative to the root, the line number, the line. */
  datatype GrepMatch = GrepMatch(file: Path, line: nat, content: string)

  /** The JSON object `fs_grep` returns. */
  datatype GrepReport = GrepReport(searchText: string, filesSearched: nat, matchesFound: nat,
                                   truncated: bool, results: seq<GrepMatch>)

  /** `str(filepath.relative_to(WORK_DIR))` for each result in turn, as the loop does when it
      appends one; the first file outside the root raises `ValueError`. */
  method Relativize(root: Path, hits: seq<Hit>) returns (r: Result<seq<GrepMatch>, Raised>)
    ensures r.Ok? <==> forall k :: 0 <= k < |hits| ==> Under(root, hits[k].file)
    ensures r.Err? ==> exists k :: 0 <= k < |hits| && !Under(root, hits[k].file)
                         && (forall j :: 0 <= j < k ==> Under(root, hits[j].file))
                         && r.error == ValueError(NotRelativeMessage(root, hits[k].file))
    ensures r.Ok? ==> |r.value| == |hits| && forall k :: 0 <= k < |hits| ==>
      root + r.value[k].file == hits[k].file
      && r.value[k].line == hits[k].line && r.value[k].content == hits[k].content
  {
    var results: seq<GrepMatch> := [];
    var i := 0;
    while i < |hits|
      invariant 0 <= i <= |hits|
      invariant |results| == i
      invariant forall k :: 0 <= k < i ==>
        Under(root, hits[k].file)
        && root + results[k].file == hits[k].file
        && results[k].line == hits[k].line && results[k].content == hits[k].content
    {
      var h := hits[i];
      var rel := RelativeTo(root, h.file);
      if rel.None? {
        return Err(ValueError(NotRelativeMessage(root, h.file)));
      }
      results := results + [GrepMatch(rel.value, h.line, h.content)];
      i := i + 1;
    }
    return Ok(results);
  }

  /** The files `fs_grep` walks, in the order it walks them: `rglob` leaves out what lies
      below a directory it cannot list. */
  ghost function Candidates(fs: FsMap, locked: set<Path>, dir: Path, pattern: string): (r: seq<Path>)
    ensures Ascending(r)
    ensures forall p :: p in r <==>
      p in fs && Below(dir, p, true) && Reached(locked, dir, p) && Match(pattern, Name(p))
  {
    Sorted(Walk(fs, locked, dir, pattern, true))
  }

  /** `rglob("")` yields only directories, which the loop skips: with an empty file pattern
      no file is walked and the search finds nothing. */
  lemma EmptyPatternSearchesNothing(fs: FsMap, denied: set<Path>, locked: set<Path>, dir: Path,
                                    needle: string, caseSensitive: bool, max: nat)
    requires WellFormed(fs)
    ensures Candidates(fs, locked, dir, []) == []
    ensures Search(fs, denied, Candidates(fs, locked, dir, []), needle, caseSensitive, max, [], 0)
              == Outcome([], 0)
  {
    forall p | p in fs && Below(dir, p, true) ensures !Match([], Name(p)) {
      assert IsName(p[|p| - 1]);
    }
    assert Walk(fs, locked, dir, [], true) == {};
  }

  /** `rglob` on a directory it cannot list yields nothing: no file is walked and the
      search finds nothing. */
  lemma LockedSearchesNothing(fs: FsMap, denied: set<Path>, locked: set<Path>, dir: Path,
                              pattern: string, needle: string, caseSensitive: bool, max: nat)
    requires dir in locked
    ensures Candidates(fs, locked, dir, pattern) == []
    ensures Search(fs, denied, Candidates(fs, locked, dir, pattern), needle, caseSensitive, max, [], 0)
              == Outcome([], 0)
  {
    assert Walk(fs, locked, dir, pattern, true) == {};
  }

  /** The two cases in which `fs_grep` walks no file. */
  lemma NothingWalked(fs: FsMap, denied: set<Path>, locked: set<Path>, dir: Path,
                      pattern: string, needle: string, caseSensitive: bool, max: nat)
    requires WellFormed(fs)
    requires pattern == [] || dir in locked
    ensures Search(fs, denied, Candidates(fs, locked, dir, pattern), needle, caseSensitive, max, [], 0)
              == Outcome([], 0)
  {
    if pattern == [] {
      EmptyPatternSearchesNothing(fs, denied, locked, dir, needle, caseSensitive, max);
    } else {
      LockedSearchesNothing(fs, denied, locked, dir, pattern, needle, caseSensitive, max);
    }
  }

  /** Every result lies below the searched directory. */
  lemma GrepBelow(fs: FsMap, denied: set<Path>, locked: set<Path>, dir: Path, pattern: string,
                  needle: string, caseSensitive: bool, max: nat)
    requires max >= 1
    ensures var o := Search(fs, denied, Candidates(fs, locked, dir, pattern), needle, caseSensitive,
                            max, [], 0);
      forall k :: 0 <= k < |o.hits| ==> Under(dir, o.hits[k].file)
  {
    var files := Candidates(fs, locked, dir, pattern);
    GrepSound(fs, denied, files, needle, caseSensitive, max);
    var hits := Search(fs, denied, files, needle, caseSensitive, max, [], 0).hits;
    forall k | 0 <= k < |hits| ensures Under(dir, hits[k].file) {
      assert hits[k] in hits;
      assert hits[k].file in files;
      assert hits[k].file in Walk(fs, locked, dir, pattern, true);
    }
  }

  /** The JSON object `fs_grep` builds from the loops' outcome: each result's file made
      relative to the root, the counts, and `truncated` when the results reached the cap. */
  method BuildReport(root: Path, text: string, o: Outcome, max: nat)
    returns (r: Result<GrepReport, ToolError>)
    ensures r.Ok? <==> forall k :: 0 <= k < |o.hits| ==> Under(root, o.hits[k].file)
    ensures r.Err? ==> exists k :: 0 <= k < |o.hits| && !Under(root, o.hits[k].file)
                         && (forall j :: 0 <= j < k ==> Under(root, o.hits[j].file))
                         && r.error == Caught(ValueError(NotRelativeMessage(root, o.hits[k].file)))
    ensures r.Ok? ==>
      && r.value.searchText == text
      && r.value.filesSearched == o.searched
      && r.value.matchesFound == |r.value.results| == |o.hits|
      && r.value.truncated == (|o.hits| >= max)
      && forall k :: 0 <= k < |o.hits| ==>
           root + r.value.results[k].file == o.hits[k].file
           && r.value.results[k].line == o.hits[k].line
           && r.value.results[k].content == o.hits[k].content
    ensures o.hits == [] && max >= 1 ==> r == Ok(GrepReport(text, o.searched, 0, false, []))
  {
    var results := Relativize(root, o.hits);
    if results.Err? {
      return Err(Caught(results.error));
    }
    r := Ok(GrepReport(text, o.searched, |results.value|, |results.value| >= max, results.value));
    if o.hits == [] {
      assert results.value == [];
    }
  }

  /** The body of `fs_grep` once the directory is resolved: walk it with `rglob`, scan the
      files, build the report. */
  method GrepIn(fs: FsMap, root: Path, denied: set<Path>, locked: set<Path>, text: string,
                dir: Path, pattern: string, caseSensitive: bool, max: nat)
    returns (r: Result<GrepReport, ToolError>)
    requires WellFormed(fs) && max >= 1
    ensures pattern == [] || dir in locked ==> r == Ok(GrepReport(text, 0, 0, false, []))
    ensures var o := Search(fs, denied, Candidates(fs, locked, dir, pattern),
                            Needle(text, caseSensitive), caseSensitive, max, [], 0);
      && (r.Ok? <==> forall k :: 0 <= k < |o.hits| ==> Under(root, o.hits[k].file))
      && (r.Err? ==> exists k :: 0 <= k < |o.hits| && !Under(root, o.hits[k].file)
                      && (forall j :: 0 <= j < k ==> Under(root, o.hits[j].file))
                      && r.error == Caught(ValueError(NotRelativeMessage(root, o.hits[k].file))))
      && (r.Ok? ==>
            && r.value.searchText == text
            && r.value.filesSearched == o.searched
            && r.value.matchesFound == |r.value.results| == |o.hits|
            && r.value.truncated == (|o.hits| >= max)
            && forall k :: 0 <= k < |o.hits| ==>
                 root + r.value.results[k].file == o.hits[k].file
                 && r.value.results[k].line == o.hits[k].line
                 && r.value.results[k].content == o.hits[k].content)
    ensures Under(root, dir) ==> r.Ok?
  {
    var needle := if caseSensitive then text else Lower(text);
    var order := SortPaths(Walk(fs, locked, dir, pattern, true));
    var hits, searched := ScanFiles(fs, denied, order, needle, caseSensitive, max);
    ghost var o := Search(fs, denied, Candidates(fs, locked, dir, pattern), needle, caseSensitive,
                          max, [], 0);
    assert Outcome(hits, searched) == o;
    GrepBelow(fs, denied, locked, dir, pattern, needle, caseSensitive, max);
    if Under(root, dir) {
      forall k | 0 <= k < |hits| ensures Under(root, hits[k].file) {
        UnderTransitive(root, dir, hits[k].file);
      }
    }
    if pattern == [] || dir in locked {
      NothingWalked(fs, denied, locked, dir, pattern, needle, caseSensitive, max);
    }
    r := BuildReport(root, text, Outcome(hits, searched), max);
  }

  /** `fs_grep`. `text` is non-empty and `max` lies in 1..500 (the input model's
      constraints); `denied` holds the files that cannot be read, `locked` the directories
      that cannot be listed, which `rglob` skips. */
  method SearchText(fs: FsMap, root: Path, denied: set<Path>, locked: set<Path>, text: string,
                    rawDir: string, pattern: string, caseSensitive: bool, max: nat)
    returns (r: Result<GrepReport, ToolError>)
    requires IsNormal(root) && WellFormed(fs)
    requires text != [] && 1 <= max <= 500
    ensures SafePath(root, rawDir).Err? ==> r == Err(Caught(SafePath(root, rawDir).error))
    ensures SafePath(root, rawDir).Ok? && (pattern == [] || SafePath(root, rawDir).value in locked) ==>
      r == Ok(GrepReport(text, 0, 0, false, []))
    ensures SafePath(root, rawDir).Ok? ==>
      var o := Search(fs, denied, Candidates(fs, locked, SafePath(root, rawDir).value, pattern),
                      Needle(text, caseSensitive), caseSensitive, max, [], 0);
      && (r.Ok? <==> forall k :: 0 <= k < |o.hits| ==> Under(root, o.hits[k].file))
      && (r.Err? ==> exists k :: 0 <= k < |o.hits| && !Under(root, o.hits[k].file)
                      && (forall j :: 0 <= j < k ==> Under(root, o.hits[j].file))
                      && r.error == Caught(ValueError(NotRelativeMessage(root, o.hits[k].file))))
      && (r.Ok? ==>
            && r.value.searchText == text
            && r.value.filesSearched == o.searched
            && r.value.matchesFound == |r.value.results| == |o.hits|
            && r.value.truncated == (|o.hits| >= max)
            && forall k :: 0 <= k < |o.hits| ==>
                 root + r.value.results[k].file == o.hits[k].file
                 && r.value.results[k].line == o.hits[k].line
                 && r.value.results[k].content == o.hits[k].content)
    ensures SafePath(root, rawDir).Ok? && Under(root, SafePath(root, rawDir).value)
      ==> r.Ok?
  {
    var resolved := SafePath(root, rawDir);
    if resolved.Err? {
      return Err(Caught(resolved.error));
    }
    r := GrepIn(fs, root, denied, locked, text, resolved.value, pattern, caseSensitive, max);
  }
}
