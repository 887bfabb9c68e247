/** The line filter (`search`, `search_case_insensitive`, `_search2`) and
    the search selection made by `run`. */
module Grep {
  import opened Text
  import opened Wrappers
  import opened Args

  // ---------------------------------------------------------------------------
  // Specification of the filter
  // ---------------------------------------------------------------------------

  /** Whether `line` is selected for `query`: plain containment, or
      containment after lower-casing both sides when case is ignored. */
  predicate LineMatches(query: string, line: string, ignoreCase: bool) {
    if ignoreCase then Contains(Lower(line), Lower(query)) else Contains(line, query)
  }

  /** The lines of `lines` selected for `query`, kept in their order. */
  function Matching(query: string, lines: seq<string>, ignoreCase: bool): seq<string>
    decreases |lines|
  {
    if lines == [] then []
    else
      var last := lines[|lines| - 1];
      Matching(query, lines[..|lines| - 1], ignoreCase) +
        (if LineMatches(query, last, ignoreCase) then [last] else [])
  }

  /** The positions of the selected lines, in increasing order. */
  ghost function MatchIndices(query: string, lines: seq<string>, ignoreCase: bool): seq<nat>
    decreases |lines|
  {
    if lines == [] then []
    else
      var n := |lines| - 1;
      MatchIndices(query, lines[..n], ignoreCase) +
        (if LineMatches(query, lines[n], ignoreCase) then [n] else [])
  }

  /** The filter keeps exactly the matching lines, each once for each place it
      has, in their original order: the k-th result is the line at the k-th
      matching position, the positions strictly increase, and a position is
      among them exactly when its line matches. */
  lemma {:induction false} MatchingExactly(query: string, lines: seq<string>, ignoreCase: bool)
    ensures var r := Matching(query, lines, ignoreCase);
      var idx := MatchIndices(query, lines, ignoreCase);
      |idx| == |r| &&
      (forall k :: 0 <= k < |idx| ==> idx[k] < |lines| && r[k] == lines[idx[k]]) &&
      (forall k, k' :: 0 <= k < k' < |idx| ==> idx[k] < idx[k']) &&
      (forall j :: 0 <= j < |lines| ==> (j in idx <==> LineMatches(query, lines[j], ignoreCase)))
    decreases |lines|
  {
    if lines != [] {
      var n := |lines| - 1;
      var init := lines[..n];
      MatchingExactly(query, init, ignoreCase);
      var idx0 := MatchIndices(query, init, ignoreCase);
      assert forall k :: 0 <= k < |idx0| ==> idx0[k] < n;
      forall j | 0 <= j < n
        ensures lines[j] == init[j]
      {
      }
    }
  }

  /** A line is in the result exactly when it is one of the lines and it
      matches. */
  lemma MatchingMembers(query: string, lines: seq<string>, ignoreCase: bool, line: string)
    ensures line in Matching(query, lines, ignoreCase) <==>
      line in lines && LineMatches(query, line, ignoreCase)
  {
    MatchingExactly(query, lines, ignoreCase);
    var r := Matching(query, lines, ignoreCase);
    var idx := MatchIndices(query, lines, ignoreCase);
    if line in r {
      var k :| 0 <= k < |r| && r[k] == line;
      assert idx[k] in idx;
    }
    if line in lines && LineMatches(query, line, ignoreCase) {
      var j :| 0 <= j < |lines| && lines[j] == line;
      assert j in idx;
      var k :| 0 <= k < |idx| && idx[k] == j;
      assert r[k] == line;
    }
  }

  /** An empty query selects every line, with or without case. */
  lemma {:induction false} EmptyQueryMatchesAll(lines: seq<string>, ignoreCase: bool)
    ensures Matching("", lines, ignoreCase) == lines
    decreases |lines|
  {
    if lines != [] {
      var n := |lines| - 1;
      EmptyQueryMatchesAll(lines[..n], ignoreCase);
      ContainsEmpty(lines[n]);
      ContainsEmpty(Lower(lines[n]));
      assert Lower("") == "";
      assert lines[..n] + [lines[n]] == lines;
    }
  }

  /** Empty contents give no result for any query. */
  lemma EmptyContentsMatchNothing(query: string, ignoreCase: bool)
    ensures Matching(query, Lines(""), ignoreCase) == []
  {
  }

  /** Ignoring case can only add lines: every position selected by the
      case-sensitive filter is also selected by the case-insensitive one. */
  lemma IgnoreCaseWidens(query: string, lines: seq<string>)
    ensures forall j :: j in MatchIndices(query, lines, false) ==> j in MatchIndices(query, lines, true)
    ensures forall l :: l in Matching(query, lines, false) ==> l in Matching(query, lines, true)
  {
    MatchingExactly(query, lines, false);
    MatchingExactly(query, lines, true);
    forall j | 0 <= j < |lines| && LineMatches(query, lines[j], false)
      ensures LineMatches(query, lines[j], true)
    {
      ContainsLower(lines[j], query);
    }
    forall l | l in Matching(query, lines, false)
      ensures l in Matching(query, lines, true)
    {
      MatchingMembers(query, lines, false, l);
      MatchingMembers(query, lines, true, l);
      ContainsLower(l, query);
    }
  }

  // ---------------------------------------------------------------------------
  // The searches
  // ---------------------------------------------------------------------------

  /** `search`: walks the lines of `contents` and collects those that
      contain `query`. */
  method Search(query: string, contents: string) returns (results: seq<string>)
    ensures results == Matching(query, Lines(contents), false)
  {
    var lines := Lines(contents);
    results := [];
    for i := 0 to |lines|
      invariant results == Matching(query, lines[..i], false)
    {
      assert lines[..i + 1][..i] == lines[..i];
      if Contains(lines[i], query) {
        results := results + [lines[i]];
      }
    }
    assert lines[..|lines|] == lines;
  }

  /** `search_case_insensitive`: lower-cases the query once and each line
      before testing, and collects the original lines. */
  method SearchCaseInsensitive(query: string, contents: string) returns (results: seq<string>)
    ensures results == Matching(query, Lines(contents), true)
  {
    var lowered := Lower(query);
    var lines := Lines(contents);
    results := [];
    for i := 0 to |lines|
      invariant results == Matching(query, lines[..i], true)
    {
      assert lines[..i + 1][..i] == lines[..i];
      if Contains(Lower(lines[i]), lowered) {
        results := results + [lines[i]];
      }
    }
    assert lines[..|lines|] == lines;
  }

  /** `_search2`: the lines that contain `query`, tested as they are and
      collected trimmed. */
  method SearchTrimmed(query: string, contents: string) returns (results: seq<string>)
    ensures var m := Matching(query, Lines(contents), false);
      |results| == |m| && forall k :: 0 <= k < |m| ==> results[k] == Trim(m[k])
  {
    var lines := Lines(contents);
    results := [];
    for i := 0 to |lines|
      invariant var m := Matching(query, lines[..i], false);
        |results| == |m| && forall k :: 0 <= k < |m| ==> results[k] == Trim(m[k])
    {
      assert lines[..i + 1][..i] == lines[..i];
      if Contains(lines[i], query) {
        results := results + [Trim(lines[i])];
      }
    }
    assert lines[..|lines|] == lines;
  }

  // ---------------------------------------------------------------------------
  // Running
  // ---------------------------------------------------------------------------

  /** The pure part of `run`: given the file's contents as read (or the read
      error), the lines to print, chosen by the case-insensitive search when
      the configuration ignores case and by the plain search otherwise. */
  method Run(config: Config, contents: Result<string>) returns (r: Result<seq<string>>)
    ensures contents.Err? ==> r == Err(contents.error)
    ensures contents.Ok? ==>
      r == Ok(Matching(config.query, Lines(contents.value), config.ignoreCase))
  {
    if contents.Err? {
      return Err(contents.error);
    }
    var results;
    if config.ignoreCase {
      results := SearchCaseInsensitive(config.query, contents.value);
    } else {
      results := Search(config.query, contents.value);
    }
    return Ok(results);
  }
}
