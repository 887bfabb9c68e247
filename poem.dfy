/** The behaviour pinned down by the unit tests of the search functions:
    the "Rust:" poem searched for "duct" with case kept and for "rUsT" with
    case ignored. */
module Poem {
  import opened Text
  import opened Grep

  /** Filtering one more line extends the result by that line when it
      matches. */
  lemma MatchingSnoc(query: string, lines: seq<string>, line: string, ignoreCase: bool)
    ensures Matching(query, lines + [line], ignoreCase) ==
      Matching(query, lines, ignoreCase) + (if LineMatches(query, line, ignoreCase) then [line] else [])
  {
    assert (lines + [line])[..|lines|] == lines;
  }

  /** The filter applied to four lines, one at a time. */
  lemma MatchingFour(query: string, a: string, b: string, c: string, d: string, ignoreCase: bool)
    ensures Matching(query, [a, b, c, d], ignoreCase) ==
      (if LineMatches(query, a, ignoreCase) then [a] else []) +
      (if LineMatches(query, b, ignoreCase) then [b] else []) +
      (if LineMatches(query, c, ignoreCase) then [c] else []) +
      (if LineMatches(query, d, ignoreCase) then [d] else [])
  {
    MatchingSnoc(query, [], a, ignoreCase);
    MatchingSnoc(query, [a], b, ignoreCase);
    MatchingSnoc(query, [a, b], c, ignoreCase);
    MatchingSnoc(query, [a, b, c], d, ignoreCase);
    assert [] + [a] == [a] && [a] + [b] == [a, b] && [a, b] + [c] == [a, b, c] && [a, b, c] + [d] == [a, b, c, d];
  }

  /** Of four lines, only the second matches. */
  lemma OnlySecondOfFour(query: string, a: string, b: string, c: string, d: string, ignoreCase: bool)
    requires !LineMatches(query, a, ignoreCase) && LineMatches(query, b, ignoreCase)
    requires !LineMatches(query, c, ignoreCase) && !LineMatches(query, d, ignoreCase)
    ensures Matching(query, [a, b, c, d], ignoreCase) == [b]
  {
    MatchingFour(query, a, b, c, d, ignoreCase);
  }

  /** Of four lines, only the first and the last match. */
  lemma FirstAndLastOfFour(query: string, a: string, b: string, c: string, d: string, ignoreCase: bool)
    requires LineMatches(query, a, ignoreCase) && !LineMatches(query, b, ignoreCase)
    requires !LineMatches(query, c, ignoreCase) && LineMatches(query, d, ignoreCase)
    ensures Matching(query, [a, b, c, d], ignoreCase) == [a, d]
  {
    MatchingFour(query, a, b, c, d, ignoreCase);
  }

  /** A `\n`-ended line and an unterminated last one split into two. */
  lemma TwoLines(a: string, b: string)
    requires IsLine(a)
    requires b != [] && '\n' !in b
    ensures Lines(a + "\n" + b) == [a, b]
  {
    SingleLine(b);
    LinesPrepend(a, b, [b]);
  }

  /** Two `\n`-ended lines and an unterminated last one split into three. */
  lemma ThreeLines(a: string, b: string, c: string)
    requires IsLine(a) && IsLine(b)
    requires c != [] && '\n' !in c
    ensures Lines(a + "\n" + (b + "\n" + c)) == [a, b, c]
  {
    TwoLines(b, c);
    LinesPrepend(a, b + "\n" + c, [b, c]);
  }

  /** Three `\n`-ended lines and an unterminated last one split into four. */
  lemma FourLines(a: string, b: string, c: string, d: string)
    requires IsLine(a) && IsLine(b) && IsLine(c)
    requires d != [] && '\n' !in d
    ensures Lines(a + "\n" + (b + "\n" + (c + "\n" + d))) == [a, b, c, d]
  {
    ThreeLines(b, c, d);
    LinesPrepend(a, b + "\n" + (c + "\n" + d), [b, c, d]);
  }

  /** The poem "Rust:/safe, fast, productive./Pick three./<last>" as text. */
  lemma PoemText(last: string)
    ensures "Rust:" + "\n" + ("safe, fast, productive." + "\n" + ("Pick three." + "\n" + last)) ==
      "Rust:\nsafe, fast, productive.\nPick three.\n" + last
  {
  }

  /** The poem's first three lines are lines that `Lines` gives back. */
  lemma PoemLinesAreLines()
    ensures IsLine("Rust:") && IsLine("safe, fast, productive.") && IsLine("Pick three.")
  {
  }

  /** The poem splits into its four lines. */
  lemma PoemLines(last: string)
    requires last != [] && '\n' !in last
    ensures Lines("Rust:\nsafe, fast, productive.\nPick three.\n" + last) ==
      ["Rust:", "safe, fast, productive.", "Pick three.", last]
  {
    PoemText(last);
    PoemLinesAreLines();
    FourLines("Rust:", "safe, fast, productive.", "Pick three.", last);
  }

  /** "Rust:" does not contain "duct". */
  lemma DuctNotInFirst()
    ensures !LineMatches("duct", "Rust:", false)
  {
    NotContainsMissing("Rust:", "duct", 'd');
  }

  /** "safe, fast, productive." contains "duct". */
  lemma DuctInSecond()
    ensures LineMatches("duct", "safe, fast, productive.", false)
  {
    ContainsAt("safe, fast, productive.", "duct", 15);
  }

  /** "Pick three." does not contain "duct". */
  lemma DuctNotInThird()
    ensures !LineMatches("duct", "Pick three.", false)
  {
    NotContainsMissing("Pick three.", "duct", 'd');
  }

  /** "Duct tape." does not contain "duct": case is kept. */
  lemma DuctNotInDuctTape()
    ensures !LineMatches("duct", "Duct tape.", false)
  {
    NotContainsMissing("Duct tape.", "duct", 'd');
  }

  /** "Rust:" contains "rUsT" once case is ignored. */
  lemma RustInFirst()
    ensures LineMatches("rUsT", "Rust:", true)
  {
    assert Lower("rUsT") == "rust";
    assert Lower("Rust:") == "rust:";
    ContainsAt("rust:", "rust", 0);
  }

  /** "safe, fast, productive." has every letter of "rust" but not the word. */
  lemma RustNotInSecond()
    ensures !LineMatches("rUsT", "safe, fast, productive.", true)
  {
    var s := "safe, fast, productive.";
    assert Lower("rUsT") == "rust";
    assert Lower(s) == s;
    assert s[14] == 'o';
    assert s[13..17][1] != "rust"[1];
    NotContainsExcept(s, "rust", 13);
  }

  /** "Pick three." does not contain "rUsT", case ignored. */
  lemma RustNotInThird()
    ensures !LineMatches("rUsT", "Pick three.", true)
  {
    assert Lower("rUsT") == "rust";
    assert Lower("Pick three.") == "pick three.";
    NotContainsMissing("pick three.", "rust", 'u');
  }

  /** "Trust me." contains "rUsT" once case is ignored. */
  lemma RustInTrustMe()
    ensures LineMatches("rUsT", "Trust me.", true)
  {
    assert Lower("rUsT") == "rust";
    assert Lower("Trust me.") == "trust me.";
    ContainsAt("trust me.", "rust", 1);
  }

  /** The poem ending in "Duct tape." splits into its four lines. */
  lemma DuctTapePoemLines()
    ensures Lines("Rust:\nsafe, fast, productive.\nPick three.\nDuct tape.") ==
      ["Rust:", "safe, fast, productive.", "Pick three.", "Duct tape."]
  {
    PoemLines("Duct tape.");
    DuctTapeText();
  }

  /** The poem ending in "Duct tape.", as its first three lines and its last. */
  lemma DuctTapeText()
    ensures "Rust:\nsafe, fast, productive.\nPick three.\n" + "Duct tape." ==
      "Rust:\nsafe, fast, productive.\nPick three.\nDuct tape."
  {
  }

  /** The poem ending in "Trust me." splits into its four lines. */
  lemma TrustMePoemLines()
    ensures Lines("Rust:\nsafe, fast, productive.\nPick three.\nTrust me.") ==
      ["Rust:", "safe, fast, productive.", "Pick three.", "Trust me."]
  {
    PoemLines("Trust me.");
    TrustMeText();
  }

  /** The poem ending in "Trust me.", as its first three lines and its last. */
  lemma TrustMeText()
    ensures "Rust:\nsafe, fast, productive.\nPick three.\n" + "Trust me." ==
      "Rust:\nsafe, fast, productive.\nPick three.\nTrust me."
  {
  }

  /** "duct", case kept, selects only the second line of the poem. */
  lemma DuctFilter()
    ensures Matching("duct", ["Rust:", "safe, fast, productive.", "Pick three.", "Duct tape."], false)
      == ["safe, fast, productive."]
  {
    DuctNotInFirst();
    DuctInSecond();
    DuctNotInThird();
    DuctNotInDuctTape();
    OnlySecondOfFour("duct", "Rust:", "safe, fast, productive.", "Pick three.", "Duct tape.", false);
  }

  /** "rUsT", case ignored, selects the first and the last line. */
  lemma RustFilter()
    ensures Matching("rUsT", ["Rust:", "safe, fast, productive.", "Pick three.", "Trust me."], true)
      == ["Rust:", "Trust me."]
  {
    RustInFirst();
    RustNotInSecond();
    RustNotInThird();
    RustInTrustMe();
    FirstAndLastOfFour("rUsT", "Rust:", "safe, fast, productive.", "Pick three.", "Trust me.", true);
  }

  /** The first two lines of the three-line poem as text. */
  lemma ThreeLinePoemText(last: string)
    ensures "Rust:" + "\n" + ("safe, fast, productive." + "\n" + last) ==
      "Rust:\nsafe, fast, productive.\n" + last
  {
  }

  /** The three-line poem splits into its lines. */
  lemma ThreeLinePoemLines()
    ensures Lines("Rust:\nsafe, fast, productive.\nPick three.") ==
      ["Rust:", "safe, fast, productive.", "Pick three."]
  {
    ThreeLinePoemText("Pick three.");
    assert "Rust:\nsafe, fast, productive.\n" + "Pick three." == "Rust:\nsafe, fast, productive.\nPick three.";
    PoemLinesAreLines();
    ThreeLines("Rust:", "safe, fast, productive.", "Pick three.");
  }

  /** The filter applied to three lines, one at a time. */
  lemma MatchingThree(query: string, a: string, b: string, c: string, ignoreCase: bool)
    ensures Matching(query, [a, b, c], ignoreCase) ==
      (if LineMatches(query, a, ignoreCase) then [a] else []) +
      (if LineMatches(query, b, ignoreCase) then [b] else []) +
      (if LineMatches(query, c, ignoreCase) then [c] else [])
  {
    MatchingSnoc(query, [], a, ignoreCase);
    MatchingSnoc(query, [a], b, ignoreCase);
    MatchingSnoc(query, [a, b], c, ignoreCase);
    assert [] + [a] == [a] && [a] + [b] == [a, b] && [a, b] + [c] == [a, b, c];
  }

  /** "duct" selects only the second of the three lines. */
  lemma DuctFilterThree()
    ensures Matching("duct", ["Rust:", "safe, fast, productive.", "Pick three."], false)
      == ["safe, fast, productive."]
  {
    MatchingThree("duct", "Rust:", "safe, fast, productive.", "Pick three.", false);
    DuctNotInFirst();
    DuctInSecond();
    DuctNotInThird();
  }

  /** "duct" finds exactly one line, "safe, fast, productive.", in the
      three-line poem. */
  lemma OneResultExample()
    ensures Matching("duct", Lines("Rust:\nsafe, fast, productive.\nPick three."), false)
      == ["safe, fast, productive."]
  {
    ThreeLinePoemLines();
    DuctFilterThree();
  }

  /** "duct" finds only "safe, fast, productive." in the four-line poem:
      "Duct tape." is excluded by case. */
  lemma CaseSensitiveExample()
    ensures Matching("duct", Lines("Rust:\nsafe, fast, productive.\nPick three.\nDuct tape."), false)
      == ["safe, fast, productive."]
  {
    DuctTapePoemLines();
    DuctFilter();
  }

  /** "rUsT" ignoring case finds "Rust:" and "Trust me.", in their original
      case. */
  lemma CaseInsensitiveExample()
    ensures Matching("rUsT", Lines("Rust:\nsafe, fast, productive.\nPick three.\nTrust me."), true)
      == ["Rust:", "Trust me."]
  {
    TrustMePoemLines();
    RustFilter();
  }
}
