/** The standard-library string operations the line filter relies on:
    `str::starts_with`, `str::contains`, `to_lowercase`, `str::trim` and
    `str::lines`, each written out on `seq<char>`. */
module Text {

  // ---------------------------------------------------------------------------
  // Prefixes and substrings
  // ---------------------------------------------------------------------------

  /** `s` begins with `p` (`str::starts_with`). */
  predicate StartsWith(s: string, p: string) {
    |p| <= |s| && s[..|p|] == p
  }

  /** `s` contains `q` as a contiguous substring (`str::contains`), as a
      left-to-right scan over the starting offsets. */
  predicate Contains(s: string, q: string)
    decreases |s|
  {
    StartsWith(s, q) || (|s| > 0 && Contains(s[1..], q))
  }

  /** `q` occurs in `s` starting at offset `i`. */
  ghost predicate OccursAt(s: string, q: string, i: int) {
    0 <= i && i + |q| <= |s| && s[i..i + |q|] == q
  }

  /** The scan finds `q` exactly when `q` occurs at some offset of `s`. */
  lemma {:induction false} ContainsIffOccurs(s: string, q: string)
    ensures Contains(s, q) <==> exists i :: OccursAt(s, q, i)
    decreases |s|
  {
    if StartsWith(s, q) {
      assert OccursAt(s, q, 0);
    } else if |s| == 0 {
      forall i | OccursAt(s, q, i) ensures false {
      }
    } else {
      ContainsIffOccurs(s[1..], q);
      if i :| OccursAt(s, q, i) {
        if i == 0 {
          assert false;
        }
        assert s[1..][i - 1..i - 1 + |q|] == s[i..i + |q|];
        assert OccursAt(s[1..], q, i - 1);
      }
      if i :| OccursAt(s[1..], q, i) {
        assert s[1..][i..i + |q|] == s[i + 1..i + 1 + |q|];
        assert OccursAt(s, q, i + 1);
      }
    }
  }

  /** `s` contains `q` when `q` occurs at offset `i` of `s`. */
  lemma ContainsAt(s: string, q: string, i: nat)
    requires i + |q| <= |s| && s[i..i + |q|] == q
    ensures Contains(s, q)
  {
    assert OccursAt(s, q, i);
    ContainsIffOccurs(s, q);
  }

  /** `s` does not contain `q` when some character of `q` is missing from
      `s`. */
  lemma NotContainsMissing(s: string, q: string, c: char)
    requires c in q && c !in s
    ensures !Contains(s, q)
  {
    ContainsIffOccurs(s, q);
    var j :| 0 <= j < |q| && q[j] == c;
    forall i | 0 <= i && i + |q| <= |s|
      ensures !OccursAt(s, q, i)
    {
      assert s[i..i + |q|][j] == s[i + j];
    }
  }

  /** `s` does not contain a non-empty `q` when the only place where `s` has
      the first character of `q` does not start an occurrence. */
  lemma NotContainsExcept(s: string, q: string, i0: nat)
    requires q != []
    requires forall i :: 0 <= i < |s| && s[i] == q[0] ==> i == i0
    requires i0 + |q| > |s| || s[i0..i0 + |q|] != q
    ensures !Contains(s, q)
  {
    ContainsIffOccurs(s, q);
    forall i | 0 <= i && i + |q| <= |s|
      ensures !OccursAt(s, q, i)
    {
      assert s[i..i + |q|][0] == s[i];
    }
  }

  /** Every string contains the empty string. */
  lemma ContainsEmpty(s: string)
    ensures Contains(s, "")
  {
    assert StartsWith(s, "");
  }

  // ---------------------------------------------------------------------------
  // Lower-casing
  // ---------------------------------------------------------------------------

  /** Simple per-character lower-casing: the ASCII letters `A`..`Z` map to
      `a`..`z`, every other character is unchanged. */
  function LowerChar(c: char): char {
    if 'A' <= c <= 'Z' then (c as int + 32) as char else c
  }

  /** The lower-cased copy of `s` (`to_lowercase`, per character). */
  function Lower(s: string): (r: string)
    ensures |r| == |s|
    ensures forall i :: 0 <= i < |r| ==> !('A' <= r[i] <= 'Z')
  {
    seq(|s|, i requires 0 <= i < |s| => LowerChar(s[i]))
  }

  /** Lower-casing twice is lower-casing once. */
  lemma LowerIdempotent(s: string)
    ensures Lower(Lower(s)) == Lower(s)
  {
    var r := Lower(s);
    assert forall i :: 0 <= i < |r| ==> Lower(r)[i] == r[i];
  }

  /** Lower-casing commutes with taking a slice. */
  lemma LowerSlice(s: string, i: nat, j: nat)
    requires i <= j <= |s|
    ensures Lower(s)[i..j] == Lower(s[i..j])
  {
  }

  /** Folding case can only add matches: a substring of `s` stays a substring
      once both sides are lower-cased. */
  lemma {:induction false} ContainsLower(s: string, q: string)
    requires Contains(s, q)
    ensures Contains(Lower(s), Lower(q))
  {
    ContainsIffOccurs(s, q);
    var i :| OccursAt(s, q, i);
    LowerSlice(s, i, i + |q|);
    assert OccursAt(Lower(s), Lower(q), i);
    ContainsIffOccurs(Lower(s), Lower(q));
  }

  // ---------------------------------------------------------------------------
  // Trimming
  // ---------------------------------------------------------------------------

  /** `char::is_whitespace`: the characters with the Unicode White_Space
      property. */
  predicate IsWhitespace(c: char) {
    c == ' ' || '\t' <= c <= '\r' || c == '\U{0085}' || c == '\U{00A0}' ||
    c == '\U{1680}' || '\U{2000}' <= c <= '\U{200A}' || c == '\U{2028}' ||
    c == '\U{2029}' || c == '\U{202F}' || c == '\U{205F}' || c == '\U{3000}'
  }

  /** `s` with its leading whitespace removed (`str::trim_start`). */
  function TrimStart(s: string): (r: string)
    ensures |r| <= |s|
    decreases |s|
  {
    if s != [] && IsWhitespace(s[0]) then TrimStart(s[1..]) else s
  }

  /** `TrimStart` keeps a suffix, cuts only whitespace and leaves no
      whitespace at the front. */
  lemma {:induction false} TrimStartSuffix(s: string)
    ensures var r := TrimStart(s);
      r == s[|s| - |r|..] && (forall i :: 0 <= i < |s| - |r| ==> IsWhitespace(s[i])) &&
      (r == [] || !IsWhitespace(r[0]))
    decreases |s|
  {
    if s != [] && IsWhitespace(s[0]) {
      TrimStartSuffix(s[1..]);
      var r := TrimStart(s);
      forall i | 1 <= i < |s| - |r|
        ensures IsWhitespace(s[i])
      {
        assert s[i] == s[1..][i - 1];
      }
    }
  }

  /** `s` with its trailing whitespace removed (`str::trim_end`). */
  function TrimEnd(s: string): (r: string)
    ensures |r| <= |s|
    decreases |s|
  {
    if s != [] && IsWhitespace(s[|s| - 1]) then TrimEnd(s[..|s| - 1]) else s
  }

  /** `TrimEnd` keeps a prefix, cuts only whitespace and leaves no
      whitespace at the end. */
  lemma {:induction false} TrimEndPrefix(s: string)
    ensures var r := TrimEnd(s);
      r == s[..|r|] && (forall i :: |r| <= i < |s| ==> IsWhitespace(s[i])) &&
      (r == [] || !IsWhitespace(r[|r| - 1]))
    decreases |s|
  {
    if s != [] && IsWhitespace(s[|s| - 1]) {
      var p := s[..|s| - 1];
      TrimEndPrefix(p);
      var r := TrimEnd(s);
      assert r == s[..|r|];
      forall i | |r| <= i < |s| - 1
        ensures IsWhitespace(s[i])
      {
        assert s[i] == p[i];
      }
    }
  }

  /** The bounds `TrimStart` and `TrimEnd` leave: `TrimEnd(TrimStart(s))` is
      `s[a..b]`, with whitespace only before `a` and from `b` on. */
  lemma TrimBounds(s: string, a: nat, b: nat)
    requires a == |s| - |TrimStart(s)| && b == a + |TrimEnd(TrimStart(s))|
    ensures b <= |s| && TrimEnd(TrimStart(s)) == s[a..b]
    ensures forall i :: 0 <= i < a ==> IsWhitespace(s[i])
    ensures forall i :: b <= i < |s| ==> IsWhitespace(s[i])
    ensures var r := TrimEnd(TrimStart(s));
      r == [] || (!IsWhitespace(r[0]) && !IsWhitespace(r[|r| - 1]))
  {
    var t := TrimStart(s);
    var r := TrimEnd(t);
    TrimStartSuffix(s);
    TrimEndPrefix(t);
    forall i | b <= i < |s|
      ensures IsWhitespace(s[i])
    {
      assert s[i] == t[i - a];
    }
    if r != [] {
      assert r[0] == t[0];
    }
  }

  /** `str::trim`: the longest slice of `s` that neither starts nor ends
      with whitespace, everything cut away on either side being whitespace. */
  function Trim(s: string): (r: string)
    ensures exists a, b :: (0 <= a <= b <= |s| && r == s[a..b] &&
      (forall i :: 0 <= i < a ==> IsWhitespace(s[i])) &&
      (forall i :: b <= i < |s| ==> IsWhitespace(s[i])))
    ensures r == [] || (!IsWhitespace(r[0]) && !IsWhitespace(r[|r| - 1]))
  {
    var a := |s| - |TrimStart(s)|;
    var b := a + |TrimEnd(TrimStart(s))|;
    TrimBounds(s, a, b);
    TrimEnd(TrimStart(s))
  }

  // ---------------------------------------------------------------------------
  // Splitting into lines
  // ---------------------------------------------------------------------------

  /** The offset of the first `\n` in `s`, or `|s|` when there is none. */
  function NewlineIndex(s: string): (i: nat)
    ensures i <= |s|
  {
    if s == [] || s[0] == '\n' then 0 else 1 + NewlineIndex(s[1..])
  }

  /** `NewlineIndex` stops at the first `\n`: none comes before it, and it
      points at one unless it is the length of `s`. */
  lemma {:induction false} NewlineIndexFirst(s: string)
    ensures var i := NewlineIndex(s);
      (forall j :: 0 <= j < i ==> s[j] != '\n') && (i < |s| ==> s[i] == '\n')
    decreases |s|
  {
    if s != [] && s[0] != '\n' {
      NewlineIndexFirst(s[1..]);
    }
  }

  /** A line cut at `\n` loses one `\r` that stood right before the `\n`. */
  function StripCarriageReturn(l: string): string {
    if |l| > 0 && l[|l| - 1] == '\r' then l[..|l| - 1] else l
  }

  /** `str::lines`: the pieces of `s` between line endings, where a line
      ending is `\n` or `\r\n`; a final line ending does not start an empty
      last line, and the empty string has no lines. */
  function Lines(s: string): seq<string>
    decreases |s|
  {
    if s == [] then []
    else
      var i := NewlineIndex(s);
      if i == |s| then [s]
      else
        [StripCarriageReturn(s[..i])] + Lines(s[i + 1..])
  }

  /** No line contains `\n`, and only empty text has no lines. */
  lemma {:induction false} LinesHaveNoNewline(s: string)
    ensures var ls := Lines(s);
      (forall k :: 0 <= k < |ls| ==> '\n' !in ls[k]) && (s == [] <==> ls == [])
    decreases |s|
  {
    if s != [] {
      var i := NewlineIndex(s);
      NewlineIndexFirst(s);
      if i == |s| {
        assert s[..i] == s;
      } else {
        LinesHaveNoNewline(s[i + 1..]);
        var l := StripCarriageReturn(s[..i]);
        assert forall j :: 0 <= j < |l| ==> l[j] == s[j];
      }
    }
  }

  /** A string that `Lines` can give back unchanged: no `\n` inside and no
      `\r` at its end. */
  predicate IsLine(l: string) {
    '\n' !in l && (|l| == 0 || l[|l| - 1] != '\r')
  }

  /** The lines of `ls`, each followed by `\n`. */
  function Terminated(ls: seq<string>): string {
    if ls == [] then "" else ls[0] + "\n" + Terminated(ls[1..])
  }

  /** The lines of `ls`, each followed by `\r\n`. */
  function CrlfTerminated(ls: seq<string>): string {
    if ls == [] then "" else ls[0] + "\r\n" + CrlfTerminated(ls[1..])
  }

  /** The first line ending of `a + [sep] + b` is the `sep` after `a`. */
  lemma {:induction false} NewlineIndexAfter(a: string, b: string)
    requires '\n' !in a
    ensures NewlineIndex(a + "\n" + b) == |a|
    decreases |a|
  {
    var s := a + "\n" + b;
    if a != [] {
      assert a[0] in a;
      assert s[1..] == a[1..] + "\n" + b;
      NewlineIndexAfter(a[1..], b);
    }
  }

  /** Text that starts with a line `a` ended by `\n` splits into `a`, without
      a `\r` right before the `\n`, followed by the lines of the rest. */
  lemma LinesCons(a: string, b: string)
    requires '\n' !in a
    ensures Lines(a + "\n" + b) == [StripCarriageReturn(a)] + Lines(b)
  {
    var s := a + "\n" + b;
    NewlineIndexAfter(a, b);
    assert s[..|a|] == a;
    assert s[|a| + 1..] == b;
  }

  /** A line that `Lines` gives back, ended by `\n`, in front of text that
      splits into `tail`. */
  lemma LinesPrepend(a: string, r: string, tail: seq<string>)
    requires IsLine(a) && Lines(r) == tail
    ensures Lines(a + "\n" + r) == [a] + tail
  {
    LinesCons(a, r);
  }

  /** `Terminated` unfolded once, in front of more text. */
  lemma TerminatedCons(ls: seq<string>, t: string)
    requires ls != []
    ensures Terminated(ls) + t == ls[0] + "\n" + (Terminated(ls[1..]) + t)
  {
  }

  /** One step of `LinesAfterTerminated`: the first terminated line is
      split off in front of the lines of the rest. */
  lemma LinesAfterTerminatedStep(ls: seq<string>, t: string, tail: seq<string>)
    requires ls != [] && IsLine(ls[0])
    requires Lines(Terminated(ls[1..]) + t) == tail
    ensures Lines(Terminated(ls) + t) == [ls[0]] + tail
  {
    TerminatedCons(ls, t);
    LinesPrepend(ls[0], Terminated(ls[1..]) + t, tail);
  }

  /** Putting the first element back in front of the rest. */
  lemma ConsRest<T>(xs: seq<T>, ys: seq<T>)
    requires xs != []
    ensures [xs[0]] + (xs[1..] + ys) == xs + ys
  {
  }

  /** Splitting text made of `\n`-terminated lines followed by any text `t`
      gives back those lines, then the lines of `t`. */
  lemma {:induction false} LinesAfterTerminated(ls: seq<string>, t: string)
    requires forall k :: 0 <= k < |ls| ==> IsLine(ls[k])
    ensures Lines(Terminated(ls) + t) == ls + Lines(t)
    decreases |ls|
  {
    if ls == [] {
      assert Terminated(ls) + t == t;
    } else {
      var rest := ls[1..];
      assert forall k :: 0 <= k < |rest| ==> rest[k] == ls[k + 1];
      LinesAfterTerminated(rest, t);
      LinesAfterTerminatedStep(ls, t, rest + Lines(t));
      ConsRest(ls, Lines(t));
    }
  }

  /** Round trip: `\n`-terminated lines split back into the same lines; in
      particular the final `\n` does not add an empty line. */
  lemma LinesOfTerminated(ls: seq<string>)
    requires forall k :: 0 <= k < |ls| ==> IsLine(ls[k])
    ensures Lines(Terminated(ls)) == ls
  {
    LinesAfterTerminated(ls, "");
    assert Terminated(ls) + "" == Terminated(ls);
  }

  /** Round trip for `\r\n` line endings: the pair counts as one line ending
      and neither character stays in the line. */
  lemma {:induction false} LinesOfCrlfTerminated(ls: seq<string>)
    requires forall k :: 0 <= k < |ls| ==> '\n' !in ls[k]
    ensures Lines(CrlfTerminated(ls)) == ls
    decreases |ls|
  {
    if ls != [] {
      var rest := CrlfTerminated(ls[1..]);
      var s := CrlfTerminated(ls);
      var l := ls[0] + "\r";
      assert s == l + "\n" + rest;
      assert '\n' !in l by {
        forall j | 0 <= j < |l| ensures l[j] != '\n' {
          if j < |ls[0]| { assert l[j] == ls[0][j]; }
        }
      }
      LinesCons(l, rest);
      assert l[..|l| - 1] == ls[0];
      LinesOfCrlfTerminated(ls[1..]);
      assert ls == [ls[0]] + ls[1..];
    }
  }

  /** Text without any `\n` is a single line, kept as it is (a lone `\r` is
      not a line ending). */
  lemma SingleLine(t: string)
    requires t != [] && '\n' !in t
    ensures Lines(t) == [t]
  {
    NewlineIndexFirst(t);
    assert t[..|t|] == t;
  }
}
