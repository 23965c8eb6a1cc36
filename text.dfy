/** The handful of Python string operations the scraper relies on:
    `str.strip()`, `str.split('\n')`, `str.lower()`, the `in` substring test,
    and the character classes `\d`, `\s` and `\w` of its regular expressions.
    Characters are restricted to their ASCII behaviour. */
module Text {

  /** Python's whitespace (`str.isspace`, regex `\s`) among ASCII characters:
      space, tab, line feed, vertical tab, form feed, carriage return and the
      four separators 0x1C-0x1F. */
  predicate IsSpace(c: char) {
    c == ' ' || ('\t' <= c <= '\r') || (28 <= c as int <= 31)
  }

  predicate IsDigit(c: char) { '0' <= c <= '9' }

  predicate IsLetter(c: char) { ('a' <= c <= 'z') || ('A' <= c <= 'Z') }

  /** Regex `\w`: letters, digits and the underscore. */
  predicate IsWordChar(c: char) { IsLetter(c) || IsDigit(c) || c == '_' }

  predicate AllSpace(s: string) { forall k :: 0 <= k < |s| ==> IsSpace(s[k]) }

  predicate AllDigits(s: string) { forall k :: 0 <= k < |s| ==> IsDigit(s[k]) }

  function LowerChar(c: char): char {
    if 'A' <= c <= 'Z' then (c as int + 32) as char else c
  }

  /** `str.lower()`. */
  function Lower(s: string): string {
    seq(|s|, k requires 0 <= k < |s| => LowerChar(s[k]))
  }

  /** Lower-casing commutes with slicing. */
  lemma LowerSlice(s: string, i: nat, j: nat)
    requires i <= j <= |s|
    ensures Lower(s[i..j]) == Lower(s)[i..j]
  {
  }

  /** Where the leading whitespace of `s` ends, searching from `i`. */
  function SpaceEnd(s: string, i: nat): (r: nat)
    requires i <= |s|
    ensures i <= r <= |s|
    decreases |s| - i
  {
    if i < |s| && IsSpace(s[i]) then SpaceEnd(s, i + 1) else i
  }

  /** Where the trailing whitespace of `s[lo..j]` starts. */
  function SpaceStart(s: string, lo: nat, j: nat): (r: nat)
    requires lo <= j <= |s|
    ensures lo <= r <= j
    decreases j
  {
    if j > lo && IsSpace(s[j - 1]) then SpaceStart(s, lo, j - 1) else j
  }

  /** `str.strip()`: the text between the leading and the trailing whitespace. */
  function Strip(s: string): string {
    var a := SpaceEnd(s, 0);
    s[a..SpaceStart(s, a, |s|)]
  }

  lemma {:induction false} SpaceEndSpec(s: string, i: nat)
    requires i <= |s|
    ensures forall k :: i <= k < SpaceEnd(s, i) ==> IsSpace(s[k])
    ensures SpaceEnd(s, i) < |s| ==> !IsSpace(s[SpaceEnd(s, i)])
    decreases |s| - i
  {
    if i < |s| && IsSpace(s[i]) {
      SpaceEndSpec(s, i + 1);
    }
  }

  lemma {:induction false} SpaceStartSpec(s: string, lo: nat, j: nat)
    requires lo <= j <= |s|
    ensures forall k :: SpaceStart(s, lo, j) <= k < j ==> IsSpace(s[k])
    ensures SpaceStart(s, lo, j) > lo ==> !IsSpace(s[SpaceStart(s, lo, j) - 1])
    decreases j
  {
    if j > lo && IsSpace(s[j - 1]) {
      SpaceStartSpec(s, lo, j - 1);
    }
  }

  /** `str.strip()` drops whitespace only, and exactly all of it at both
      ends: the result is a slice of the text, with only whitespace around
      it, and it neither starts nor ends with whitespace. */
  lemma {:induction false} StripSpec(s: string)
    ensures exists a, b :: (0 <= a <= b <= |s| && Strip(s) == s[a..b] &&
      (forall k :: 0 <= k < a ==> IsSpace(s[k])) && (forall k :: b <= k < |s| ==> IsSpace(s[k])))
    ensures Strip(s) != [] ==> !IsSpace(Strip(s)[0]) && !IsSpace(Strip(s)[|Strip(s)| - 1])
  {
    var a := SpaceEnd(s, 0);
    var b := SpaceStart(s, a, |s|);
    SpaceEndSpec(s, 0);
    SpaceStartSpec(s, a, |s|);
    assert Strip(s) == s[a..b];
    StripEnds(s);
    assert forall k :: b <= k < |s| ==> IsSpace(s[k]);
  }

  /** A non-empty stripped string neither starts nor ends with whitespace. */
  lemma {:induction false} StripEnds(s: string)
    ensures Strip(s) != [] ==> !IsSpace(Strip(s)[0]) && !IsSpace(Strip(s)[|Strip(s)| - 1])
  {
    var a := SpaceEnd(s, 0);
    var b := SpaceStart(s, a, |s|);
    SpaceEndSpec(s, 0);
    SpaceStartSpec(s, a, |s|);
    if a < b {
      assert Strip(s)[0] == s[a] && Strip(s)[|Strip(s)| - 1] == s[b - 1];
    }
  }

  /** A stripped string is empty exactly when the original held nothing but
      whitespace: this is what `if line.strip()` tests. */
  lemma StripEmptyIffBlank(s: string)
    ensures Strip(s) == [] <==> AllSpace(s)
  {
    var a := SpaceEnd(s, 0);
    SpaceEndSpec(s, 0);
    SpaceStartSpec(s, a, |s|);
  }

  /** The end of the run of characters satisfying `p` that starts at `i`
      (a greedy `p+` or `p*` in a regular expression). */
  function RunEnd(s: string, i: nat, p: char -> bool): (r: nat)
    requires i <= |s|
    ensures i <= r <= |s|
    ensures forall k :: i <= k < r ==> p(s[k])
    ensures r < |s| ==> !p(s[r])
    decreases |s| - i
  {
    if i < |s| && p(s[i]) then RunEnd(s, i + 1, p) else i
  }

  predicate StartsWith(s: string, w: string) {
    |w| <= |s| && s[..|w|] == w
  }

  /** Python's `w in s` on strings: `w` occurs somewhere in `s`. */
  predicate Contains(s: string, w: string)
    decreases |s|
  {
    StartsWith(s, w) || (s != [] && Contains(s[1..], w))
  }

  /** `Contains` holds exactly when `w` occurs at some position. */
  lemma {:induction false} ContainsAt(s: string, w: string, i: nat)
    requires i + |w| <= |s| && s[i..i + |w|] == w
    ensures Contains(s, w)
    decreases i
  {
    if i > 0 {
      assert s[1..][i - 1..i - 1 + |w|] == s[i..i + |w|];
      ContainsAt(s[1..], w, i - 1);
    }
  }

  /** `str.split('\n')`: the pieces between line feeds, at least one. */
  function SplitLines(s: string): (r: seq<string>)
    ensures |r| >= 1
    decreases |s|
  {
    if s == [] then [""]
    else
      var rest := SplitLines(s[1..]);
      if s[0] == '\n' then [""] + rest
      else [[s[0]] + rest[0]] + rest[1..]
  }

  /** No piece of a split holds a line feed. */
  lemma {:induction false} SplitLinesNoNewline(s: string)
    ensures forall k :: 0 <= k < |SplitLines(s)| ==> '\n' !in SplitLines(s)[k]
    decreases |s|
  {
    if s != [] {
      SplitLinesNoNewline(s[1..]);
      var rest := SplitLines(s[1..]);
      if s[0] != '\n' {
        var first := [s[0]] + rest[0];
        assert '\n' !in first by {
          forall k | 0 <= k < |first| ensures first[k] != '\n' {
            if k > 0 { assert first[k] == rest[0][k - 1]; }
          }
        }
        assert SplitLines(s) == [first] + rest[1..];
      } else {
        assert SplitLines(s) == [""] + rest;
      }
    }
  }

  /** `'\n'.join(pieces)`. */
  function JoinLines(pieces: seq<string>): string
    requires |pieces| >= 1
    decreases |pieces|
  {
    if |pieces| == 1 then pieces[0] else pieces[0] + "\n" + JoinLines(pieces[1..])
  }

  /** Putting a character in front of the first piece puts it in front of
      the joined text. */
  lemma {:induction false} JoinConsFirst(c: char, pieces: seq<string>)
    requires |pieces| >= 1
    ensures JoinLines([[c] + pieces[0]] + pieces[1..]) == [c] + JoinLines(pieces)
  {
    var r := [[c] + pieces[0]] + pieces[1..];
    if |pieces| == 1 {
      assert r == [[c] + pieces[0]];
    } else {
      var tail := JoinLines(pieces[1..]);
      assert JoinLines(r) == [c] + pieces[0] + "\n" + tail by {
        assert r[0] == [c] + pieces[0] && r[1..] == pieces[1..];
      }
      assert JoinLines(pieces) == pieces[0] + "\n" + tail;
      assert [c] + pieces[0] + "\n" + tail == [c] + (pieces[0] + "\n" + tail);
    }
  }

  /** An empty first piece contributes only its line feed. */
  lemma {:induction false} JoinConsEmpty(pieces: seq<string>)
    requires |pieces| >= 1
    ensures JoinLines([""] + pieces) == "\n" + JoinLines(pieces)
  {
    assert ([""] + pieces)[1..] == pieces;
    assert "" + "\n" + JoinLines(pieces) == "\n" + JoinLines(pieces);
  }

  /** Splitting loses nothing: joining the pieces gives the text back. */
  lemma {:induction false} SplitThenJoin(s: string)
    ensures JoinLines(SplitLines(s)) == s
    decreases |s|
  {
    if s != [] {
      SplitThenJoin(s[1..]);
      var rest := SplitLines(s[1..]);
      assert s == [s[0]] + s[1..];
      if s[0] == '\n' {
        assert SplitLines(s) == [""] + rest;
        JoinConsEmpty(rest);
      } else {
        assert SplitLines(s) == [[s[0]] + rest[0]] + rest[1..];
        JoinConsFirst(s[0], rest);
      }
    }
  }

  /** Splitting a newline-free prefix onto the first piece. */
  lemma {:induction false} SplitPrefix(x: string, s: string)
    requires '\n' !in x
    ensures SplitLines(x + s) == [x + SplitLines(s)[0]] + SplitLines(s)[1..]
    decreases |x|
  {
    if x != [] {
      assert (x + s)[1..] == x[1..] + s;
      assert '\n' !in x[1..] by {
        forall k | 0 <= k < |x[1..]| ensures x[1..][k] != '\n' { assert x[1..][k] == x[k + 1]; }
      }
      SplitPrefix(x[1..], s);
      assert x[0] != '\n' by { assert x[0] in x; }
      assert [x[0]] + (x[1..] + SplitLines(s)[0]) == x + SplitLines(s)[0];
    } else {
      assert x + s == s;
      assert x + SplitLines(s)[0] == SplitLines(s)[0];
      assert SplitLines(s) == [SplitLines(s)[0]] + SplitLines(s)[1..];
    }
  }

  /** Joining newline-free pieces and splitting again gives the pieces back. */
  lemma {:induction false} JoinThenSplit(pieces: seq<string>)
    requires |pieces| >= 1
    requires forall k :: 0 <= k < |pieces| ==> '\n' !in pieces[k]
    ensures SplitLines(JoinLines(pieces)) == pieces
    decreases |pieces|
  {
    if |pieces| == 1 {
      SplitPrefix(pieces[0], "");
      assert pieces[0] + "" == pieces[0];
    } else {
      var j := JoinLines(pieces[1..]);
      JoinThenSplit(pieces[1..]);
      assert "\n" + j == ['\n'] + j;
      assert SplitLines("\n" + j) == [""] + pieces[1..];
      assert pieces[0] + "\n" + j == pieces[0] + ("\n" + j);
      SplitPrefix(pieces[0], "\n" + j);
      assert pieces[0] + "" == pieces[0];
      assert ([""] + pieces[1..])[1..] == pieces[1..];
    }
  }

  /** `[p.strip() for p in pieces if p.strip()]`. */
  function NonBlank(pieces: seq<string>): (r: seq<string>)
    ensures |r| <= |pieces|
    decreases |pieces|
  {
    if pieces == [] then []
    else
      var t := Strip(pieces[0]);
      (if t != [] then [t] else []) + NonBlank(pieces[1..])
  }

  /** Every kept piece is non-empty and the strip of one of the pieces. */
  lemma {:induction false} NonBlankSpec(pieces: seq<string>)
    ensures forall k :: 0 <= k < |NonBlank(pieces)| ==>
      NonBlank(pieces)[k] != [] && NonBlank(pieces)[k] in Strips(pieces)
    decreases |pieces|
  {
    if pieces != [] {
      var rest := NonBlank(pieces[1..]);
      NonBlankSpec(pieces[1..]);
      StripsCons(pieces);
      var t := Strip(pieces[0]);
      if t != [] {
        var r := NonBlank(pieces);
        assert r == [t] + rest;
        forall k | 0 <= k < |r| ensures r[k] != [] && r[k] in Strips(pieces) {
          if k > 0 { assert r[k] == rest[k - 1]; }
        }
      } else {
        assert NonBlank(pieces) == rest;
      }
    }
  }

  /** No piece with text in it is dropped: its strip is kept. */
  lemma {:induction false} NonBlankKeeps(pieces: seq<string>)
    ensures forall k :: 0 <= k < |pieces| && Strip(pieces[k]) != [] ==> Strip(pieces[k]) in NonBlank(pieces)
    decreases |pieces|
  {
    if pieces != [] {
      var rest := NonBlank(pieces[1..]);
      NonBlankKeeps(pieces[1..]);
      var t := Strip(pieces[0]);
      assert NonBlank(pieces) == (if t != [] then [t] else []) + rest;
      forall k | 0 <= k < |pieces| && Strip(pieces[k]) != [] ensures Strip(pieces[k]) in NonBlank(pieces) {
        if k > 0 { assert pieces[k] == pieces[1..][k - 1]; }
      }
    }
  }

  /** Every kept piece is non-empty and neither starts nor ends with
      whitespace. */
  lemma {:induction false} NonBlankStripped(pieces: seq<string>)
    ensures forall k :: 0 <= k < |NonBlank(pieces)| ==> (NonBlank(pieces)[k] != [] &&
      !IsSpace(NonBlank(pieces)[k][0]) && !IsSpace(NonBlank(pieces)[k][|NonBlank(pieces)[k]| - 1]))
    decreases |pieces|
  {
    if pieces != [] {
      var rest := NonBlank(pieces[1..]);
      NonBlankStripped(pieces[1..]);
      var t := Strip(pieces[0]);
      if t != [] {
        StripEnds(pieces[0]);
        var r := NonBlank(pieces);
        assert r == [t] + rest;
        forall k | 0 <= k < |r| ensures r[k] != [] && !IsSpace(r[k][0]) && !IsSpace(r[k][|r[k]| - 1]) {
          if k > 0 { assert r[k] == rest[k - 1]; }
        }
      } else {
        assert NonBlank(pieces) == rest;
      }
    }
  }

  /** The strips of a non-empty list: the first one's and the rest's. */
  lemma {:induction false} StripsCons(pieces: seq<string>)
    requires pieces != []
    ensures Strips(pieces) == {Strip(pieces[0])} + Strips(pieces[1..])
  {
    var rest := pieces[1..];
    forall x | x in Strips(pieces) ensures x in {Strip(pieces[0])} + Strips(rest) {
      var k :| 0 <= k < |pieces| && x == Strip(pieces[k]);
      if k > 0 { assert pieces[k] == rest[k - 1]; }
    }
    forall x | x in Strips(rest) ensures x in Strips(pieces) {
      var k :| 0 <= k < |rest| && x == Strip(rest[k]);
      assert rest[k] == pieces[k + 1];
    }
  }

  /** The stripped forms of the pieces. */
  function Strips(pieces: seq<string>): set<string> {
    set k | 0 <= k < |pieces| :: Strip(pieces[k])
  }

  /** The meaningful lines of a card's text:
      `[line.strip() for line in text.split('\n') if line.strip()]`. */
  function Lines(text: string): seq<string> {
    NonBlank(SplitLines(text))
  }
}
