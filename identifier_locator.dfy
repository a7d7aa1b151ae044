/** Finding every occurrence of an identifier in a file's text
    (`IdentifierLocator.find_all` of `data/ground_truth/create_ground_truth_dataset.py`):
    the text is split into lines, each line is scanned left to right, and
    each occurrence found is recorded with 1-indexed line and columns; the
    scan resumes after the end of the occurrence it found. */
module IdentifierLocator {

  import opened Collections

  /** The characters at which `str.splitlines` breaks a line
      (a carriage return followed by a line feed counts as one break). */
  predicate IsLineBreak(c: char) {
    || c == '\n' || c == '\r' || c == '\U{B}' || c == '\U{C}'
    || c == '\U{1C}' || c == '\U{1D}' || c == '\U{1E}' || c == '\U{85}'
    || c == '\U{2028}' || c == '\U{2029}'
  }

  /** The characters of `s` that are not line breaks. */
  function WithoutBreaks(s: string): string {
    if s == [] then [] else (if IsLineBreak(s[0]) then [] else [s[0]]) + WithoutBreaks(s[1..])
  }

  /** The index of the first line break at or after `i`, or `|s|` if there is none. */
  function BreakAt(s: string, i: nat): (b: nat)
    requires i <= |s|
    ensures i <= b <= |s|
    ensures forall k :: i <= k < b ==> !IsLineBreak(s[k])
    ensures b < |s| ==> IsLineBreak(s[b])
    decreases |s| - i
  {
    if i == |s| || IsLineBreak(s[i]) then i else BreakAt(s, i + 1)
  }

  /** How many characters the break at `b` takes: two for "\r\n", otherwise one. */
  function BreakLength(s: string, b: nat): nat
    requires b < |s|
  {
    if s[b] == '\r' && b + 1 < |s| && s[b + 1] == '\n' then 2 else 1
  }

  /** `s.splitlines()`: the text between line breaks; a break at the very end
      of the text does not open a further, empty line. */
  function SplitLines(s: string): (lines: seq<string>)
    ensures s == [] <==> lines == []
    ensures forall i, k :: 0 <= i < |lines| && 0 <= k < |lines[i]| ==> !IsLineBreak(lines[i][k])
    decreases |s|
  {
    if s == [] then []
    else
      var b := BreakAt(s, 0);
      if b == |s| then [s]
      else [s[..b]] + SplitLines(s[b + BreakLength(s, b)..])
  }

  lemma {:induction false} WithoutBreaksAppend(a: string, b: string)
    ensures WithoutBreaks(a + b) == WithoutBreaks(a) + WithoutBreaks(b)
  {
    if a == [] {
      assert a + b == b;
    } else {
      assert (a + b)[1..] == a[1..] + b;
      WithoutBreaksAppend(a[1..], b);
    }
  }

  lemma {:induction false} WithoutBreaksOfLine(s: string)
    requires forall k :: 0 <= k < |s| ==> !IsLineBreak(s[k])
    ensures WithoutBreaks(s) == s
  {
    if s != [] {
      WithoutBreaksOfLine(s[1..]);
    }
  }

  lemma {:induction false} WithoutBreaksOfBreaks(s: string)
    requires forall k :: 0 <= k < |s| ==> IsLineBreak(s[k])
    ensures WithoutBreaks(s) == []
  {
    if s != [] {
      WithoutBreaksOfBreaks(s[1..]);
    }
  }

  /** Removing the breaks from a line, then its break, then the rest. */
  lemma BreakDropped(s: string, b: nat, n: nat)
    requires b < |s| && n == BreakLength(s, b)
    requires forall k :: 0 <= k < b ==> !IsLineBreak(s[k])
    requires IsLineBreak(s[b])
    ensures WithoutBreaks(s) == s[..b] + WithoutBreaks(s[b + n..])
  {
    assert s == s[..b] + s[b..];
    WithoutBreaksAppend(s[..b], s[b..]);
    WithoutBreaksOfLine(s[..b]);
    DropLeadingBreak(s[b..]);
    assert s[b..][1..] == s[b + 1..];
    if n == 2 {
      DropLeadingBreak(s[b + 1..]);
      assert s[b + 1..][1..] == s[b + 2..];
    }
  }

  lemma DropLeadingBreak(t: string)
    requires |t| > 0 && IsLineBreak(t[0])
    ensures WithoutBreaks(t) == WithoutBreaks(t[1..])
  {
  }

  /** Splitting loses nothing but the line breaks: the lines, joined back
      together, are the text with its breaks removed. */
  lemma {:induction false} SplitLinesKeepsText(s: string)
    ensures Concat(SplitLines(s)) == WithoutBreaks(s)
    decreases |s|
  {
    if s != [] {
      var b := BreakAt(s, 0);
      WithoutBreaksOfLine(s[..b]);
      if b == |s| {
        assert s[..b] == s;
        assert Concat([s]) == s + Concat([]);
      } else {
        var n := BreakLength(s, b);
        var rest := s[b + n..];
        SplitLinesKeepsText(rest);
        BreakDropped(s, b, n);
        assert ([s[..b]] + SplitLines(rest))[1..] == SplitLines(rest);
      }
    }
  }

  /** One line break as `str.splitlines` reads it: a single break character, or "\r\n". */
  predicate IsBreak(t: string) {
    (|t| == 1 && IsLineBreak(t[0])) || t == "\r\n"
  }

  /** What ends each line: a break, or nothing for a last line the text does not end with a break. */
  predicate ValidEnds(ends: seq<string>) {
    forall k :: 0 <= k < |ends| ==> IsBreak(ends[k]) || (k == |ends| - 1 && ends[k] == [])
  }

  /** Each line followed by what ends it. */
  function Joined(lines: seq<string>, ends: seq<string>): string
    requires |ends| == |lines|
  {
    if lines == [] then [] else lines[0] + ends[0] + Joined(lines[1..], ends[1..])
  }

  /** The breaks `SplitLines` consumes, one per line; the last is empty when the text
      does not end with a break. */
  function LineEnds(s: string): (ends: seq<string>)
    ensures |ends| == |SplitLines(s)|
    decreases |s|
  {
    if s == [] then []
    else
      var b := BreakAt(s, 0);
      if b == |s| then [[]]
      else [s[b..b + BreakLength(s, b)]] + LineEnds(s[b + BreakLength(s, b)..])
  }

  /** Every line ends with exactly one break (a single break character or "\r\n"),
      except that the last line may end with none. */
  lemma {:induction false} LineEndsAreBreaks(s: string)
    ensures ValidEnds(LineEnds(s))
    decreases |s|
  {
    if s != [] {
      var b := BreakAt(s, 0);
      if b < |s| {
        var n := BreakLength(s, b);
        LineEndsAreBreaks(s[b + n..]);
        BreakIsBreak(s, b);
        LineEndsUnfold(s, b, n);
        ValidEndsCons(s[b..b + n], LineEnds(s[b + n..]));
      }
    }
  }

  /** Splitting is undone by joining: each line followed by the break that ended it
      gives back the text. */
  lemma {:induction false} SplitLinesRoundTrip(s: string)
    ensures ValidEnds(LineEnds(s))
    ensures Joined(SplitLines(s), LineEnds(s)) == s
    decreases |s|
  {
    LineEndsAreBreaks(s);
    JoinedSplit(s);
  }

  lemma {:induction false} JoinedSplit(s: string)
    ensures Joined(SplitLines(s), LineEnds(s)) == s
    decreases |s|
  {
    if s != [] {
      var b := BreakAt(s, 0);
      if b == |s| {
        JoinedLastLine(s);
      } else {
        var n := BreakLength(s, b);
        JoinedSplit(s[b + n..]);
        JoinedStep(s, b, n);
      }
    }
  }

  lemma JoinedLastLine(s: string)
    requires s != [] && BreakAt(s, 0) == |s|
    ensures Joined(SplitLines(s), LineEnds(s)) == s
  {
    assert SplitLines(s) == [s] && LineEnds(s) == [[]];
    assert Joined([s], [[]]) == s + [] + Joined([], []);
  }

  lemma JoinedStep(s: string, b: nat, n: nat)
    requires s != [] && b == BreakAt(s, 0) && b < |s| && n == BreakLength(s, b)
    requires Joined(SplitLines(s[b + n..]), LineEnds(s[b + n..])) == s[b + n..]
    ensures Joined(SplitLines(s), LineEnds(s)) == s
  {
    var rest := s[b + n..];
    calc {
      Joined(SplitLines(s), LineEnds(s));
      { SplitLinesUnfold(s, b, n); LineEndsUnfold(s, b, n); }
      Joined([s[..b]] + SplitLines(rest), [s[b..b + n]] + LineEnds(rest));
      { JoinedCons(s[..b], s[b..b + n], SplitLines(rest), LineEnds(rest)); }
      s[..b] + s[b..b + n] + rest;
      { SliceThree(s, b, b + n); }
      s;
    }
  }

  lemma SliceThree(s: string, i: nat, j: nat)
    requires i <= j <= |s|
    ensures s[..i] + s[i..j] + s[j..] == s
  {
    assert s[..i] + s[i..j] == s[..j];
  }

  lemma SplitLinesUnfold(s: string, b: nat, n: nat)
    requires s != [] && b == BreakAt(s, 0) && b < |s| && n == BreakLength(s, b)
    ensures SplitLines(s) == [s[..b]] + SplitLines(s[b + n..])
  {
  }

  lemma LineEndsUnfold(s: string, b: nat, n: nat)
    requires s != [] && b == BreakAt(s, 0) && b < |s| && n == BreakLength(s, b)
    ensures LineEnds(s) == [s[b..b + n]] + LineEnds(s[b + n..])
  {
  }

  /** The characters a break takes form one break. */
  lemma BreakIsBreak(s: string, b: nat)
    requires b < |s| && IsLineBreak(s[b])
    ensures IsBreak(s[b..b + BreakLength(s, b)])
  {
    if BreakLength(s, b) == 2 {
      assert s[b..b + 2] == "\r\n";
    } else {
      assert s[b..b + 1] == [s[b]];
    }
  }

  lemma ValidEndsCons(e: string, ends: seq<string>)
    requires IsBreak(e) && ValidEnds(ends)
    ensures ValidEnds([e] + ends)
  {
    assert forall k :: 1 <= k < |ends| + 1 ==> ([e] + ends)[k] == ends[k - 1];
  }

  lemma JoinedCons(l: string, e: string, lines: seq<string>, ends: seq<string>)
    requires |ends| == |lines|
    ensures Joined([l] + lines, [e] + ends) == l + e + Joined(lines, ends)
  {
    assert ([l] + lines)[1..] == lines && ([e] + ends)[1..] == ends;
  }

  /** A "\r" that ends a line is never directly followed by "\n": the two
      together would have been one break. */
  predicate CrLfKeptWhole(lines: seq<string>, ends: seq<string>)
    requires |ends| == |lines|
  {
    forall k :: 0 <= k < |ends| - 1 && ends[k] == "\r" && lines[k + 1] == [] ==>
      !(|ends[k + 1]| > 0 && ends[k + 1][0] == '\n')
  }

  /** A last line that ends with nothing is not empty: a break at the very end
      of the text opens no further line. */
  predicate NoEmptyLastLine(lines: seq<string>, ends: seq<string>)
    requires |ends| == |lines|
  {
    lines != [] && ends[|ends| - 1] == [] ==> lines[|lines| - 1] != []
  }

  /** `lines`, each ended by the matching element of `ends`, read `s` as
      `str.splitlines` reads it. */
  predicate SplitsAs(s: string, lines: seq<string>, ends: seq<string>) {
    && |ends| == |lines|
    && (forall i, k :: 0 <= i < |lines| && 0 <= k < |lines[i]| ==> !IsLineBreak(lines[i][k]))
    && ValidEnds(ends)
    && Joined(lines, ends) == s
    && CrLfKeptWhole(lines, ends)
    && NoEmptyLastLine(lines, ends)
  }

  /** `SplitLines` and `LineEnds` are the one reading of the text that
      `str.splitlines` makes: any lines and ends that read it so are these. */
  lemma SplitLinesCharacterised(s: string, lines: seq<string>, ends: seq<string>)
    ensures SplitsAs(s, lines, ends) <==> lines == SplitLines(s) && ends == LineEnds(s)
  {
    SplitLinesSplitsAs(s);
    if SplitsAs(s, lines, ends) {
      SplitsAsUnique(s, lines, ends);
    }
  }

  /** "\r\n" is one break. */
  lemma SplitLinesCrLfExample()
    ensures SplitLines("a\r\nb") == ["a", "b"] && LineEnds("a\r\nb") == ["\r\n", ""]
  {
    var s := "a\r\nb";
    assert !IsLineBreak(s[0]) && IsLineBreak(s[1]);
    assert BreakAt(s, 1) == 1;
    assert BreakAt(s, 0) == 1;
    SplitLinesUnfold(s, 1, 2);
    LineEndsUnfold(s, 1, 2);
    assert s[..1] == "a" && s[1..3] == "\r\n" && s[3..] == "b";
    LastLineOf("b");
  }

  /** A break at the end of the text opens no further line. */
  lemma SplitLinesTrailingBreakExample()
    ensures SplitLines("a\n") == ["a"] && LineEnds("a\n") == ["\n"]
  {
    var u := "a\n";
    assert !IsLineBreak(u[0]) && IsLineBreak(u[1]);
    assert BreakAt(u, 1) == 1;
    assert BreakAt(u, 0) == 1;
    SplitLinesUnfold(u, 1, 1);
    LineEndsUnfold(u, 1, 1);
    assert u[2..] == [] && u[..1] == "a" && u[1..2] == "\n";
  }

  /** Text without a break is one line that ends with nothing. */
  lemma LastLineOf(s: string)
    requires s != [] && forall k :: 0 <= k < |s| ==> !IsLineBreak(s[k])
    ensures SplitLines(s) == [s] && LineEnds(s) == [[]]
  {
    assert BreakAt(s, 0) == |s|;
  }

  /** `SplitLines` reads the text as `str.splitlines` does. */
  lemma SplitLinesSplitsAs(s: string)
    ensures SplitsAs(s, SplitLines(s), LineEnds(s))
  {
    SplitLinesRoundTrip(s);
    SplitLinesKeepsCrLf(s);
  }

  lemma {:induction false} SplitLinesKeepsCrLf(s: string)
    ensures CrLfKeptWhole(SplitLines(s), LineEnds(s))
    ensures NoEmptyLastLine(SplitLines(s), LineEnds(s))
    decreases |s|
  {
    if s != [] {
      var b := BreakAt(s, 0);
      if b == |s| {
        assert SplitLines(s) == [s] && LineEnds(s) == [[]];
      } else {
        var n := BreakLength(s, b);
        SplitLinesKeepsCrLf(s[b + n..]);
        KeepsCrLfStep(s, b, n);
      }
    }
  }

  lemma KeepsCrLfStep(s: string, b: nat, n: nat)
    requires s != [] && b == BreakAt(s, 0) && b < |s| && n == BreakLength(s, b)
    requires CrLfKeptWhole(SplitLines(s[b + n..]), LineEnds(s[b + n..]))
    requires NoEmptyLastLine(SplitLines(s[b + n..]), LineEnds(s[b + n..]))
    ensures CrLfKeptWhole(SplitLines(s), LineEnds(s))
    ensures NoEmptyLastLine(SplitLines(s), LineEnds(s))
  {
    var rest := s[b + n..];
    SplitLinesUnfold(s, b, n);
    LineEndsUnfold(s, b, n);
    LoneCrStep(s, b, n);
    CrLfCons(s[..b], s[b..b + n], SplitLines(rest), LineEnds(rest));
    NoEmptyLastLineCons(s[..b], s[b..b + n], SplitLines(rest), LineEnds(rest));
  }

  /** After a lone "\r" the next line's end, when that line is empty, is no "\n". */
  lemma LoneCrStep(s: string, b: nat, n: nat)
    requires b < |s| && n == BreakLength(s, b)
    ensures var rest := s[b + n..];
      s[b..b + n] == "\r" && rest != [] && SplitLines(rest)[0] == [] ==>
        !(|LineEnds(rest)[0]| > 0 && LineEnds(rest)[0][0] == '\n')
  {
    var rest := s[b + n..];
    if s[b..b + n] == "\r" && rest != [] && SplitLines(rest)[0] == [] {
      assert n == 1 && s[b] == '\r';
      FirstEndOfEmptyLine(rest);
      assert rest[0] == s[b + 1];
    }
  }

  /** The first line of non-empty text runs up to its first break. */
  lemma FirstLine(t: string)
    requires t != []
    ensures SplitLines(t)[0] == t[..BreakAt(t, 0)]
  {
    var b := BreakAt(t, 0);
    if b < |t| {
      SplitLinesUnfold(t, b, BreakLength(t, b));
    }
  }

  /** Text whose first line is empty begins with that line's end. */
  lemma FirstEndOfEmptyLine(t: string)
    requires t != [] && SplitLines(t)[0] == []
    ensures |LineEnds(t)[0]| > 0 && LineEnds(t)[0][0] == t[0]
  {
    FirstLine(t);
    var b := BreakAt(t, 0);
    assert b == 0;
    LineEndsUnfold(t, b, BreakLength(t, b));
  }

  lemma CrLfCons(l: string, e: string, lines: seq<string>, ends: seq<string>)
    requires |ends| == |lines| && CrLfKeptWhole(lines, ends)
    requires e == "\r" && lines != [] && lines[0] == [] ==> !(|ends[0]| > 0 && ends[0][0] == '\n')
    ensures CrLfKeptWhole([l] + lines, [e] + ends)
  {
    assert forall k :: 1 <= k < |ends| + 1 ==> ([e] + ends)[k] == ends[k - 1] && ([l] + lines)[k] == lines[k - 1];
  }

  lemma NoEmptyLastLineCons(l: string, e: string, lines: seq<string>, ends: seq<string>)
    requires |ends| == |lines| && NoEmptyLastLine(lines, ends)
    requires lines == [] ==> e != []
    ensures NoEmptyLastLine([l] + lines, [e] + ends)
  {
    if lines != [] {
      assert ([l] + lines)[|lines|] == lines[|lines| - 1] && ([e] + ends)[|ends|] == ends[|ends| - 1];
    }
  }

  /** The lines after the first read the text after the first line's end. */
  lemma SplitsAsTail(s: string, lines: seq<string>, ends: seq<string>)
    requires SplitsAs(s, lines, ends) && lines != []
    ensures SplitsAs(Joined(lines[1..], ends[1..]), lines[1..], ends[1..])
    ensures s == lines[0] + ends[0] + Joined(lines[1..], ends[1..])
  {
    assert forall k :: 0 <= k < |ends| - 1 ==> ends[1..][k] == ends[k + 1] && lines[1..][k] == lines[k + 1];
  }

  /** Read so, text starts with a break only when its first line is empty and
      that line's end starts with the break. */
  lemma SplitsAsStart(t: string, lines: seq<string>, ends: seq<string>)
    requires SplitsAs(t, lines, ends) && t != []
    ensures lines != []
    ensures IsLineBreak(t[0]) ==> lines[0] == [] && |ends[0]| > 0 && t[0] == ends[0][0]
  {
    SplitsAsTail(t, lines, ends);
    if lines[0] == [] {
      assert ends[0] != [];
    }
  }

  /** Read so, the first line ends where the text's first break begins, and
      that break is as long as the first end. */
  lemma FirstLineOf(s: string, lines: seq<string>, ends: seq<string>)
    requires SplitsAs(s, lines, ends) && lines != [] && ends[0] != []
    ensures BreakAt(s, 0) == |lines[0]| < |s|
    ensures BreakLength(s, |lines[0]|) == |ends[0]|
  {
    var t := Joined(lines[1..], ends[1..]);
    SplitsAsTail(s, lines, ends);
    var b := |lines[0]|;
    assert IsBreak(ends[0]);
    assert s[b] == ends[0][0];
    assert forall k :: 0 <= k < b ==> s[k] == lines[0][k];
    if ends[0] == "\r" && b + 1 < |s| {
      assert s[b + 1] == t[0];
      SplitsAsStart(t, lines[1..], ends[1..]);
    }
  }

  /** The reading of the text is unique. */
  lemma {:induction false} SplitsAsUnique(s: string, lines: seq<string>, ends: seq<string>)
    requires SplitsAs(s, lines, ends)
    ensures lines == SplitLines(s) && ends == LineEnds(s)
    decreases |s|
  {
    if lines != [] {
      SplitsAsTail(s, lines, ends);
      if ends[0] == [] {
        OnlyLineUnique(s, lines, ends);
      } else {
        var t := Joined(lines[1..], ends[1..]);
        SplitsAsUnique(t, lines[1..], ends[1..]);
        UniqueStep(s, lines, ends);
      }
    }
  }

  lemma OnlyLineUnique(s: string, lines: seq<string>, ends: seq<string>)
    requires SplitsAs(s, lines, ends) && lines != [] && ends[0] == []
    ensures lines == SplitLines(s) && ends == LineEnds(s)
  {
    SplitsAsTail(s, lines, ends);
    assert |lines| == 1 && s == lines[0] + ends[0] + [];
    assert s == lines[0] && s != [];
    assert BreakAt(s, 0) == |s|;
    assert SplitLines(s) == [s] && LineEnds(s) == [[]];
    assert lines == [lines[0]] && ends == [ends[0]];
  }

  lemma UniqueStep(s: string, lines: seq<string>, ends: seq<string>)
    requires SplitsAs(s, lines, ends) && lines != [] && ends[0] != []
    requires var t := Joined(lines[1..], ends[1..]); lines[1..] == SplitLines(t) && ends[1..] == LineEnds(t)
    ensures lines == SplitLines(s) && ends == LineEnds(s)
  {
    var t := Joined(lines[1..], ends[1..]);
    SplitsAsTail(s, lines, ends);
    FirstLineOf(s, lines, ends);
    var b := |lines[0]|;
    var n := |ends[0]|;
    SplitLinesUnfold(s, b, n);
    LineEndsUnfold(s, b, n);
    SliceParts(s, lines[0], ends[0], t);
    assert lines == [lines[0]] + lines[1..] && ends == [ends[0]] + ends[1..];
  }

  lemma SliceParts(s: string, l: string, e: string, t: string)
    requires s == l + e + t
    ensures s[..|l|] == l && s[|l|..|l| + |e|] == e && s[|l| + |e|..] == t
  {
  }

  /** `identifier` occurs in `line` at zero-based offset `p`. */
  predicate OccursAt(line: string, identifier: string, p: int) {
    0 <= p && p + |identifier| <= |line| && line[p..p + |identifier|] == identifier
  }

  /** `line.find(identifier, start)`: the first offset at or after `start`
      where `identifier` occurs, or -1. */
  function Find(line: string, identifier: string, start: nat): (r: int)
    ensures r == -1 || (start <= r <= |line| && OccursAt(line, identifier, r))
    ensures r == -1 ==> forall p :: start <= p ==> !OccursAt(line, identifier, p)
    ensures r != -1 ==> forall p :: start <= p < r ==> !OccursAt(line, identifier, p)
    decreases |line| - start
  {
    if start > |line| then -1
    else if OccursAt(line, identifier, start) then start
    else Find(line, identifier, start + 1)
  }

  /** One found instance: its 1-based number, 1-based line and 1-based inclusive columns. */
  datatype Location = Location(instanceId: nat, line: nat, startColumn: nat, endColumn: nat)

  /** `a` comes before `b` and does not overlap it. */
  predicate Precedes(a: Location, b: Location) {
    a.line < b.line || (a.line == b.line && a.endColumn < b.startColumn)
  }

  /** `loc` records an occurrence of `identifier` on its line of `lines`. */
  predicate Records(lines: seq<string>, identifier: string, loc: Location) {
    && 1 <= loc.line <= |lines|
    && 1 <= loc.startColumn
    && loc.endColumn == loc.startColumn + |identifier| - 1
    && OccursAt(lines[loc.line - 1], identifier, loc.startColumn - 1)
  }

  /** The recorded occurrence `loc` covers zero-based offset `p` of zero-based line `l`. */
  predicate Covers(loc: Location, l: nat, p: nat) {
    loc.line == l + 1 && loc.startColumn <= p + 1 <= loc.endColumn
  }

  /** Some recorded occurrence in `locs` covers offset `p` of zero-based line `l`. */
  predicate Covered(locs: seq<Location>, l: nat, p: nat) {
    exists k :: 0 <= k < |locs| && Covers(locs[k], l, p)
  }

  lemma CoveredAppend(locs: seq<Location>, found: Location, l: nat, p: nat)
    requires Covered(locs, l, p)
    ensures Covered(locs + [found], l, p)
  {
    var k :| 0 <= k < |locs| && Covers(locs[k], l, p);
    assert (locs + [found])[k] == locs[k];
  }

  /** The results so far number, record and order their occurrences, and
      cover every occurrence in the lines before line `i`. */
  ghost predicate LinesScanned(lines: seq<string>, identifier: string, locs: seq<Location>, i: nat) {
    && i <= |lines|
    && (forall k :: 0 <= k < |locs| ==> locs[k].instanceId == k + 1)
    && (forall k :: 0 <= k < |locs| ==> Records(lines, identifier, locs[k]) && locs[k].line <= i)
    && (forall j, k :: 0 <= j < k < |locs| ==> Precedes(locs[j], locs[k]))
    && (forall l, p :: 0 <= l < i && OccursAt(lines[l], identifier, p) ==> Covered(locs, l, p))
  }

  /** Part-way through line `i`: as above, and in addition the results on line
      `i` end before `start` and cover every occurrence that begins before it. */
  ghost predicate LineScannedUpTo(lines: seq<string>, identifier: string, locs: seq<Location>, i: nat, start: nat) {
    && i < |lines|
    && start <= |lines[i]|
    && (forall k :: 0 <= k < |locs| ==> locs[k].instanceId == k + 1)
    && (forall k :: 0 <= k < |locs| ==> Records(lines, identifier, locs[k]) && locs[k].line <= i + 1)
    && (forall k :: 0 <= k < |locs| && locs[k].line == i + 1 ==> locs[k].endColumn <= start)
    && (forall j, k :: 0 <= j < k < |locs| ==> Precedes(locs[j], locs[k]))
    && (forall l, p :: 0 <= l < i && OccursAt(lines[l], identifier, p) ==> Covered(locs, l, p))
    && (forall p :: 0 <= p < start && OccursAt(lines[i], identifier, p) ==> Covered(locs, i, p))
  }

  lemma StartLine(lines: seq<string>, identifier: string, locs: seq<Location>, i: nat)
    requires LinesScanned(lines, identifier, locs, i) && i < |lines|
    ensures LineScannedUpTo(lines, identifier, locs, i, 0)
  {
  }

  lemma FinishLine(lines: seq<string>, identifier: string, locs: seq<Location>, i: nat, start: nat)
    requires LineScannedUpTo(lines, identifier, locs, i, start)
    requires Find(lines[i], identifier, start) == -1
    ensures LinesScanned(lines, identifier, locs, i + 1)
  {
    forall l, p | 0 <= l < i + 1 && OccursAt(lines[l], identifier, p)
      ensures Covered(locs, l, p)
    {
      if l == i {
        assert p < start;
      }
    }
  }

  /** Recording the next occurrence, found at `j`, moves the scan past it. */
  lemma RecordNext(lines: seq<string>, identifier: string, locs: seq<Location>, i: nat, start: nat, j: nat, found: Location)
    requires identifier != []
    requires LineScannedUpTo(lines, identifier, locs, i, start)
    requires Find(lines[i], identifier, start) == j
    requires found == Location(|locs| + 1, i + 1, j + 1, j + |identifier|)
    ensures LineScannedUpTo(lines, identifier, locs + [found], i, j + |identifier|)
  {
    var n := |identifier|;
    var after := locs + [found];
    assert Records(lines, identifier, found);
    assert after[|locs|] == found;
    forall k | 0 <= k < |locs|
      ensures after[k] == locs[k] && Precedes(locs[k], found)
    {
    }
    forall j', k | 0 <= j' < k < |after|
      ensures Precedes(after[j'], after[k])
    {
      if k == |locs| {
        assert Precedes(locs[j'], found);
      } else {
        assert Precedes(locs[j'], locs[k]);
      }
    }
    forall l, p | Covered(locs, l, p)
      ensures Covered(after, l, p)
    {
      CoveredAppend(locs, found, l, p);
    }
    forall p | start <= p < j + n && OccursAt(lines[i], identifier, p)
      ensures Covered(after, i, p)
    {
      assert p >= j;
      assert Covers(after[|locs|], i, p);
    }
  }

  /** What `find_all` promises of its result: nothing for empty text or an
      empty identifier; otherwise every result records an occurrence, results
      are numbered 1, 2, ... in order, are ordered by line and column without
      overlapping, and every occurrence in the text is one of them or
      overlaps one of them. */
  ghost predicate LocatesAll(content: string, identifier: string, locations: seq<Location>) {
    var lines := SplitLines(content);
    && (content == [] || identifier == [] ==> locations == [])
    && (forall k :: 0 <= k < |locations| ==> locations[k].instanceId == k + 1)
    && (forall k :: 0 <= k < |locations| ==> Records(lines, identifier, locations[k]))
    && (forall j, k :: 0 <= j < k < |locations| ==> Precedes(locations[j], locations[k]))
    && (identifier != [] ==>
          forall l, p :: 0 <= l < |lines| && OccursAt(lines[l], identifier, p) ==> Covered(locations, l, p))
  }

  /** `find_all` */
  method FindAll(content: string, identifier: string) returns (locations: seq<Location>)
    ensures LocatesAll(content, identifier, locations)
  {
    locations := [];
    if content == [] || identifier == [] {
      return;
    }
    var lines := SplitLines(content);
    var i := 0;
    while i < |lines|
      invariant LinesScanned(lines, identifier, locations, i)
    {
      var line := lines[i];
      var startIndex := 0;
      StartLine(lines, identifier, locations, i);
      while true
        invariant LineScannedUpTo(lines, identifier, locations, i, startIndex)
        decreases |line| - startIndex
      {
        var startColumnZeroBased := Find(line, identifier, startIndex);
        if startColumnZeroBased == -1 {
          FinishLine(lines, identifier, locations, i, startIndex);
          break;
        }
        var startColumn := startColumnZeroBased + 1;
        var endColumn := startColumn + |identifier| - 1;
        var found := Location(|locations| + 1, i + 1, startColumn, endColumn);
        RecordNext(lines, identifier, locations, i, startIndex, startColumnZeroBased, found);
        locations := locations + [found];
        startIndex := startColumnZeroBased + |identifier|;
      }
      i := i + 1;
    }
  }
}
