/** Splitting of code identifiers into lowercase word tokens
    (`IdentifierTokenizer.tokenize` of `data/calculate_performance_metrics.py`).

    The source runs a fixed pipeline over the identifier:
      1. every non-word character becomes a space,
      2. every underscore becomes a space,
      3. `([A-Z]+)([A-Z][a-z])`  -> `\1 \2`   (end of an acronym),
      4. `([a-z0-9])([A-Z])`     -> `\1 \2`   (camel-case hump),
      5. `([0-9])([a-zA-Z])`     -> `\1 \2`   then `([a-zA-Z])([0-9])` -> `\1 \2`,
    and finally splits on whitespace and lowercases every piece.
    Characters are treated as ASCII. Every regular-expression pass is
    modelled as the left-to-right, non-overlapping scan that `re.sub`
    performs: at each position the pattern is tried; on a match the
    replacement is emitted and the scan resumes at the end of the match,
    otherwise the character is copied and the scan moves on by one. */
module IdentifierTokenizer {

  import opened Options
  import opened Collections

  predicate IsUpper(c: char) { 'A' <= c <= 'Z' }
  predicate IsLower(c: char) { 'a' <= c <= 'z' }
  predicate IsDigit(c: char) { '0' <= c <= '9' }
  predicate IsLetter(c: char) { IsUpper(c) || IsLower(c) }
  predicate IsAlnum(c: char) { IsLetter(c) || IsDigit(c) }

  /** `\w` on ASCII: letters, digits and the underscore. */
  predicate IsWordChar(c: char) { IsAlnum(c) || c == '_' }

  /** The characters `str.split()` treats as separators, restricted to ASCII. */
  predicate IsWhitespace(c: char) {
    c == ' ' || c == '\t' || c == '\n' || c == '\r' || c == '\U{B}' || c == '\U{C}'
    || c == '\U{1C}' || c == '\U{1D}' || c == '\U{1E}' || c == '\U{1F}'
  }

  function LowerChar(c: char): char {
    if IsUpper(c) then (c as int + 32) as char else c
  }

  function Lower(s: string): string {
    seq(|s|, i requires 0 <= i < |s| => LowerChar(s[i]))
  }

  /** The letters and digits of `s`, in order; every separator dropped. */
  function Alphanumerics(s: string): string {
    if s == [] then [] else (if IsAlnum(s[0]) then [s[0]] else []) + Alphanumerics(s[1..])
  }

  // ---------------------------------------------------------------------
  // Passes 1 and 2: character-by-character rewrites
  // ---------------------------------------------------------------------

  /** `re.sub(r'[^\w]', ' ', s)` */
  function BlankNonWord(s: string): (r: string)
    ensures |r| == |s|
    ensures forall k :: 0 <= k < |s| ==> IsWordChar(r[k]) || r[k] == ' '
    ensures forall k :: 0 <= k < |s| ==> (IsWordChar(s[k]) <==> r[k] == s[k] && r[k] != ' ')
  {
    seq(|s|, i requires 0 <= i < |s| => if IsWordChar(s[i]) then s[i] else ' ')
  }

  /** `s.replace("_", " ")` */
  function BlankUnderscores(s: string): (r: string)
    ensures |r| == |s|
    ensures forall k :: 0 <= k < |s| ==> r[k] != '_'
    ensures forall k :: 0 <= k < |s| && r[k] != s[k] ==> s[k] == '_' && r[k] == ' '
  {
    seq(|s|, i requires 0 <= i < |s| => if s[i] == '_' then ' ' else s[i])
  }

  // ---------------------------------------------------------------------
  // Passes 3 to 5: regular-expression substitutions `(g1)(g2) -> \1 \2`
  // ---------------------------------------------------------------------

  /** The four boundary patterns; each replacement puts one space between its two groups. */
  datatype Boundary = AcronymEnd | CamelHump | DigitThenLetter | LetterThenDigit

  /** Length of the run of upper-case letters that starts at `i`. */
  function UpperRun(s: string, i: nat): (n: nat)
    requires i <= |s|
    ensures i + n <= |s|
    ensures forall k :: i <= k < i + n ==> IsUpper(s[k])
    ensures i + n == |s| || !IsUpper(s[i + n])
    decreases |s| - i
  {
    if i < |s| && IsUpper(s[i]) then 1 + UpperRun(s, i + 1) else 0
  }

  /** A match of pattern `p` starting at `i`: where its second group
      starts and where the match ends.

      For `([A-Z]+)([A-Z][a-z])` the greedy `[A-Z]+` first takes the whole
      upper-case run of length `n` and then gives characters back; the
      only split that can succeed leaves the last letter of the run to
      `[A-Z]`, which must be followed by a lower-case letter, so a match
      at `i` exists exactly when `n >= 2` and the run is followed by a
      lower-case letter. */
  function MatchAt(p: Boundary, s: string, i: nat): (m: Option<(nat, nat)>)
    requires i <= |s|
    ensures m.Some? ==> i < m.value.0 < m.value.1 <= |s|
  {
    match p
    case AcronymEnd =>
      var n := UpperRun(s, i);
      if n >= 2 && i + n < |s| && IsLower(s[i + n]) then Some((i + n - 1, i + n + 1)) else None
    case CamelHump =>
      if i + 1 < |s| && (IsLower(s[i]) || IsDigit(s[i])) && IsUpper(s[i + 1]) then Some((i + 1, i + 2)) else None
    case DigitThenLetter =>
      if i + 1 < |s| && IsDigit(s[i]) && IsLetter(s[i + 1]) then Some((i + 1, i + 2)) else None
    case LetterThenDigit =>
      if i + 1 < |s| && IsLetter(s[i]) && IsDigit(s[i + 1]) then Some((i + 1, i + 2)) else None
  }

  /** `re.sub` of pattern `p` over `s[i..]`. */
  function Substitute(p: Boundary, s: string, i: nat): (r: string)
    requires i <= |s|
    ensures |r| >= |s| - i
    ensures r == [] <==> i == |s|
    decreases |s| - i
  {
    if i == |s| then []
    else match MatchAt(p, s, i)
      case Some((g, e)) => s[i..g] + " " + s[g..e] + Substitute(p, s, e)
      case None => [s[i]] + Substitute(p, s, i + 1)
  }

  function SubstituteAll(p: Boundary, s: string): string {
    Substitute(p, s, 0)
  }

  // ---------------------------------------------------------------------
  // Splitting on whitespace
  // ---------------------------------------------------------------------

  /** `str.split()` continued from a partly read word `word`. */
  function SplitFrom(s: string, word: string): seq<string>
    decreases |s|
  {
    if s == [] then (if word == [] then [] else [word])
    else if IsWhitespace(s[0]) then (if word == [] then [] else [word]) + SplitFrom(s[1..], [])
    else SplitFrom(s[1..], word + [s[0]])
  }

  /** `str.split()` with no argument: maximal runs of non-whitespace. */
  function SplitWords(s: string): (words: seq<string>)
    ensures SeparatedWords(words)
  {
    SplitFromNoBlanks(s, []);
    SplitFrom(s, [])
  }

  /** Each word is non-empty and holds no separator. */
  predicate SeparatedWords(ws: seq<string>) {
    forall k :: 0 <= k < |ws| ==> |ws[k]| > 0 && forall j :: 0 <= j < |ws[k]| ==> !IsWhitespace(ws[k][j])
  }

  lemma {:induction false} SplitFromNoBlanks(s: string, word: string)
    requires forall j :: 0 <= j < |word| ==> !IsWhitespace(word[j])
    ensures SeparatedWords(SplitFrom(s, word))
    decreases |s|
  {
    if s != [] {
      if IsWhitespace(s[0]) {
        SplitFromNoBlanks(s[1..], []);
        var head: seq<string> := if word == [] then [] else [word];
        var rest := SplitFrom(s[1..], []);
        assert SplitFrom(s, word) == head + rest;
        assert forall k :: |head| <= k < |head| + |rest| ==> (head + rest)[k] == rest[k - |head|];
      } else {
        var w := word + [s[0]];
        assert forall j :: 0 <= j < |w| ==> w[j] == if j < |word| then word[j] else s[0];
        SplitFromNoBlanks(s[1..], w);
      }
    }
  }

  function LowerAll(ws: seq<string>): (r: seq<string>)
    ensures |r| == |ws|
    ensures forall i :: 0 <= i < |ws| ==> r[i] == Lower(ws[i])
  {
    if ws == [] then [] else [Lower(ws[0])] + LowerAll(ws[1..])
  }

  /** The text after every rewrite pass, just before the split. */
  function Rewritten(identifier: string): (r: string)
    ensures |r| >= |identifier|
  {
    var s1 := BlankUnderscores(BlankNonWord(identifier));
    var s2 := SubstituteAll(AcronymEnd, s1);
    var s3 := SubstituteAll(CamelHump, s2);
    var s4 := SubstituteAll(DigitThenLetter, s3);
    SubstituteAll(LetterThenDigit, s4)
  }

  /** A token as the source produces it: non-empty, only lower-case letters and digits
      (so no whitespace, no underscore and no other non-word character). */
  predicate IsToken(t: string) {
    |t| > 0 && forall c :: c in t ==> IsLower(c) || IsDigit(c)
  }

  /** `IdentifierTokenizer.tokenize` */
  function Tokenize(identifier: string): (tokens: seq<string>)
    ensures identifier == [] ==> tokens == []
    ensures forall t :: t in tokens ==> IsToken(t)
    ensures Concat(tokens) == Lower(Alphanumerics(identifier))
    ensures TokenStarts(tokens) == StartFlags(identifier)
  {
    if identifier == [] then []
    else
      TokenizeShape(identifier);
      LowerThenSplit(Rewritten(identifier));
      SplitStarts(identifier);
      SplitWords(Lower(Rewritten(identifier)))
  }

  // ---------------------------------------------------------------------
  // Proofs
  // ---------------------------------------------------------------------

  /** Every character is a letter, a digit or a plain space. */
  predicate AlnumOrSpace(s: string) {
    forall k :: 0 <= k < |s| ==> IsAlnum(s[k]) || s[k] == ' '
  }

  lemma {:induction false} AlphanumericsAppend(a: string, b: string)
    ensures Alphanumerics(a + b) == Alphanumerics(a) + Alphanumerics(b)
  {
    if a == [] {
      assert a + b == b;
    } else {
      var head: string := if IsAlnum(a[0]) then [a[0]] else [];
      calc {
        Alphanumerics(a + b);
        { assert (a + b)[0] == a[0] && (a + b)[1..] == a[1..] + b; }
        head + Alphanumerics(a[1..] + b);
        { AlphanumericsAppend(a[1..], b); }
        head + (Alphanumerics(a[1..]) + Alphanumerics(b));
        Alphanumerics(a) + Alphanumerics(b);
      }
    }
  }

  lemma {:induction false} ConcatAppend(a: seq<string>, b: seq<string>)
    ensures Concat(a + b) == Concat(a) + Concat(b)
  {
    if a == [] {
      assert a + b == b;
    } else {
      assert (a + b)[1..] == a[1..] + b;
      ConcatAppend(a[1..], b);
    }
  }

  lemma {:induction false} LowerAllConcat(ws: seq<string>)
    ensures Concat(LowerAll(ws)) == Lower(Concat(ws))
  {
    if ws != [] {
      LowerAllConcat(ws[1..]);
      assert Lower(ws[0] + Concat(ws[1..])) == Lower(ws[0]) + Lower(Concat(ws[1..]));
    }
  }

  /** Passes 1 and 2 leave only letters, digits and spaces, and keep every letter and digit. */
  lemma BlankingKeepsAlphanumerics(s: string)
    ensures AlnumOrSpace(BlankUnderscores(BlankNonWord(s)))
    ensures Alphanumerics(BlankUnderscores(BlankNonWord(s))) == Alphanumerics(s)
  {
    assert AlnumOrSpace(Blanked(s));
    BlankedAlphanumerics(s);
  }

  lemma {:induction false} BlankedAlphanumerics(s: string)
    ensures Alphanumerics(Blanked(s)) == Alphanumerics(s)
  {
    if s != [] {
      BlankedAlphanumerics(s[1..]);
      var head := if IsAlnum(s[0]) then s[0] else ' ';
      BlankedCons(s);
      calc {
        Alphanumerics(Blanked(s));
        { AlphanumericsAppend([head], Blanked(s[1..])); }
        Alphanumerics([head]) + Alphanumerics(Blanked(s[1..]));
        { AlphanumericsAppend([s[0]], s[1..]); assert s == [s[0]] + s[1..]; }
        Alphanumerics(s);
      }
    }
  }

  lemma BlankedCons(s: string)
    requires s != []
    ensures Blanked(s) == [if IsAlnum(s[0]) then s[0] else ' '] + Blanked(s[1..])
  {
  }

  /** A substitution pass emits only characters of its input and spaces. */
  lemma {:induction false} SubstituteCharset(p: Boundary, s: string, i: nat)
    requires i <= |s|
    requires AlnumOrSpace(s)
    ensures AlnumOrSpace(Substitute(p, s, i))
    decreases |s| - i
  {
    if i < |s| {
      match MatchAt(p, s, i)
      case Some((g, e)) =>
        SubstituteCharset(p, s, e);
        assert AlnumOrSpace(s[i..g]) && AlnumOrSpace(s[g..e]);
        AlnumOrSpaceAppend(s[i..g], " ");
        AlnumOrSpaceAppend(s[i..g] + " ", s[g..e]);
        AlnumOrSpaceAppend(s[i..g] + " " + s[g..e], Substitute(p, s, e));
      case None =>
        SubstituteCharset(p, s, i + 1);
        AlnumOrSpaceAppend([s[i]], Substitute(p, s, i + 1));
    }
  }

  lemma AlnumOrSpaceAppend(a: string, b: string)
    requires AlnumOrSpace(a) && AlnumOrSpace(b)
    ensures AlnumOrSpace(a + b)
  {
    assert forall k :: 0 <= k < |a + b| ==> (a + b)[k] == if k < |a| then a[k] else b[k - |a|];
  }

  /** A match at `i` inserts one space between `s[i..g]` and `s[g..e]`. */
  lemma SubstituteStep(s: string, i: nat, g: nat, e: nat, rest: string)
    requires i < g < e <= |s|
    requires Alphanumerics(rest) == Alphanumerics(s[e..])
    ensures Alphanumerics(s[i..g] + " " + s[g..e] + rest) == Alphanumerics(s[i..])
  {
    var x, y := s[i..g], s[g..e];
    calc {
      Alphanumerics(x + " " + y + rest);
      { AlphanumericsAppend(x + " " + y, rest); }
      Alphanumerics(x + " " + y) + Alphanumerics(s[e..]);
      { AlphanumericsAppend(x + " ", y);
        AlphanumericsAppend(x, " ");
        assert Alphanumerics(" ") == []; }
      Alphanumerics(x) + Alphanumerics(y) + Alphanumerics(s[e..]);
      { assert s[i..e] == x + y;
        AlphanumericsAppend(x, y); }
      Alphanumerics(s[i..e]) + Alphanumerics(s[e..]);
      { assert s[i..] == s[i..e] + s[e..];
        AlphanumericsAppend(s[i..e], s[e..]); }
      Alphanumerics(s[i..]);
    }
  }

  /** No match at `i`: the character is copied. */
  lemma CopyStep(s: string, i: nat, rest: string)
    requires i < |s|
    requires Alphanumerics(rest) == Alphanumerics(s[i + 1..])
    ensures Alphanumerics([s[i]] + rest) == Alphanumerics(s[i..])
  {
    assert s[i..] == [s[i]] + s[i + 1..];
    AlphanumericsAppend([s[i]], rest);
    AlphanumericsAppend([s[i]], s[i + 1..]);
  }

  /** A substitution pass only inserts spaces. */
  lemma {:induction false} SubstituteKeepsAlphanumerics(p: Boundary, s: string, i: nat)
    requires i <= |s|
    ensures Alphanumerics(Substitute(p, s, i)) == Alphanumerics(s[i..])
    decreases |s| - i
  {
    if i == |s| {
      assert s[i..] == [];
    } else {
      match MatchAt(p, s, i)
      case Some((g, e)) =>
        SubstituteKeepsAlphanumerics(p, s, e);
        SubstituteStep(s, i, g, e, Substitute(p, s, e));
      case None =>
        SubstituteKeepsAlphanumerics(p, s, i + 1);
        CopyStep(s, i, Substitute(p, s, i + 1));
    }
  }

  lemma SubstituteAllInsertsSpaces(p: Boundary, s: string)
    requires AlnumOrSpace(s)
    ensures AlnumOrSpace(SubstituteAll(p, s))
    ensures Alphanumerics(SubstituteAll(p, s)) == Alphanumerics(s)
  {
    SubstituteCharset(p, s, 0);
    SubstituteKeepsAlphanumerics(p, s, 0);
    assert s[0..] == s;
  }

  /** Splitting a letters-digits-spaces string yields non-empty alphanumeric words. */
  lemma {:induction false} SplitFromWords(s: string, word: string)
    requires AlnumOrSpace(s)
    requires forall c :: c in word ==> IsAlnum(c)
    ensures forall w :: w in SplitFrom(s, word) ==> |w| > 0 && forall c :: c in w ==> IsAlnum(c)
    decreases |s|
  {
    if s != [] {
      if IsWhitespace(s[0]) {
        SplitFromWords(s[1..], []);
      } else {
        assert IsAlnum(s[0]);
        SplitFromWords(s[1..], word + [s[0]]);
      }
    }
  }

  /** ... and their concatenation is exactly its letters and digits. */
  lemma {:induction false} SplitFromConcat(s: string, word: string)
    requires AlnumOrSpace(s)
    ensures Concat(SplitFrom(s, word)) == word + Alphanumerics(s)
    decreases |s|
  {
    if s == [] {
    } else if IsWhitespace(s[0]) {
      SplitFromConcat(s[1..], []);
      var head := if word == [] then [] else [word];
      ConcatAppend(head, SplitFrom(s[1..], []));
      assert !IsAlnum(s[0]);
    } else {
      assert IsAlnum(s[0]);
      SplitFromConcat(s[1..], word + [s[0]]);
    }
  }

  lemma LowerToken(w: string)
    requires |w| > 0 && forall c :: c in w ==> IsAlnum(c)
    ensures IsToken(Lower(w))
  {
    forall c | c in Lower(w) ensures IsLower(c) || IsDigit(c) {
      var k :| 0 <= k < |w| && Lower(w)[k] == c;
      assert w[k] in w;
    }
  }

  /** Lower-casing each word after the split is lower-casing before it:
      lower-casing neither makes nor removes whitespace. */
  lemma {:induction false} SplitFromLower(s: string, word: string)
    ensures SplitFrom(Lower(s), Lower(word)) == LowerAll(SplitFrom(s, word))
    decreases |s|
  {
    if s == [] {
      assert Lower(s) == [];
      if word != [] {
        assert LowerAll([word]) == [Lower(word)] + LowerAll([]);
      }
    } else {
      var c := s[0];
      assert Lower(s)[0] == LowerChar(c);
      assert Lower(s)[1..] == Lower(s[1..]);
      if IsWhitespace(c) {
        SplitFromLower(s[1..], []);
        assert Lower([]) == [];
        if word != [] {
          assert LowerAll([word] + SplitFrom(s[1..], [])) == [Lower(word)] + LowerAll(SplitFrom(s[1..], []));
        }
      } else {
        SplitFromLower(s[1..], word + [c]);
        assert Lower(word + [c]) == Lower(word) + [LowerChar(c)];
      }
    }
  }

  lemma LowerThenSplit(s: string)
    ensures SplitWords(Lower(s)) == LowerAll(SplitWords(s))
  {
    SplitFromLower(s, []);
    assert Lower([]) == [];
  }

  /** The rewriting passes only insert spaces: the letters and digits survive in order. */
  lemma RewrittenKeepsAlphanumerics(identifier: string)
    ensures AlnumOrSpace(Rewritten(identifier))
    ensures Alphanumerics(Rewritten(identifier)) == Alphanumerics(identifier)
  {
    var s1 := BlankUnderscores(BlankNonWord(identifier));
    BlankingKeepsAlphanumerics(identifier);
    var s2 := SubstituteAll(AcronymEnd, s1);
    SubstituteAllInsertsSpaces(AcronymEnd, s1);
    var s3 := SubstituteAll(CamelHump, s2);
    SubstituteAllInsertsSpaces(CamelHump, s2);
    var s4 := SubstituteAll(DigitThenLetter, s3);
    SubstituteAllInsertsSpaces(DigitThenLetter, s3);
    SubstituteAllInsertsSpaces(LetterThenDigit, s4);
  }

  lemma TokenizeShape(identifier: string)
    ensures forall t :: t in LowerAll(SplitWords(Rewritten(identifier))) ==> IsToken(t)
    ensures Concat(LowerAll(SplitWords(Rewritten(identifier)))) == Lower(Alphanumerics(identifier))
  {
    var s5 := Rewritten(identifier);
    RewrittenKeepsAlphanumerics(identifier);
    var words := SplitWords(s5);
    SplitFromWords(s5, []);
    forall t | t in LowerAll(words) ensures IsToken(t) {
      var k :| 0 <= k < |words| && LowerAll(words)[k] == t;
      assert words[k] in words;
      LowerToken(words[k]);
    }
    calc {
      Concat(LowerAll(words));
      { LowerAllConcat(words); }
      Lower(Concat(words));
      { SplitFromConcat(s5, []); assert [] + Alphanumerics(s5) == Alphanumerics(s5); }
      Lower(Alphanumerics(identifier));
    }
  }

  // ---------------------------------------------------------------------
  // Where the tokens are cut
  // ---------------------------------------------------------------------

  /** Passes 1 and 2 together: every character other than a letter or a digit becomes a space. */
  function Blanked(s: string): (r: string)
    ensures |r| == |s|
    ensures forall k :: 0 <= k < |s| ==> r[k] == if IsAlnum(s[k]) then s[k] else ' '
  {
    BlankUnderscores(BlankNonWord(s))
  }

  /** The rule of pass `p` before the first character of `s`, where `prev`
      is the character just before it. */
  predicate RuleBefore(p: Boundary, prev: char, s: string)
    requires s != []
  {
    match p
    case AcronymEnd => |s| >= 2 && IsUpper(prev) && IsUpper(s[0]) && IsLower(s[1])
    case CamelHump => (IsLower(prev) || IsDigit(prev)) && IsUpper(s[0])
    case DigitThenLetter => IsDigit(prev) && IsLetter(s[0])
    case LetterThenDigit => IsLetter(prev) && IsDigit(s[0])
  }

  /** Which of the four rules are in force. */
  datatype Rules = Rules(acronymEnd: bool, camelHump: bool, digitThenLetter: bool, letterThenDigit: bool)

  /** `r` with the rule of pass `p` added. */
  function With(r: Rules, p: Boundary): Rules {
    match p
    case AcronymEnd => r.(acronymEnd := true)
    case CamelHump => r.(camelHump := true)
    case DigitThenLetter => r.(digitThenLetter := true)
    case LetterThenDigit => r.(letterThenDigit := true)
  }

  /** The rule of pass `p` alone. */
  function Only(p: Boundary): Rules {
    With(Rules(false, false, false, false), p)
  }

  const AllRules: Rules := Rules(true, true, true, true)

  /** Some rule in force puts a space before the first character of `s`. */
  predicate CutBefore(rules: Rules, prev: char, s: string)
    requires s != []
  {
    || (rules.acronymEnd && RuleBefore(AcronymEnd, prev, s))
    || (rules.camelHump && RuleBefore(CamelHump, prev, s))
    || (rules.digitThenLetter && RuleBefore(DigitThenLetter, prev, s))
    || (rules.letterThenDigit && RuleBefore(LetterThenDigit, prev, s))
  }

  /** `s` with one space put before each character where a rule of `rules` applies. */
  function Spaced(rules: Rules, s: string, prev: char): string
    decreases |s|
  {
    if s == [] then []
    else (if CutBefore(rules, prev, s) then " " else "") + [s[0]] + Spaced(rules, s[1..], s[0])
  }

  /** The character before position `i`; a space at the start. */
  function PrevAt(s: string, i: nat): char
    requires i <= |s|
  {
    if i == 0 then ' ' else s[i - 1]
  }

  predicate CutAt(rules: Rules, s: string, i: nat)
    requires i < |s|
  {
    CutBefore(rules, PrevAt(s, i), s[i..])
  }

  /** Where no rule applies, `Spaced` copies the text. */
  lemma {:induction false} SpacedCopy(rules: Rules, s: string, i: nat, j: nat)
    requires i <= j <= |s|
    requires forall k :: i <= k < j ==> !CutAt(rules, s, k)
    ensures Spaced(rules, s[i..], PrevAt(s, i)) == s[i..j] + Spaced(rules, s[j..], PrevAt(s, j))
    decreases j - i
  {
    if i < j {
      assert !CutAt(rules, s, i);
      assert s[i..][1..] == s[i + 1..];
      SpacedCopy(rules, s, i + 1, j);
      assert s[i..j] == [s[i]] + s[i + 1..j];
    }
  }

  lemma SpacedCut(rules: Rules, s: string, i: nat)
    requires i < |s| && CutAt(rules, s, i)
    ensures Spaced(rules, s[i..], PrevAt(s, i)) == " " + [s[i]] + Spaced(rules, s[i + 1..], PrevAt(s, i + 1))
  {
    assert s[i..][1..] == s[i + 1..];
  }

  /** A match of pass `p` at `i` covers exactly one place where its rule applies:
      the start of its second group. */
  lemma MatchCuts(p: Boundary, s: string, i: nat)
    requires i < |s| && MatchAt(p, s, i).Some?
    ensures var (g, e) := MatchAt(p, s, i).value;
      && (forall k :: i < k < g ==> !CutAt(Only(p), s, k))
      && CutAt(Only(p), s, g)
      && (forall k :: g < k <= e && k < |s| ==> !CutAt(Only(p), s, k))
  {
    var (g, e) := MatchAt(p, s, i).value;
    if p == AcronymEnd {
      var n := UpperRun(s, i);
      forall k | i < k < g ensures !CutAt(Only(p), s, k) {
        assert s[k..][1] == s[k + 1];
      }
      assert s[g..][1] == s[g + 1];
    }
  }

  /** Where pass `p` finds no match at `i`, its rule does not apply at `i + 1`. */
  lemma NoMatchNoCut(p: Boundary, s: string, i: nat)
    requires i + 1 < |s| && MatchAt(p, s, i).None?
    ensures !CutAt(Only(p), s, i + 1)
  {
  }

  /** `Spaced` over a stretch with exactly one place where a rule applies, at `g`. */
  lemma SpacedOneCut(rules: Rules, s: string, i: nat, g: nat, e: nat)
    requires i < g < e <= |s|
    requires forall k :: i <= k < g ==> !CutAt(rules, s, k)
    requires CutAt(rules, s, g)
    requires forall k :: g < k < e ==> !CutAt(rules, s, k)
    ensures Spaced(rules, s[i..], PrevAt(s, i)) == s[i..g] + " " + s[g..e] + Spaced(rules, s[e..], PrevAt(s, e))
  {
    var rest := Spaced(rules, s[e..], PrevAt(s, e));
    calc {
      Spaced(rules, s[i..], PrevAt(s, i));
      { SpacedCopy(rules, s, i, g); }
      s[i..g] + Spaced(rules, s[g..], PrevAt(s, g));
      { SpacedCut(rules, s, g); }
      s[i..g] + (" " + [s[g]] + Spaced(rules, s[g + 1..], PrevAt(s, g + 1)));
      { SpacedCopy(rules, s, g + 1, e); }
      s[i..g] + (" " + [s[g]] + (s[g + 1..e] + rest));
      { assert s[g..e] == [s[g]] + s[g + 1..e]; }
      s[i..g] + " " + s[g..e] + rest;
    }
  }

  lemma {:induction false} SubstituteIsSpaced(p: Boundary, s: string, i: nat)
    requires i <= |s|
    requires i < |s| ==> !CutAt(Only(p), s, i)
    ensures Substitute(p, s, i) == Spaced(Only(p), s[i..], PrevAt(s, i))
    decreases |s| - i
  {
    if i < |s| {
      var m := MatchAt(p, s, i);
      if m.Some? {
        MatchCuts(p, s, i);
        SubstituteIsSpaced(p, s, m.value.1);
        MatchIsSpaced(p, s, i);
      } else {
        if i + 1 < |s| {
          NoMatchNoCut(p, s, i);
        }
        SubstituteIsSpaced(p, s, i + 1);
        SpacedCopy(Only(p), s, i, i + 1);
      }
    }
  }

  /** One step of the scan at a match. */
  lemma MatchIsSpaced(p: Boundary, s: string, i: nat)
    requires i < |s| && !CutAt(Only(p), s, i) && MatchAt(p, s, i).Some?
    requires Substitute(p, s, MatchAt(p, s, i).value.1)
          == Spaced(Only(p), s[MatchAt(p, s, i).value.1..], PrevAt(s, MatchAt(p, s, i).value.1))
    ensures Substitute(p, s, i) == Spaced(Only(p), s[i..], PrevAt(s, i))
  {
    var (g, e) := MatchAt(p, s, i).value;
    MatchCuts(p, s, i);
    SpacedOneCut(Only(p), s, i, g, e);
  }

  /** One `re.sub` pass puts a space exactly before each character where its rule applies. */
  lemma PassIsSpaced(p: Boundary, s: string)
    ensures SubstituteAll(p, s) == Spaced(Only(p), s, ' ')
  {
    SubstituteIsSpaced(p, s, 0);
    assert s[0..] == s;
  }

  lemma SpacedUnfold(rules: Rules, s: string, prev: char)
    requires s != []
    ensures Spaced(rules, s, prev)
         == if CutBefore(rules, prev, s) then [' '] + ([s[0]] + Spaced(rules, s[1..], s[0]))
            else [s[0]] + Spaced(rules, s[1..], s[0])
  {
  }

  lemma SpacedCons(rules: Rules, c: char, t: string, prev: char)
    ensures Spaced(rules, [c] + t, prev)
         == (if CutBefore(rules, prev, [c] + t) then " " else "") + [c] + Spaced(rules, t, c)
  {
    assert ([c] + t)[1..] == t;
  }

  lemma CutBeforeAdd(rules: Rules, q: Boundary, prev: char, s: string)
    requires q != AcronymEnd && s != []
    ensures CutBefore(With(rules, q), prev, s) == (CutBefore(rules, prev, s) || CutBefore(Only(q), prev, s))
    ensures !CutBefore(Only(q), prev, [' '] + s) && !CutBefore(Only(q), ' ', s)
  {
  }

  /** A pass whose rule looks at two adjacent characters adds nothing around a space. */
  lemma PairPassAtSpace(q: Boundary, c: char, rest: string, prev: char)
    requires q != AcronymEnd
    ensures Spaced(Only(q), [' '] + ([c] + rest), prev) == [' '] + ([c] + Spaced(Only(q), rest, c))
  {
    var tail := [c] + rest;
    SpacedCons(Only(q), ' ', tail, prev);
    SpacedCons(Only(q), c, rest, ' ');
    CutBeforeAdd(Rules(false, false, false, false), q, prev, tail);
  }

  lemma ComposeAtCut(rules: Rules, q: Boundary, s: string, prev: char)
    requires q != AcronymEnd && s != [] && CutBefore(rules, prev, s)
    requires Spaced(Only(q), Spaced(rules, s[1..], s[0]), s[0]) == Spaced(With(rules, q), s[1..], s[0])
    ensures Spaced(Only(q), Spaced(rules, s, prev), prev) == Spaced(With(rules, q), s, prev)
  {
    var rest := Spaced(rules, s[1..], s[0]);
    calc {
      Spaced(Only(q), Spaced(rules, s, prev), prev);
      { SpacedUnfold(rules, s, prev); }
      Spaced(Only(q), [' '] + ([s[0]] + rest), prev);
      { PairPassAtSpace(q, s[0], rest, prev); }
      [' '] + ([s[0]] + Spaced(Only(q), rest, s[0]));
      [' '] + ([s[0]] + Spaced(With(rules, q), s[1..], s[0]));
      { SpacedUnfold(With(rules, q), s, prev);
        CutBeforeAdd(rules, q, prev, s); }
      Spaced(With(rules, q), s, prev);
    }
  }

  lemma ComposeNoCut(rules: Rules, q: Boundary, s: string, prev: char)
    requires q != AcronymEnd && s != [] && !CutBefore(rules, prev, s)
    requires Spaced(Only(q), Spaced(rules, s[1..], s[0]), s[0]) == Spaced(With(rules, q), s[1..], s[0])
    ensures Spaced(Only(q), Spaced(rules, s, prev), prev) == Spaced(With(rules, q), s, prev)
  {
    var rest := Spaced(rules, s[1..], s[0]);
    var tail := [s[0]] + rest;
    var mark: string := if CutBefore(Only(q), prev, s) then [' '] else [];
    CutBeforeAdd(rules, q, prev, s);
    calc {
      Spaced(Only(q), Spaced(rules, s, prev), prev);
      { SpacedUnfold(rules, s, prev); }
      Spaced(Only(q), tail, prev);
      { SpacedUnfold(Only(q), tail, prev);
        assert tail[0] == s[0] && tail[1..] == rest;
        assert CutBefore(Only(q), prev, tail) == CutBefore(Only(q), prev, s); }
      mark + ([s[0]] + Spaced(Only(q), rest, s[0]));
      mark + ([s[0]] + Spaced(With(rules, q), s[1..], s[0]));
      { SpacedUnfold(With(rules, q), s, prev); }
      Spaced(With(rules, q), s, prev);
    }
  }

  /** A later pass whose rule looks at two adjacent characters adds its
      places to those of the earlier passes: an earlier space only separates
      characters its rule would never join. */
  lemma {:induction false} SpacedCompose(rules: Rules, q: Boundary, s: string, prev: char)
    requires q != AcronymEnd
    ensures Spaced(Only(q), Spaced(rules, s, prev), prev) == Spaced(With(rules, q), s, prev)
    decreases |s|
  {
    if s != [] {
      SpacedCompose(rules, q, s[1..], s[0]);
      if CutBefore(rules, prev, s) {
        ComposeAtCut(rules, q, s, prev);
      } else {
        ComposeNoCut(rules, q, s, prev);
      }
    }
  }

  /** The five passes together put one space before each character where any rule applies. */
  lemma RewrittenIsSpaced(identifier: string)
    ensures Rewritten(identifier) == Spaced(AllRules, Blanked(identifier), ' ')
  {
    var s1 := Blanked(identifier);
    var r1 := Only(AcronymEnd);
    PassIsSpaced(AcronymEnd, s1);
    var s2 := Spaced(r1, s1, ' ');
    PassIsSpaced(CamelHump, s2);
    SpacedCompose(r1, CamelHump, s1, ' ');
    var r2 := With(r1, CamelHump);
    var s3 := Spaced(r2, s1, ' ');
    PassIsSpaced(DigitThenLetter, s3);
    SpacedCompose(r2, DigitThenLetter, s1, ' ');
    var r3 := With(r2, DigitThenLetter);
    var s4 := Spaced(r3, s1, ' ');
    PassIsSpaced(LetterThenDigit, s4);
    SpacedCompose(r3, LetterThenDigit, s1, ' ');
    assert With(r3, LetterThenDigit) == AllRules;
  }

  /** The letters and digits of `s` in order, each with whether a token starts
      there: after a character that is not a letter or digit, or where a rule applies. */
  function Marked(s: string, prev: char): (ms: seq<(char, bool)>)
    ensures |ms| == |Alphanumerics(s)|
    decreases |s|
  {
    if s == [] then []
    else if !IsAlnum(s[0]) then Marked(s[1..], s[0])
    else [(s[0], !IsAlnum(prev) || CutBefore(AllRules, prev, s))] + Marked(s[1..], s[0])
  }

  /** The words of `ms`, continued from a partly read word: a new word begins at each flagged character. */
  function GroupFrom(ms: seq<(char, bool)>, word: string): seq<string>
    decreases |ms|
  {
    if ms == [] then (if word == [] then [] else [word])
    else if ms[0].1 then (if word == [] then [] else [word]) + GroupFrom(ms[1..], [ms[0].0])
    else GroupFrom(ms[1..], word + [ms[0].0])
  }

  lemma {:induction false} MarkedFirst(s: string, prev: char)
    requires !IsAlnum(prev) && Marked(s, prev) != []
    ensures Marked(s, prev)[0].1
    decreases |s|
  {
    if !IsAlnum(s[0]) {
      MarkedFirst(s[1..], s[0]);
    }
  }

  /** After a separator the partly read word is complete. */
  lemma GroupAfterSeparator(s: string, prev: char, word: string)
    requires !IsAlnum(prev)
    ensures GroupFrom(Marked(s, prev), word) == (if word == [] then [] else [word]) + GroupFrom(Marked(s, prev), [])
  {
    if Marked(s, prev) != [] {
      MarkedFirst(s, prev);
    }
  }

  lemma SplitFromSpace(x: string, word: string)
    ensures SplitFrom([' '] + x, word) == (if word == [] then [] else [word]) + SplitFrom(x, [])
  {
    assert ([' '] + x)[1..] == x;
  }

  lemma SplitFromChar(c: char, x: string, word: string)
    requires IsAlnum(c)
    ensures SplitFrom([c] + x, word) == SplitFrom(x, word + [c])
  {
    assert ([c] + x)[0] == c && ([c] + x)[1..] == x;
  }

  /** Splitting the spaced text on whitespace gives the words of its flagged letters and digits. */
  lemma {:induction false} SplitSpaced(s: string, prev: char, word: string)
    requires AlnumOrSpace(s)
    requires IsAlnum(prev) || prev == ' '
    requires prev == ' ' ==> word == []
    ensures SplitFrom(Spaced(AllRules, s, prev), word) == GroupFrom(Marked(s, prev), word)
    decreases |s|
  {
    if s != [] {
      var c := s[0];
      var rest := Spaced(AllRules, s[1..], c);
      assert AlnumOrSpace(s[1..]);
      SpacedUnfold(AllRules, s, prev);
      if c == ' ' {
        SplitFromSpace(rest, word);
        SplitSpaced(s[1..], c, []);
        GroupAfterSeparator(s[1..], c, word);
      } else if CutBefore(AllRules, prev, s) {
        SplitFromSpace([c] + rest, word);
        SplitFromChar(c, rest, []);
        assert [] + [c] == [c];
        SplitSpaced(s[1..], c, [c]);
      } else {
        SplitFromChar(c, rest, word);
        SplitSpaced(s[1..], c, word + [c]);
      }
    }
  }

  /** Like the passes, `Marked` sees only whether a character is a letter or a digit and which. */
  lemma {:induction false} MarkedBlanked(s: string, p1: char, p2: char)
    requires (IsAlnum(p1) || IsAlnum(p2)) ==> p1 == p2
    ensures Marked(Blanked(s), p1) == Marked(s, p2)
    decreases |s|
  {
    if s != [] {
      var b := Blanked(s);
      assert b[1..] == Blanked(s[1..]);
      MarkedBlanked(s[1..], b[0], s[0]);
      if IsAlnum(s[0]) {
        assert CutBefore(AllRules, p1, b) == CutBefore(AllRules, p2, s);
      }
    }
  }

  /** One flag per character of a word: set on its first character only. */
  function WordStarts(w: string): (f: seq<bool>)
    ensures |f| == |w|
  {
    if w == [] then [] else [true] + seq(|w| - 1, _ => false)
  }

  /** One flag per character of the concatenated words, set where a word begins. */
  function TokenStarts(ws: seq<string>): seq<bool> {
    if ws == [] then [] else WordStarts(ws[0]) + TokenStarts(ws[1..])
  }

  function Flags(ms: seq<(char, bool)>): (f: seq<bool>)
    ensures |f| == |ms|
  {
    seq(|ms|, k requires 0 <= k < |ms| => ms[k].1)
  }

  lemma {:induction false} TokenStartsAppend(a: seq<string>, b: seq<string>)
    ensures TokenStarts(a + b) == TokenStarts(a) + TokenStarts(b)
  {
    if a == [] {
      assert a + b == b;
    } else {
      assert (a + b)[1..] == a[1..] + b;
      TokenStartsAppend(a[1..], b);
    }
  }

  lemma {:induction false} TokenStartsLower(ws: seq<string>)
    ensures TokenStarts(LowerAll(ws)) == TokenStarts(ws)
  {
    if ws != [] {
      TokenStartsLower(ws[1..]);
      assert LowerAll(ws)[1..] == LowerAll(ws[1..]);
    }
  }

  /** Grouping starts a word exactly at the flagged characters. */
  lemma {:induction false} GroupStarts(ms: seq<(char, bool)>, word: string)
    requires word == [] ==> ms == [] || ms[0].1
    ensures TokenStarts(GroupFrom(ms, word)) == WordStarts(word) + Flags(ms)
    decreases |ms|
  {
    if ms == [] {
      var head := if word == [] then [] else [word];
      assert TokenStarts(head) == WordStarts(word);
    } else if ms[0].1 {
      GroupStarts(ms[1..], [ms[0].0]);
      GroupStartsAtFlag(ms, word);
    } else {
      GroupStarts(ms[1..], word + [ms[0].0]);
      GroupStartsInside(ms, word);
    }
  }

  lemma GroupStartsAtFlag(ms: seq<(char, bool)>, word: string)
    requires ms != [] && ms[0].1
    requires TokenStarts(GroupFrom(ms[1..], [ms[0].0])) == WordStarts([ms[0].0]) + Flags(ms[1..])
    ensures TokenStarts(GroupFrom(ms, word)) == WordStarts(word) + Flags(ms)
  {
    var head := if word == [] then [] else [word];
    var rest := GroupFrom(ms[1..], [ms[0].0]);
    assert GroupFrom(ms, word) == head + rest;
    assert TokenStarts(head) == WordStarts(word);
    TokenStartsAppend(head, rest);
    assert WordStarts([ms[0].0]) == [true];
    FlagsCons(ms);
  }

  lemma GroupStartsInside(ms: seq<(char, bool)>, word: string)
    requires ms != [] && !ms[0].1 && word != []
    requires TokenStarts(GroupFrom(ms[1..], word + [ms[0].0])) == WordStarts(word + [ms[0].0]) + Flags(ms[1..])
    ensures TokenStarts(GroupFrom(ms, word)) == WordStarts(word) + Flags(ms)
  {
    var c := ms[0].0;
    calc {
      TokenStarts(GroupFrom(ms, word));
      TokenStarts(GroupFrom(ms[1..], word + [c]));
      WordStarts(word + [c]) + Flags(ms[1..]);
      { WordStartsSnoc(word, c); }
      (WordStarts(word) + [false]) + Flags(ms[1..]);
      WordStarts(word) + ([false] + Flags(ms[1..]));
      { FlagsCons(ms); }
      WordStarts(word) + Flags(ms);
    }
  }

  lemma FlagsCons(ms: seq<(char, bool)>)
    requires ms != []
    ensures Flags(ms) == [ms[0].1] + Flags(ms[1..])
  {
  }

  lemma WordStartsSnoc(word: string, c: char)
    requires word != []
    ensures WordStarts(word + [c]) == WordStarts(word) + [false]
  {
    var falses := seq(|word| - 1, _ => false);
    assert seq(|word + [c]| - 1, _ => false) == falses + [false];
  }

  /** The places where the passes put a space, read off the identifier itself:
      position `j` follows a letter or digit at `j - 1` and one of the four rules applies. */
  predicate BoundaryBefore(identifier: string, j: nat)
    requires 0 < j < |identifier|
  {
    var a, b := identifier[j - 1], identifier[j];
    || ((IsLower(a) || IsDigit(a)) && IsUpper(b))                                   // camel-case hump
    || (IsDigit(a) && IsLetter(b))                                                   // digit, then letter
    || (IsLetter(a) && IsDigit(b))                                                   // letter, then digit
    || (j + 1 < |identifier| && IsUpper(a) && IsUpper(b) && IsLower(identifier[j + 1])) // end of an acronym
  }

  /** A token of `identifier` starts at position `j`: a letter or digit that
      opens the identifier, follows a separator, or follows a boundary. */
  predicate StartsToken(identifier: string, j: nat)
    requires j < |identifier|
  {
    IsAlnum(identifier[j]) && (j == 0 || !IsAlnum(identifier[j - 1]) || BoundaryBefore(identifier, j))
  }

  lemma {:induction false} MarkedAt(s: string, i: nat, j: nat)
    requires i <= j < |s| && IsAlnum(s[j])
    ensures |Alphanumerics(s[i..j])| < |Marked(s[i..], PrevAt(s, i))|
    ensures Marked(s[i..], PrevAt(s, i))[|Alphanumerics(s[i..j])|] == (s[j], StartsToken(s, j))
    decreases j - i
  {
    assert s[i..][1..] == s[i + 1..];
    if i == j {
      assert s[j..][1..] == s[j + 1..];
      if j > 0 && IsAlnum(s[j - 1]) {
        assert s[j..][0] == s[j];
        assert |s[j..]| >= 2 ==> s[j..][1] == s[j + 1];
        assert CutBefore(AllRules, s[j - 1], s[j..]) == BoundaryBefore(s, j);
      }
    } else {
      MarkedAt(s, i + 1, j);
      assert s[i..j][1..] == s[i + 1..j];
    }
  }

  /** The letters and digits of `identifier` with their token-start flags. */
  function StartFlags(identifier: string): (f: seq<bool>)
    ensures |f| == |Alphanumerics(identifier)|
  {
    Flags(Marked(identifier, ' '))
  }

  /** For the letter or digit at position `j` of `identifier`: its flag is whether a token starts there. */
  lemma StartFlagsAt(identifier: string, j: nat)
    requires j < |identifier| && IsAlnum(identifier[j])
    ensures |Alphanumerics(identifier[..j])| < |StartFlags(identifier)|
    ensures StartFlags(identifier)[|Alphanumerics(identifier[..j])|] == StartsToken(identifier, j)
  {
    MarkedAt(identifier, 0, j);
    assert identifier[0..] == identifier && identifier[0..j] == identifier[..j];
  }

  /** The words of the rewritten text begin exactly at the flagged letters and digits. */
  lemma SplitStarts(identifier: string)
    requires identifier != []
    ensures TokenStarts(SplitWords(Lower(Rewritten(identifier)))) == StartFlags(identifier)
  {
    var t := Blanked(identifier);
    BlankingKeepsAlphanumerics(identifier);
    RewrittenIsSpaced(identifier);
    LowerThenSplit(Rewritten(identifier));
    TokenStartsLower(SplitWords(Rewritten(identifier)));
    SplitSpaced(t, ' ', []);
    MarkedBlanked(identifier, ' ', ' ');
    var ms := Marked(identifier, ' ');
    if ms != [] {
      MarkedFirst(identifier, ' ');
    }
    GroupStarts(ms, []);
  }

  /** Whether a token begins at the letter or digit at position `j` of `identifier`,
      counted among the identifier's letters and digits: both directions. */
  lemma TokenStartAt(identifier: string, j: nat)
    requires j < |identifier| && IsAlnum(identifier[j])
    ensures var c := |Alphanumerics(identifier[..j])|;
      && c < |TokenStarts(Tokenize(identifier))|
      && (TokenStarts(Tokenize(identifier))[c] <==> StartsToken(identifier, j))
  {
    StartFlagsAt(identifier, j);
  }

  /** `myVar`: a token starts at an upper-case letter after a lower-case letter or a digit. */
  lemma CamelHumpStartsToken(identifier: string, k: nat)
    requires k + 1 < |identifier|
    requires (IsLower(identifier[k]) || IsDigit(identifier[k])) && IsUpper(identifier[k + 1])
    ensures var c := |Alphanumerics(identifier[..k + 1])|;
      c < |TokenStarts(Tokenize(identifier))| && TokenStarts(Tokenize(identifier))[c]
  {
    TokenStartAt(identifier, k + 1);
  }

  /** `file123`, `v2beta`: a token starts where digits and letters meet. */
  lemma DigitLetterStartsToken(identifier: string, k: nat)
    requires k + 1 < |identifier|
    requires (IsDigit(identifier[k]) && IsLetter(identifier[k + 1]))
          || (IsLetter(identifier[k]) && IsDigit(identifier[k + 1]))
    ensures var c := |Alphanumerics(identifier[..k + 1])|;
      c < |TokenStarts(Tokenize(identifier))| && TokenStarts(Tokenize(identifier))[c]
  {
    TokenStartAt(identifier, k + 1);
  }

  /** `XMLParser`: a token starts at the last capital of an upper-case run that a lower-case letter follows. */
  lemma AcronymEndStartsToken(identifier: string, k: nat)
    requires k + 2 < |identifier|
    requires IsUpper(identifier[k]) && IsUpper(identifier[k + 1]) && IsLower(identifier[k + 2])
    ensures var c := |Alphanumerics(identifier[..k + 1])|;
      c < |TokenStarts(Tokenize(identifier))| && TokenStarts(Tokenize(identifier))[c]
  {
    TokenStartAt(identifier, k + 1);
  }

  /** `my_var`, `a.b`: a token starts at a letter or digit after an underscore or any other separator. */
  lemma SeparatorStartsToken(identifier: string, k: nat)
    requires k + 1 < |identifier|
    requires !IsAlnum(identifier[k]) && IsAlnum(identifier[k + 1])
    ensures var c := |Alphanumerics(identifier[..k + 1])|;
      c < |TokenStarts(Tokenize(identifier))| && TokenStarts(Tokenize(identifier))[c]
  {
    TokenStartAt(identifier, k + 1);
  }

  /** And nowhere else: between two adjacent letters or digits that no rule separates,
      the token goes on. */
  lemma NoOtherTokenStarts(identifier: string, j: nat)
    requires 0 < j < |identifier|
    requires IsAlnum(identifier[j - 1]) && IsAlnum(identifier[j])
    requires !BoundaryBefore(identifier, j)
    ensures var c := |Alphanumerics(identifier[..j])|;
      c < |TokenStarts(Tokenize(identifier))| && !TokenStarts(Tokenize(identifier))[c]
  {
    TokenStartAt(identifier, j);
  }

  /** The offsets into `Concat(ws)` at which the words of `ws` begin. */
  function StartOffsets(ws: seq<string>): set<int> {
    set m | 0 <= m < |ws| :: |Concat(ws[..m])|
  }

  predicate NonEmptyWords(ws: seq<string>) {
    forall k :: 0 <= k < |ws| ==> ws[k] != []
  }

  /** The words of `[w] + r` begin at 0 and, shifted by `|w|`, where the words of `r` begin. */
  lemma StartOffsetsCons(w: string, r: seq<string>)
    requires w != []
    ensures forall c :: c in StartOffsets([w] + r) <==> (c == 0 || (c >= |w| && c - |w| in StartOffsets(r)))
  {
    var ws := [w] + r;
    forall m | 1 <= m <= |ws|
      ensures |Concat(ws[..m])| == |w| + |Concat(r[..m - 1])|
    {
      assert ws[..m][1..] == r[..m - 1];
    }
    assert |Concat(ws[..0])| == 0;
    forall c | c >= |w| && c - |w| in StartOffsets(r)
      ensures c in StartOffsets(ws)
    {
      var m :| 0 <= m < |r| && |Concat(r[..m])| == c - |w|;
      assert |Concat(ws[..m + 1])| == c;
    }
  }

  /** `TokenStarts` flags exactly the offsets at which the words begin. */
  lemma {:induction false} TokenStartsAreOffsets(ws: seq<string>)
    requires NonEmptyWords(ws)
    ensures |TokenStarts(ws)| == |Concat(ws)|
    ensures forall c :: 0 <= c < |Concat(ws)| ==> (TokenStarts(ws)[c] <==> c in StartOffsets(ws))
  {
    if ws != [] {
      var w, r := ws[0], ws[1..];
      TokenStartsAreOffsets(r);
      assert ws == [w] + r;
      StartOffsetsCons(w, r);
      assert TokenStarts(ws) == WordStarts(w) + TokenStarts(r);
      assert Concat(ws) == w + Concat(r);
    }
  }

  /** Every offset at which a word begins lies inside the concatenation. */
  lemma OffsetsInside(ws: seq<string>)
    requires NonEmptyWords(ws)
    ensures forall c :: c in StartOffsets(ws) ==> 0 <= c < |Concat(ws)|
  {
    forall m | 0 <= m < |ws|
      ensures |Concat(ws[..m])| < |Concat(ws)|
    {
      assert ws == ws[..m] + ws[m..];
      ConcatAppend(ws[..m], ws[m..]);
      assert ws[m..] == [ws[m]] + ws[m + 1..];
    }
  }

  /** The position of the `c`-th letter or digit of `s`. */
  lemma {:induction false} AlnumPosition(s: string, c: nat)
    requires c < |Alphanumerics(s)|
    ensures exists j :: 0 <= j < |s| && IsAlnum(s[j]) && |Alphanumerics(s[..j])| == c
  {
    assert s == [s[0]] + s[1..];
    AlphanumericsAppend([s[0]], s[1..]);
    if IsAlnum(s[0]) && c == 0 {
      assert s[..0] == [];
    } else {
      var d := if IsAlnum(s[0]) then c - 1 else c;
      AlnumPosition(s[1..], d);
      var j :| 0 <= j < |s[1..]| && IsAlnum(s[1..][j]) && |Alphanumerics(s[1..][..j])| == d;
      assert s[..j + 1] == [s[0]] + s[1..][..j];
      AlphanumericsAppend([s[0]], s[1..][..j]);
      assert IsAlnum(s[j + 1]) && |Alphanumerics(s[..j + 1])| == c;
    }
  }

  /** The cut points of the tokens, `{|Concat(tokens[..m])| : 0 <= m < |tokens|}`, are exactly
      the places, counted among the identifier's letters and digits, where `StartsToken` holds. */
  lemma TokenCuts(identifier: string)
    ensures forall j :: 0 <= j < |identifier| && StartsToken(identifier, j) ==>
              |Alphanumerics(identifier[..j])| in StartOffsets(Tokenize(identifier))
    ensures forall c :: c in StartOffsets(Tokenize(identifier)) ==>
              exists j :: 0 <= j < |identifier| && StartsToken(identifier, j) && c == |Alphanumerics(identifier[..j])|
  {
    var tokens := Tokenize(identifier);
    assert forall k :: 0 <= k < |tokens| ==> tokens[k] in tokens;
    assert NonEmptyWords(tokens);
    TokenStartsAreOffsets(tokens);
    OffsetsInside(tokens);
    forall j | 0 <= j < |identifier| && StartsToken(identifier, j)
      ensures |Alphanumerics(identifier[..j])| in StartOffsets(tokens)
    {
      TokenStartAt(identifier, j);
    }
    forall c | c in StartOffsets(tokens)
      ensures exists j :: 0 <= j < |identifier| && StartsToken(identifier, j) && c == |Alphanumerics(identifier[..j])|
    {
      AlnumPosition(identifier, c);
      var j :| 0 <= j < |identifier| && IsAlnum(identifier[j]) && |Alphanumerics(identifier[..j])| == c;
      TokenStartAt(identifier, j);
    }
  }

  lemma ConcatOfNonEmpty(ws: seq<string>)
    requires NonEmptyWords(ws)
    requires Concat(ws) == []
    ensures ws == []
  {
  }

  /** Non-empty words are fixed by their concatenation and by where they begin. */
  lemma {:induction false} WordsDetermined(ws: seq<string>, vs: seq<string>)
    requires NonEmptyWords(ws) && NonEmptyWords(vs)
    requires Concat(ws) == Concat(vs) && TokenStarts(ws) == TokenStarts(vs)
    ensures ws == vs
  {
    TokenStartsAreOffsets(ws);
    TokenStartsAreOffsets(vs);
    if ws == [] || vs == [] {
      ConcatOfNonEmpty(ws);
      ConcatOfNonEmpty(vs);
    } else {
      StartsAfterFirst(ws, vs);
      StartsAfterFirst(vs, ws);
      FirstWordsAgree(ws, vs);
      WordsDetermined(ws[1..], vs[1..]);
      assert ws == [ws[0]] + ws[1..] && vs == [vs[0]] + vs[1..];
    }
  }

  /** Two splits with first words of one length agree on them, and their rests agree as well. */
  lemma FirstWordsAgree(ws: seq<string>, vs: seq<string>)
    requires ws != [] && vs != [] && |ws[0]| == |vs[0]|
    requires NonEmptyWords(ws) && NonEmptyWords(vs)
    requires Concat(ws) == Concat(vs) && TokenStarts(ws) == TokenStarts(vs)
    ensures ws[0] == vs[0]
    ensures NonEmptyWords(ws[1..]) && NonEmptyWords(vs[1..])
    ensures Concat(ws[1..]) == Concat(vs[1..]) && TokenStarts(ws[1..]) == TokenStarts(vs[1..])
  {
    var w, v := ws[0], vs[0];
    assert Concat(ws) == w + Concat(ws[1..]) && Concat(vs) == v + Concat(vs[1..]);
    assert w == Concat(ws)[..|w|] == v;
    assert Concat(ws[1..]) == Concat(ws)[|w|..] == Concat(vs[1..]);
    assert TokenStarts(ws) == WordStarts(w) + TokenStarts(ws[1..]);
    assert TokenStarts(vs) == WordStarts(v) + TokenStarts(vs[1..]);
    assert TokenStarts(ws[1..]) == TokenStarts(ws)[|w|..] == TokenStarts(vs[1..]);
  }

  /** Inside the first word no flag is set; just after it, one is, unless it is the last word. */
  lemma TokenStartsHead(ws: seq<string>)
    requires NonEmptyWords(ws) && ws != []
    ensures forall c :: 0 < c < |ws[0]| ==> c < |TokenStarts(ws)| && !TokenStarts(ws)[c]
    ensures |ws| == 1 ==> |TokenStarts(ws)| == |ws[0]|
    ensures |ws| > 1 ==> |ws[0]| < |TokenStarts(ws)| && TokenStarts(ws)[|ws[0]|]
  {
    assert TokenStarts(ws) == WordStarts(ws[0]) + TokenStarts(ws[1..]);
    if |ws| > 1 {
      assert ws[1..][0] == ws[1];
      assert TokenStarts(ws[1..]) == WordStarts(ws[1]) + TokenStarts(ws[1..][1..]);
    }
  }

  /** The first word cannot be shorter than the first word of another split with the same starts. */
  lemma StartsAfterFirst(ws: seq<string>, vs: seq<string>)
    requires ws != [] && vs != []
    requires NonEmptyWords(ws) && NonEmptyWords(vs)
    requires |TokenStarts(ws)| == |Concat(ws)| && |TokenStarts(vs)| == |Concat(vs)|
    requires Concat(ws) == Concat(vs) && TokenStarts(ws) == TokenStarts(vs)
    ensures |ws[0]| >= |vs[0]|
  {
    if |ws[0]| < |vs[0]| {
      TokenStartsHead(vs);
      TokenStartsHead(ws);
    }
  }

  lemma {:induction false} AlphanumericsOfAlnum(s: string)
    requires forall k :: 0 <= k < |s| ==> IsAlnum(s[k])
    ensures Alphanumerics(s) == s
  {
    if s != [] {
      AlphanumericsOfAlnum(s[1..]);
    }
  }

  /** For an identifier of letters and digits only, the tokens are the non-empty
      words that spell it in lower case and begin exactly where `StartsToken` holds. */
  lemma TokenizeAlnumWord(identifier: string, expected: seq<string>)
    requires forall k :: 0 <= k < |identifier| ==> IsAlnum(identifier[k])
    requires NonEmptyWords(expected)
    requires Concat(expected) == Lower(identifier)
    requires TokenStarts(expected) == seq(|identifier|, j requires 0 <= j < |identifier| => StartsToken(identifier, j))
    ensures Tokenize(identifier) == expected
  {
    var tokens := Tokenize(identifier);
    AlphanumericsOfAlnum(identifier);
    forall j | 0 <= j < |identifier|
      ensures StartFlags(identifier)[j] == StartsToken(identifier, j)
    {
      AlphanumericsOfAlnum(identifier[..j]);
      StartFlagsAt(identifier, j);
    }
    assert forall k :: 0 <= k < |tokens| ==> tokens[k] in tokens;
    WordsDetermined(tokens, expected);
  }

  /** The example the source gives for pass 3. */
  lemma TokenizeAcronymExample()
    ensures Tokenize("XMLParser") == ["xml", "parser"]
  {
    var id, ws := "XMLParser", ["xml", "parser"];
    assert Concat(ws) == "xmlparser" by {
      assert Concat(ws[1..]) == "parser";
    }
    assert Lower(id) == "xmlparser";
    assert TokenStarts(ws) == [true, false, false, true, false, false, false, false, false] by {
      assert TokenStarts(ws[1..]) == WordStarts("parser");
    }
    TokenizeAlnumWord(id, ws);
  }

  /** The example the source gives for pass 4. */
  lemma TokenizeCamelCaseExample()
    ensures Tokenize("myVar") == ["my", "var"]
  {
    var id, ws := "myVar", ["my", "var"];
    assert Concat(ws) == "myvar" by {
      assert Concat(ws[1..]) == "var";
    }
    assert Lower(id) == "myvar";
    assert TokenStarts(ws) == [true, false, true, false, false] by {
      assert TokenStarts(ws[1..]) == WordStarts("var");
    }
    TokenizeAlnumWord(id, ws);
  }

  /** The example the source gives for pass 5. */
  lemma TokenizeDigitsExample()
    ensures Tokenize("file123") == ["file", "123"]
  {
    var id, ws := "file123", ["file", "123"];
    assert Concat(ws) == "file123" by {
      assert Concat(ws[1..]) == "123";
    }
    assert Lower(id) == "file123";
    assert TokenStarts(ws) == [true, false, false, false, true, false, false] by {
      assert TokenStarts(ws[1..]) == WordStarts("123");
    }
    TokenizeAlnumWord(id, ws);
  }
}
