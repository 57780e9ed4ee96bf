/**
 * The text normaliser `_normalize` of ingestion/extract.py: five rewrites applied in a
 * fixed order, each a left-to-right, non-overlapping rewrite of the whole text.
 *
 *   1. "\r\n" and then every remaining "\r" become "\n";
 *   2. the curly double quotes U+201C and U+201D become '"';
 *   3. the curly single quotes U+2018 and U+2019 become '\'';
 *   4. a soft wrap `\w-\n\w` loses its "-\n" (regular-expression substitution);
 *   5. every run of three or more "\n" becomes exactly "\n\n".
 *
 * The normaliser is not idempotent: step 4 consumes the word character after the line
 * break, so in "a-\nb-\nc" the second wrap is only exposed by the first pass. Idempotence
 * is proved exactly for the texts whose normal form has no soft wrap left, and in
 * particular for every text without two chained wraps.
 */
module Normalizer {

  /** Python's `\w`, restricted to ASCII: a letter, a digit or '_'. */
  predicate IsWordChar(c: char)
  {
    'a' <= c <= 'z' || 'A' <= c <= 'Z' || '0' <= c <= '9' || c == '_'
  }

  const LeftDoubleQuote: char := '\U{201C}'
  const RightDoubleQuote: char := '\U{201D}'
  const LeftSingleQuote: char := '\U{2018}'
  const RightSingleQuote: char := '\U{2019}'

  predicate IsCurlyQuote(c: char)
  {
    c == LeftDoubleQuote || c == RightDoubleQuote || c == LeftSingleQuote || c == RightSingleQuote
  }

  /** Every character of r occurs in s: the rewrite introduces nothing new. */
  predicate CharsWithin(r: string, s: string)
  {
    forall c :: c in r ==> c in s
  }

  /** s with every character of cs left out: what a rewrite that only drops or adds cs keeps. */
  function Without(s: string, cs: set<char>): (r: string)
    ensures |r| <= |s|
  {
    if s == [] then [] else (if s[0] in cs then [] else [s[0]]) + Without(s[1..], cs)
  }

  lemma {:induction false} WithoutAppend(a: string, b: string, cs: set<char>)
    ensures Without(a + b, cs) == Without(a, cs) + Without(b, cs)
    decreases |a|
  {
    if a == [] {
      assert a + b == b;
    } else {
      assert (a + b)[0] == a[0] && (a + b)[1..] == a[1..] + b;
      WithoutAppend(a[1..], b, cs);
    }
  }

  /** A text made only of characters of cs has nothing left. */
  lemma {:induction false} WithoutAll(s: string, cs: set<char>)
    requires forall i :: 0 <= i < |s| ==> s[i] in cs
    ensures Without(s, cs) == []
    decreases |s|
  {
    if s != [] {
      WithoutAll(s[1..], cs);
    }
  }

  /** s.replace("\r\n", "\n"). */
  function ReplaceCrLf(s: string): (r: string)
    ensures |r| <= |s|
    ensures CharsWithin(r, s)
  {
    if s == [] then []
    else if |s| >= 2 && s[0] == '\r' && s[1] == '\n' then "\n" + ReplaceCrLf(s[2..])
    else [s[0]] + ReplaceCrLf(s[1..])
  }

  /** A character-for-character substitution: every character of `from` becomes `to`. */
  function Translate(s: string, from: set<char>, to: char): (r: string)
    ensures |r| == |s|
    ensures forall i :: 0 <= i < |s| ==> r[i] == if s[i] in from then to else s[i]
  {
    if s == [] then [] else [if s[0] in from then to else s[0]] + Translate(s[1..], from, to)
  }

  /** Step 1: s.replace("\r\n", "\n").replace("\r", "\n"). No carriage return is left. */
  function UnifyLineEndings(s: string): (r: string)
    ensures |r| <= |s|
    ensures '\r' !in r
  {
    var r := Translate(ReplaceCrLf(s), {'\r'}, '\n');
    assert forall i :: 0 <= i < |r| ==> r[i] != '\r';
    r
  }

  /** Step 2: re.sub(r"[“”]", '"', s). */
  function StraightenDoubleQuotes(s: string): (r: string)
    ensures |r| == |s|
    ensures forall i :: 0 <= i < |s| ==>
      r[i] == if s[i] == LeftDoubleQuote || s[i] == RightDoubleQuote then '"' else s[i]
  {
    Translate(s, {LeftDoubleQuote, RightDoubleQuote}, '"')
  }

  /** Step 3: re.sub(r"[‘’]", "'", s). */
  function StraightenSingleQuotes(s: string): (r: string)
    ensures |r| == |s|
    ensures forall i :: 0 <= i < |s| ==>
      r[i] == if s[i] == LeftSingleQuote || s[i] == RightSingleQuote then '\'' else s[i]
  {
    Translate(s, {LeftSingleQuote, RightSingleQuote}, '\'')
  }

  /** The text as it reaches the de-hyphenation step. */
  function Prepared(s: string): (r: string)
    ensures |r| <= |s|
    ensures '\r' !in r
    ensures forall i :: 0 <= i < |r| ==> !IsCurlyQuote(r[i])
  {
    StraightenSingleQuotes(StraightenDoubleQuotes(UnifyLineEndings(s)))
  }

  /** A soft wrap `\w-\n\w` starts at index i. */
  predicate SoftWrapAt(s: string, i: int)
    requires 0 <= i && i + 3 < |s|
  {
    IsWordChar(s[i]) && s[i + 1] == '-' && s[i + 2] == '\n' && IsWordChar(s[i + 3])
  }

  predicate HasSoftWrap(s: string)
  {
    exists i :: 0 <= i && i + 3 < |s| && SoftWrapAt(s, i)
  }

  /** Two soft wraps sharing a word character, as in "a-\nb-\nc". */
  predicate HasChainedWraps(s: string)
  {
    exists i :: 0 <= i && i + 6 < |s| && SoftWrapAt(s, i) && SoftWrapAt(s, i + 3)
  }

  /**
   * Step 4: re.sub(r"(\w)-\n(\w)", r"\1\2", s). The scan tries a match at each position;
   * after a match it resumes behind the second word character.
   */
  function Dehyphenate(s: string): (r: string)
    ensures |r| <= |s|
    ensures s != [] ==> r != [] && r[0] == s[0]
    ensures CharsWithin(r, s)
  {
    if s == [] then []
    else if |s| >= 4 && SoftWrapAt(s, 0) then [s[0], s[3]] + Dehyphenate(s[4..])
    else [s[0]] + Dehyphenate(s[1..])
  }

  /** The number of "\n" that s starts with. */
  function NewlineRun(s: string): (n: nat)
    ensures n <= |s|
    ensures forall i :: 0 <= i < n ==> s[i] == '\n'
    ensures n < |s| ==> s[n] != '\n'
  {
    if s != [] && s[0] == '\n' then 1 + NewlineRun(s[1..]) else 0
  }

  predicate HasBreakRun3(s: string)
  {
    exists i :: 0 <= i && i + 2 < |s| && s[i] == '\n' && s[i + 1] == '\n' && s[i + 2] == '\n'
  }

  /** What every output of the normaliser satisfies (NormalFormShape). */
  predicate InNormalForm(t: string)
  {
    '\r' !in t && !HasBreakRun3(t) && forall i :: 0 <= i < |t| ==> !IsCurlyQuote(t[i])
  }

  /**
   * Step 5: re.sub(r"\n{3,}", "\n\n", s). The match is greedy, so a whole run of three or
   * more line feeds is replaced at once.
   */
  function CollapseBreaks(s: string): (r: string)
    ensures |r| <= |s|
    ensures CharsWithin(r, s)
  {
    if s == [] then []
    else if NewlineRun(s) >= 3 then "\n\n" + CollapseBreaks(s[NewlineRun(s)..])
    else [s[0]] + CollapseBreaks(s[1..])
  }

  /** A text with exactly n leading line feeds. */
  lemma {:induction false} NewlineRunIs(s: string, n: nat)
    requires n <= |s| && (forall i :: 0 <= i < n ==> s[i] == '\n') && (n < |s| ==> s[n] != '\n')
    ensures NewlineRun(s) == n
  {
    if n > 0 {
      NewlineRunIs(s[1..], n - 1);
    }
  }

  /** Collapsing keeps a leading run of at most two line feeds and shortens a longer one to two. */
  lemma {:induction false} CollapseBreaksRun(s: string)
    ensures NewlineRun(CollapseBreaks(s)) == if NewlineRun(s) < 2 then NewlineRun(s) else 2
    decreases |s|
  {
    if s == [] {
      return;
    }
    var k := NewlineRun(s);
    var r := CollapseBreaks(s);
    if k >= 3 {
      var rest := CollapseBreaks(s[k..]);
      assert r == "\n\n" + rest;
      CollapseBreaksRun(s[k..]);
      assert k < |s| ==> s[k..][0] == s[k];
      NewlineRunIs(s[k..], 0);
      NewlineRunIs(r, 2);
    } else {
      assert r == [s[0]] + CollapseBreaks(s[1..]);
      CollapseBreaksRun(s[1..]);
      if s[0] == '\n' {
        NewlineRunIs(s[1..], k - 1);
        NewlineRunIs(r, k);
      } else {
        NewlineRunIs(r, 0);
      }
    }
  }

  /** A character in front of a text without runs of three makes none, unless two line feeds follow it. */
  lemma NoRun3Prepend(x: char, rest: string)
    requires !HasBreakRun3(rest) && (x == '\n' ==> NewlineRun(rest) < 2)
    ensures !HasBreakRun3([x] + rest)
  {
    var r := [x] + rest;
    forall i | 0 <= i && i + 2 < |r| ensures !(r[i] == '\n' && r[i + 1] == '\n' && r[i + 2] == '\n') {
      if i >= 1 {
        assert r[i] == rest[i - 1] && r[i + 1] == rest[i] && r[i + 2] == rest[i + 1];
      } else if x == '\n' {
        assert r[1] == rest[0] && r[2] == rest[1];
      }
    }
  }

  /** Collapsing leaves no run of three line feeds anywhere. */
  lemma {:induction false} CollapseBreaksNoRun3(s: string)
    ensures !HasBreakRun3(CollapseBreaks(s))
    decreases |s|
  {
    if s == [] {
      return;
    }
    var k := NewlineRun(s);
    var r := CollapseBreaks(s);
    if k >= 3 {
      var rest := CollapseBreaks(s[k..]);
      assert r == ['\n'] + (['\n'] + rest);
      CollapseBreaksNoRun3(s[k..]);
      CollapseBreaksRun(s[k..]);
      assert k < |s| ==> s[k..][0] == s[k];
      NewlineRunIs(s[k..], 0);
      NoRun3Prepend('\n', rest);
      NewlineRunIs(['\n'] + rest, 1);
      NoRun3Prepend('\n', ['\n'] + rest);
    } else {
      var rest := CollapseBreaks(s[1..]);
      assert r == [s[0]] + rest;
      CollapseBreaksNoRun3(s[1..]);
      CollapseBreaksRun(s[1..]);
      if s[0] == '\n' {
        NewlineRunIs(s[1..], k - 1);
      }
      NoRun3Prepend(s[0], rest);
    }
  }

  // ---------------------------------------------------------------------------------------
  // What each rewrite keeps

  /** Dropping a smaller set of characters first and then a larger one drops the larger set. */
  lemma {:induction false} WithoutWithin(s: string, a: set<char>, b: set<char>)
    requires a <= b
    ensures Without(Without(s, a), b) == Without(s, b)
    decreases |s|
  {
    if s != [] {
      WithoutWithin(s[1..], a, b);
      WithoutAppend(if s[0] in a then [] else [s[0]], Without(s[1..], a), b);
    }
  }

  /** A substitution is applied to a concatenation piece by piece. */
  lemma {:induction false} TranslateAppend(a: string, b: string, from: set<char>, to: char)
    ensures Translate(a + b, from, to) == Translate(a, from, to) + Translate(b, from, to)
    decreases |a|
  {
    if a == [] {
      assert a + b == b;
    } else {
      assert (a + b)[0] == a[0] && (a + b)[1..] == a[1..] + b;
      TranslateAppend(a[1..], b, from, to);
    }
  }

  /** Replacing "\r\n" works piece by piece when the cut does not split a "\r\n". */
  lemma {:induction false} ReplaceCrLfAppend(a: string, b: string)
    requires a == [] || a[|a| - 1] != '\r'
    ensures ReplaceCrLf(a + b) == ReplaceCrLf(a) + ReplaceCrLf(b)
    decreases |a|
  {
    if a == [] {
      assert a + b == b;
    } else if |a| >= 2 && a[0] == '\r' && a[1] == '\n' {
      assert (a + b)[0] == '\r' && (a + b)[1] == '\n';
      assert (a + b)[2..] == a[2..] + b;
      ReplaceCrLfAppend(a[2..], b);
    } else {
      assert (a + b)[0] == a[0];
      assert a[0] == '\r' ==> |a| >= 2 && (a + b)[1] == a[1];
      assert (a + b)[1..] == a[1..] + b;
      ReplaceCrLfAppend(a[1..], b);
    }
  }

  /** Step 1 on a "\r" that is not followed by "\n": it becomes "\n" and the rest is unified. */
  lemma LoneCrBecomesLf(b: string)
    requires b == [] || b[0] != '\n'
    ensures UnifyLineEndings("\r" + b) == "\n" + UnifyLineEndings(b)
  {
    assert ("\r" + b)[1..] == b;
    assert ReplaceCrLf("\r" + b) == "\r" + ReplaceCrLf(b);
    TranslateAppend("\r", ReplaceCrLf(b), {'\r'}, '\n');
  }

  /** Step 1 on "\r\n": it becomes one "\n" and the rest is unified. */
  lemma CrLfBecomesLf(b: string)
    ensures UnifyLineEndings("\r\n" + b) == "\n" + UnifyLineEndings(b)
  {
    assert ("\r\n" + b)[2..] == b;
    assert ReplaceCrLf("\r\n" + b) == "\n" + ReplaceCrLf(b);
    TranslateAppend("\n", ReplaceCrLf(b), {'\r'}, '\n');
  }

  /** Step 1 keeps every character other than "\r" where it is. */
  lemma UnifyKeepsOther(c: char, b: string)
    requires c != '\r'
    ensures UnifyLineEndings([c] + b) == [c] + UnifyLineEndings(b)
  {
    assert ([c] + b)[1..] == b;
    assert ReplaceCrLf([c] + b) == [c] + ReplaceCrLf(b);
    TranslateAppend([c], ReplaceCrLf(b), {'\r'}, '\n');
  }

  /** De-hyphenation removes only "-" and "\n": every other character is kept, in order. */
  lemma {:induction false} DehyphenateKeepsText(s: string)
    ensures Without(Dehyphenate(s), {'-', '\n'}) == Without(s, {'-', '\n'})
    decreases |s|
  {
    var cs := {'-', '\n'};
    if s == [] {
      return;
    }
    if |s| >= 4 && SoftWrapAt(s, 0) {
      var head, tail := s[..4], s[4..];
      assert s == head + tail;
      DehyphenateKeepsText(tail);
      WithoutAppend(head, tail, cs);
      WithoutAppend([s[0], s[3]], Dehyphenate(tail), cs);
      assert head == [s[0]] + ['-', '\n'] + [s[3]];
      WithoutAppend([s[0]] + ['-', '\n'], [s[3]], cs);
      WithoutAppend([s[0]], ['-', '\n'], cs);
      WithoutAll(['-', '\n'], cs);
      WithoutAppend([s[0]], [s[3]], cs);
    } else {
      assert s == [s[0]] + s[1..];
      DehyphenateKeepsText(s[1..]);
      WithoutAppend([s[0]], s[1..], cs);
      WithoutAppend([s[0]], Dehyphenate(s[1..]), cs);
    }
  }

  /** Collapsing removes only line feeds: every other character is kept, in order. */
  lemma {:induction false} CollapseBreaksKeepsText(s: string)
    ensures Without(CollapseBreaks(s), {'\n'}) == Without(s, {'\n'})
    decreases |s|
  {
    var cs := {'\n'};
    if s == [] {
      return;
    }
    var k := NewlineRun(s);
    if k >= 3 {
      assert s == s[..k] + s[k..];
      CollapseBreaksKeepsText(s[k..]);
      WithoutAppend(s[..k], s[k..], cs);
      WithoutAll(s[..k], cs);
      WithoutAppend("\n\n", CollapseBreaks(s[k..]), cs);
      WithoutAll("\n\n", cs);
    } else {
      assert s == [s[0]] + s[1..];
      CollapseBreaksKeepsText(s[1..]);
      WithoutAppend([s[0]], s[1..], cs);
      WithoutAppend([s[0]], CollapseBreaks(s[1..]), cs);
    }
  }

  /**
   * _normalize. It never lengthens the text, and past the first three rewrites it removes
   * only "-" and "\n". NormalFormShape says what the result holds and NormalizeIdempotentIff
   * when a second pass changes it.
   */
  function Normalize(s: string): (r: string)
    ensures |r| <= |s|
    ensures Without(r, {'-', '\n'}) == Without(Prepared(s), {'-', '\n'})
  {
    var d := Dehyphenate(Prepared(s));
    DehyphenateKeepsText(Prepared(s));
    CollapseBreaksKeepsText(d);
    WithoutWithin(CollapseBreaks(d), {'\n'}, {'-', '\n'});
    WithoutWithin(d, {'\n'}, {'-', '\n'});
    CollapseBreaks(d)
  }

  // ---------------------------------------------------------------------------------------
  // What the normal form contains

  lemma {:induction false} ReplaceCrLfKeepsAbsent(s: string, c: char)
    requires c !in s
    ensures c !in ReplaceCrLf(s)
  {
  }

  /** The normal form has no carriage return, no curly quote and no run of three line feeds. */
  lemma NormalFormShape(s: string)
    ensures '\r' !in Normalize(s)
    ensures forall i :: 0 <= i < |Normalize(s)| ==> !IsCurlyQuote(Normalize(s)[i])
    ensures !HasBreakRun3(Normalize(s))
  {
    var u := UnifyLineEndings(s);
    assert '\r' !in u;
    var p := Prepared(s);
    assert '\r' !in p && forall i :: 0 <= i < |p| ==> !IsCurlyQuote(p[i]);
    var d := Dehyphenate(p);
    var t := CollapseBreaks(d);
    CollapseBreaksNoRun3(d);
    forall i | 0 <= i < |t| ensures !IsCurlyQuote(t[i]) {
      assert t[i] in t;
      assert t[i] in d;
      assert t[i] in p;
    }
  }

  // ---------------------------------------------------------------------------------------
  // Texts each step leaves unchanged

  lemma {:induction false} ReplaceCrLfFixes(s: string)
    requires '\r' !in s
    ensures ReplaceCrLf(s) == s
  {
    if s != [] {
      ReplaceCrLfFixes(s[1..]);
    }
  }

  /** A substitution changes nothing in a text without the characters it replaces. */
  lemma TranslateFixes(s: string, from: set<char>, to: char)
    requires forall i :: 0 <= i < |s| ==> s[i] !in from
    ensures Translate(s, from, to) == s
  {
  }

  /** A text without curly quotes passes steps 2 and 3 unchanged. */
  lemma StraightenFixes(s: string)
    requires forall i :: 0 <= i < |s| ==> !IsCurlyQuote(s[i])
    ensures StraightenSingleQuotes(StraightenDoubleQuotes(s)) == s
  {
    TranslateFixes(s, {LeftDoubleQuote, RightDoubleQuote}, '"');
    TranslateFixes(s, {LeftSingleQuote, RightSingleQuote}, '\'');
  }

  /** A text without carriage returns and curly quotes passes the first three steps unchanged. */
  lemma PreparedFixes(s: string)
    requires '\r' !in s
    requires forall i :: 0 <= i < |s| ==> !IsCurlyQuote(s[i])
    ensures Prepared(s) == s
  {
    ReplaceCrLfFixes(s);
    TranslateFixes(s, {'\r'}, '\n');
    StraightenFixes(s);
  }

  /** So does every normal form. */
  lemma PreparedFixesNormalForm(s: string)
    ensures Prepared(Normalize(s)) == Normalize(s)
  {
    NormalFormShape(s);
    PreparedFixes(Normalize(s));
  }

  lemma {:induction false} DehyphenateFixes(s: string)
    requires !HasSoftWrap(s)
    ensures Dehyphenate(s) == s
  {
    if s != [] {
      assert |s| >= 4 ==> !SoftWrapAt(s, 0);
      assert !HasSoftWrap(s[1..]) by {
        forall i | 0 <= i && i + 3 < |s[1..]| ensures !SoftWrapAt(s[1..], i) {
          assert !SoftWrapAt(s, i + 1);
        }
      }
      DehyphenateFixes(s[1..]);
    }
  }

  /** A soft wrap anywhere makes the scan find a match, which removes two characters. */
  lemma {:induction false} DehyphenateRemovesWrap(s: string)
    requires HasSoftWrap(s)
    ensures |Dehyphenate(s)| <= |s| - 2
  {
    var i :| 0 <= i && i + 3 < |s| && SoftWrapAt(s, i);
    if !(|s| >= 4 && SoftWrapAt(s, 0)) {
      assert SoftWrapAt(s[1..], i - 1);
      DehyphenateRemovesWrap(s[1..]);
    }
  }

  lemma {:induction false} CollapseBreaksFixes(s: string)
    requires !HasBreakRun3(s)
    ensures CollapseBreaks(s) == s
  {
    if s != [] {
      CollapseBreaksFixes(s[1..]);
    }
  }

  /** Step 5 on its own is idempotent. */
  lemma CollapseBreaksIdempotent(s: string)
    ensures CollapseBreaks(CollapseBreaks(s)) == CollapseBreaks(s)
  {
    CollapseBreaksNoRun3(s);
    CollapseBreaksFixes(CollapseBreaks(s));
  }

  /** Step 1 on its own is idempotent. */
  lemma UnifyLineEndingsIdempotent(s: string)
    ensures UnifyLineEndings(UnifyLineEndings(s)) == UnifyLineEndings(s)
  {
    var u := UnifyLineEndings(s);
    assert '\r' !in u;
    ReplaceCrLfFixes(u);
  }

  // ---------------------------------------------------------------------------------------
  // Which rewrites can create a soft wrap

  /** A character that no match can start at passes through the scan unchanged. */
  lemma DehyphenateSkips(s: string)
    requires s != [] && !IsWordChar(s[0])
    ensures Dehyphenate(s) == [s[0]] + Dehyphenate(s[1..])
  {
  }

  /** Soft wraps of a suffix are soft wraps of the whole text. */
  lemma SoftWrapInSuffix(s: string, k: nat, i: int)
    requires k <= |s| && 0 <= i && i + 3 < |s| - k
    ensures SoftWrapAt(s[k..], i) == SoftWrapAt(s, i + k)
  {
  }

  /** A wrap right behind a match comes from a second wrap sharing the matched word character. */
  lemma WrapBehindMatch(s: string)
    requires |s| >= 4 && SoftWrapAt(s, 0)
    ensures var r := [s[0], s[3]] + Dehyphenate(s[4..]);
      4 < |r| && SoftWrapAt(r, 1) ==> |s| > 6 && SoftWrapAt(s, 3)
  {
    var w := Dehyphenate(s[4..]);
    var r := [s[0], s[3]] + w;
    if 4 < |r| && SoftWrapAt(r, 1) {
      assert w[0] == s[4] == '-';
      DehyphenateSkips(s[4..]);
      assert s[4..][1..] == s[5..];
      assert Dehyphenate(s[5..])[0] == s[5] == '\n';
      DehyphenateSkips(s[5..]);
      assert s[5..][1..] == s[6..];
      assert Dehyphenate(s[6..])[0] == s[6];
    }
  }

  /** A wrap at the front of the output would have been matched at the front of the input. */
  lemma WrapAtFrontIsMatched(s: string)
    requires s != []
    ensures var r := [s[0]] + Dehyphenate(s[1..]);
      3 < |r| && SoftWrapAt(r, 0) ==> |s| >= 4 && SoftWrapAt(s, 0)
  {
    var w := Dehyphenate(s[1..]);
    var r := [s[0]] + w;
    if 3 < |r| && SoftWrapAt(r, 0) {
      assert w[0] == s[1] == '-';
      DehyphenateSkips(s[1..]);
      assert s[1..][1..] == s[2..];
      assert Dehyphenate(s[2..])[0] == s[2] == '\n';
      DehyphenateSkips(s[2..]);
      assert s[2..][1..] == s[3..];
      assert Dehyphenate(s[3..])[0] == s[3];
    }
  }

  /** Without chained wraps in its input, de-hyphenation leaves no soft wrap behind. */
  lemma {:induction false} DehyphenateClearsWraps(s: string)
    requires !HasChainedWraps(s)
    ensures !HasSoftWrap(Dehyphenate(s))
    decreases |s|
  {
    if s == [] {
      return;
    }
    var r := Dehyphenate(s);
    if |s| >= 4 && SoftWrapAt(s, 0) {
      var w := Dehyphenate(s[4..]);
      assert r == [s[0], s[3]] + w;
      assert !HasChainedWraps(s[4..]) by {
        forall i | 0 <= i && i + 6 < |s[4..]| && SoftWrapAt(s[4..], i)
          ensures !SoftWrapAt(s[4..], i + 3)
        {
          SoftWrapInSuffix(s, 4, i);
          SoftWrapInSuffix(s, 4, i + 3);
          assert !(SoftWrapAt(s, i + 4) && SoftWrapAt(s, i + 7));
        }
      }
      DehyphenateClearsWraps(s[4..]);
      WrapBehindMatch(s);
      forall i | 0 <= i && i + 3 < |r| ensures !SoftWrapAt(r, i) {
        if i >= 2 {
          assert SoftWrapAt(r, i) == SoftWrapAt(w, i - 2);
        }
      }
    } else {
      var w := Dehyphenate(s[1..]);
      assert r == [s[0]] + w;
      assert !HasChainedWraps(s[1..]) by {
        forall i | 0 <= i && i + 6 < |s[1..]| && SoftWrapAt(s[1..], i)
          ensures !SoftWrapAt(s[1..], i + 3)
        {
          SoftWrapInSuffix(s, 1, i);
          SoftWrapInSuffix(s, 1, i + 3);
          assert !(SoftWrapAt(s, i + 1) && SoftWrapAt(s, i + 4));
        }
      }
      DehyphenateClearsWraps(s[1..]);
      WrapAtFrontIsMatched(s);
      forall i | 0 <= i && i + 3 < |r| ensures !SoftWrapAt(r, i) {
        if i >= 1 {
          assert SoftWrapAt(r, i) == SoftWrapAt(w, i - 1);
        }
      }
    }
  }

  /** A text that does not start with a line feed keeps its first character. */
  lemma CollapseBreaksKeepsHead(s: string)
    requires s != [] && s[0] != '\n'
    ensures CollapseBreaks(s) == [s[0]] + CollapseBreaks(s[1..])
  {
  }

  /**
   * A wrap at the front of the collapsed text was already a wrap of the input: its line
   * feed is a run of one, which collapsing keeps as it is.
   */
  lemma CollapsedWrapAtFront(s: string)
    requires s != [] && NewlineRun(s) < 3
    ensures var r := [s[0]] + CollapseBreaks(s[1..]);
      3 < |r| && SoftWrapAt(r, 0) ==> 3 < |s| && SoftWrapAt(s, 0)
  {
    var w := CollapseBreaks(s[1..]);
    var r := [s[0]] + w;
    if 3 < |r| && SoftWrapAt(r, 0) {
      assert s[1] != '\n';
      CollapseBreaksKeepsHead(s[1..]);
      assert s[1..][1..] == s[2..];
      var w2 := CollapseBreaks(s[2..]);
      CollapseBreaksRun(s[2..]);
      assert w2[0] == '\n' && w2[1] != '\n';
      assert NewlineRun(w2) == 1;
      assert NewlineRun(s[2..]) == 1;
      assert s[2] == '\n';
      assert s[2..][1..] == s[3..];
      assert w2 == "\n" + CollapseBreaks(s[3..]);
      assert s[3] != '\n';
      CollapseBreaksKeepsHead(s[3..]);
    }
  }

  /** A text without soft wraps has none in any suffix. */
  lemma NoWrapInSuffix(s: string, k: nat)
    requires k <= |s| && !HasSoftWrap(s)
    ensures !HasSoftWrap(s[k..])
  {
    forall i | 0 <= i && i + 3 < |s[k..]| ensures !SoftWrapAt(s[k..], i) {
      SoftWrapInSuffix(s, k, i);
    }
  }

  /** Putting a head in front of a text without soft wraps creates none past the head. */
  lemma NoWrapBehindHead(h: string, w: string)
    requires !HasSoftWrap(w)
    ensures forall i :: |h| <= i && i + 3 < |h + w| ==> !SoftWrapAt(h + w, i)
  {
    forall i | |h| <= i && i + 3 < |h + w| ensures !SoftWrapAt(h + w, i) {
      SoftWrapInSuffix(h + w, |h|, i - |h|);
      assert (h + w)[|h|..] == w;
    }
  }

  /** Collapsing runs of line feeds never creates a soft wrap, which needs a single "\n". */
  lemma {:induction false} CollapseBreaksKeepsNoWrap(s: string)
    requires !HasSoftWrap(s)
    ensures !HasSoftWrap(CollapseBreaks(s))
    decreases |s|
  {
    if s == [] {
      return;
    }
    var r := CollapseBreaks(s);
    var k := NewlineRun(s);
    if k >= 3 {
      var w := CollapseBreaks(s[k..]);
      assert r == "\n\n" + w;
      NoWrapInSuffix(s, k);
      CollapseBreaksKeepsNoWrap(s[k..]);
      NoWrapBehindHead("\n\n", w);
    } else {
      var w := CollapseBreaks(s[1..]);
      assert r == [s[0]] + w;
      NoWrapInSuffix(s, 1);
      CollapseBreaksKeepsNoWrap(s[1..]);
      CollapsedWrapAtFront(s);
      NoWrapBehindHead([s[0]], w);
    }
  }

  // ---------------------------------------------------------------------------------------
  // Idempotence

  /**
   * Normalising twice gives the same text as normalising once exactly when the normal form
   * has no soft wrap left.
   */
  lemma NormalizeIdempotentIff(s: string)
    ensures Normalize(Normalize(s)) == Normalize(s) <==> !HasSoftWrap(Normalize(s))
  {
    var t := Normalize(s);
    PreparedFixesNormalForm(s);
    NormalFormShape(s);
    if HasSoftWrap(t) {
      DehyphenateRemovesWrap(t);
    } else {
      DehyphenateFixes(t);
      CollapseBreaksFixes(t);
    }
  }

  /** A text whose prepared form has no two chained wraps is normalised in one pass. */
  lemma NormalizeIdempotent(s: string)
    requires !HasChainedWraps(Prepared(s))
    ensures Normalize(Normalize(s)) == Normalize(s)
  {
    DehyphenateClearsWraps(Prepared(s));
    CollapseBreaksKeepsNoWrap(Dehyphenate(Prepared(s)));
    NormalizeIdempotentIff(s);
  }

  // ---------------------------------------------------------------------------------------
  // Worked examples

  /** Once de-hyphenation leaves no run of three line feeds, the last step changes nothing. */
  lemma NormalizeWithoutRuns(s: string, d: string)
    requires Dehyphenate(Prepared(s)) == d && !HasBreakRun3(d)
    ensures Normalize(s) == d
  {
    CollapseBreaksFixes(d);
  }

  /** A text already past the first three rewrites whose de-hyphenation holds no line feed is normalised to it. */
  lemma NormalizeWithoutBreaks(s: string, d: string)
    requires '\r' !in s && (forall i :: 0 <= i < |s| ==> !IsCurlyQuote(s[i]))
    requires Dehyphenate(s) == d && '\n' !in d
    ensures Normalize(s) == d
  {
    PreparedFixes(s);
    assert !HasBreakRun3(d);
    NormalizeWithoutRuns(s, d);
  }

  lemma ReplaceCrLfExample()
    ensures ReplaceCrLf("a-\r\nb") == "a-\nb"
  {
    assert ReplaceCrLf("b") == "b";
    assert ReplaceCrLf("\r\nb") == "\nb";
    assert ReplaceCrLf("-\r\nb") == "-\nb";
  }

  /** Step 1 turns the "\r\n" of "a-\r\nb" into "\n", and nothing else changes before step 4. */
  lemma PreparedCrLfWrap()
    ensures Prepared("a-\r\nb") == "a-\nb"
  {
    ReplaceCrLfExample();
    var u := "a-\nb";
    TranslateFixes(u, {'\r'}, '\n');
    assert UnifyLineEndings("a-\r\nb") == u;
    StraightenFixes(u);
  }

  /** Line endings are unified before de-hyphenation, so a wrap ending in "\r\n" is joined. */
  lemma CrLfWrapIsJoined()
    ensures Normalize("a-\r\nb") == "ab"
  {
    PreparedCrLfWrap();
    var p := "a-\nb";
    assert SoftWrapAt(p, 0);
    assert Dehyphenate(p) == "ab";
    NormalizeWithoutRuns("a-\r\nb", "ab");
  }

  /** The scan matches the first wrap and resumes on the '-' of the second. */
  lemma DehyphenateChained()
    ensures Dehyphenate("a-\nb-\nc") == "ab-\nc"
  {
    var s := "a-\nb-\nc";
    assert SoftWrapAt(s, 0);
    assert s[4..] == "-\nc";
    assert Dehyphenate("c") == "c";
    assert Dehyphenate("\nc") == "\nc";
    assert Dehyphenate("-\nc") == "-\nc";
  }

  /** "ab-\nc" holds a single line feed. */
  lemma SingleBreakExample()
    ensures !HasBreakRun3("ab-\nc")
  {
    var d := "ab-\nc";
    assert forall i :: 0 <= i < |d| && i != 3 ==> d[i] != '\n';
  }

  /** One pass over two chained wraps joins only the first. */
  lemma ChainedWrapsFirstPass()
    ensures Normalize("a-\nb-\nc") == "ab-\nc"
  {
    PreparedFixes("a-\nb-\nc");
    DehyphenateChained();
    SingleBreakExample();
    NormalizeWithoutRuns("a-\nb-\nc", "ab-\nc");
  }

  /** "ab-\nc" is de-hyphenated to "abc": the scan skips 'a' and matches at 'b'. */
  lemma DehyphenateExposed()
    ensures Dehyphenate("ab-\nc") == "abc"
  {
    var t := "ab-\nc";
    assert !SoftWrapAt(t, 0);
    assert t[1..] == "b-\nc";
    assert SoftWrapAt(t[1..], 0);
    assert Dehyphenate(t[1..]) == "bc";
  }

  /** The second pass joins the wrap the first pass exposed. */
  lemma ChainedWrapsSecondPass()
    ensures Normalize("ab-\nc") == "abc"
  {
    DehyphenateExposed();
    NormalizeWithoutBreaks("ab-\nc", "abc");
  }

  /** So the normaliser is not idempotent on "a-\nb-\nc". */
  lemma NormalizeNotIdempotent()
    ensures Normalize(Normalize("a-\nb-\nc")) != Normalize("a-\nb-\nc")
  {
    ChainedWrapsFirstPass();
    ChainedWrapsSecondPass();
  }
}
