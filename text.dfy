/**
 * The few Python string operations the ingestion code relies on, with Python's meaning:
 * str.strip / str.strip(chars), str.join, str.splitlines, str.lower (compared only
 * against ASCII words), str.endswith and the decimal str(int) of an f-string.
 */
module Text {

  /** The characters for which Python's str.isspace() holds; str.strip() removes these. */
  predicate IsSpace(c: char)
  {
    ('\t' <= c <= '\r') || ('\U{001C}' <= c <= ' ') || c == '\U{0085}' || c == '\U{00A0}' ||
    c == '\U{1680}' || ('\U{2000}' <= c <= '\U{200A}') || c == '\U{2028}' || c == '\U{2029}' ||
    c == '\U{202F}' || c == '\U{205F}' || c == '\U{3000}'
  }

  const Whitespace: set<char> := set c: char | '\0' <= c <= '\U{3000}' && IsSpace(c)

  /**
   * The line boundaries at which Python's str.splitlines() splits: \n, \v, \f, \r, the
   * file/group/record separators, NEL and the Unicode line and paragraph separators
   * ("\r\n" counts as one boundary).
   */
  predicate IsLineBreak(c: char)
  {
    ('\n' <= c <= '\r') || ('\U{001C}' <= c <= '\U{001E}') || c == '\U{0085}' ||
    c == '\U{2028}' || c == '\U{2029}'
  }

  const LineBreaks: set<char> := set c: char | '\0' <= c <= '\U{2029}' && IsLineBreak(c)

  predicate IsBlank(s: string) { forall i :: 0 <= i < |s| ==> IsSpace(s[i]) }

  /**
   * s.strip(chars): leading characters of `chars` are dropped, then trailing ones. Dropping
   * from either end first gives the same text, which lets the definition take them one at
   * a time. What the result looks like is stated by TrimFacts.
   */
  function Trim(s: string, chars: set<char>): (r: string)
    ensures |r| <= |s|
    decreases |s|
  {
    if s != [] && s[0] in chars then Trim(s[1..], chars)
    else if s != [] && s[|s| - 1] in chars then Trim(s[..|s| - 1], chars)
    else s
  }

  /**
   * strip(chars) empties exactly the texts made only of characters in `chars`, and what
   * it leaves neither starts nor ends with one of them.
   */
  lemma {:induction false} TrimFacts(s: string, chars: set<char>)
    ensures Trim(s, chars) == [] <==> forall i :: 0 <= i < |s| ==> s[i] in chars
    ensures Trim(s, chars) != [] ==>
      Trim(s, chars)[0] !in chars && Trim(s, chars)[|Trim(s, chars)| - 1] !in chars
    decreases |s|
  {
    if s != [] && s[0] in chars {
      TrimFacts(s[1..], chars);
      assert forall i :: 1 <= i < |s| ==> s[i] == s[1..][i - 1];
    } else if s != [] && s[|s| - 1] in chars {
      TrimFacts(s[..|s| - 1], chars);
      assert forall i :: 0 <= i < |s| - 1 ==> s[i] == s[..|s| - 1][i];
    }
  }

  /** A piece of s[1..] cut by `chars`, widened by a leading character in `chars`, is a piece of s. */
  lemma CutFront(s: string, chars: set<char>, a: nat, b: nat)
    requires s != [] && s[0] in chars && a <= b <= |s| - 1
    requires forall i :: 0 <= i < a ==> s[1..][i] in chars
    requires forall i :: b <= i < |s| - 1 ==> s[1..][i] in chars
    ensures s[1..][a..b] == s[a + 1..b + 1]
    ensures forall i :: 0 <= i < a + 1 ==> s[i] in chars
    ensures forall i :: b + 1 <= i < |s| ==> s[i] in chars
  {
    assert forall i :: 1 <= i < |s| ==> s[i] == s[1..][i - 1];
  }

  /** A piece of s without its last character, which is in `chars`, is a piece of s. */
  lemma CutBack(s: string, t: string, chars: set<char>, a: nat, b: nat)
    requires s != [] && s[|s| - 1] in chars && t == s[..|s| - 1] && a <= b <= |t|
    requires forall i :: b <= i < |t| ==> t[i] in chars
    ensures t[a..b] == s[a..b]
    ensures forall i :: b <= i < |s| ==> s[i] in chars
  {
  }

  /**
   * strip(chars) cuts only at the ends: the result is the piece s[a..b] of the input, and
   * everything cut off before a and from b on is in `chars`.
   */
  lemma {:induction false} TrimIsSlice(s: string, chars: set<char>)
    ensures exists a, b ::
              0 <= a <= b <= |s| && Trim(s, chars) == s[a..b] &&
              (forall i :: 0 <= i < a ==> s[i] in chars) && (forall i :: b <= i < |s| ==> s[i] in chars)
    decreases |s|
  {
    if s != [] && s[0] in chars {
      var t := s[1..];
      TrimIsSlice(t, chars);
      var a, b :| 0 <= a <= b <= |t| && Trim(t, chars) == t[a..b] &&
        (forall i :: 0 <= i < a ==> t[i] in chars) && (forall i :: b <= i < |t| ==> t[i] in chars);
      CutFront(s, chars, a, b);
      assert Trim(s, chars) == s[a + 1..b + 1];
    } else if s != [] && s[|s| - 1] in chars {
      var t := s[..|s| - 1];
      TrimIsSlice(t, chars);
      var a, b :| 0 <= a <= b <= |t| && Trim(t, chars) == t[a..b] &&
        (forall i :: 0 <= i < a ==> t[i] in chars) && (forall i :: b <= i < |t| ==> t[i] in chars);
      CutBack(s, t, chars, a, b);
      assert Trim(s, chars) == s[a..b];
    } else {
      assert Trim(s, chars) == s[0..|s|];
    }
  }

  /** strip(chars) only removes characters: a character absent from s is absent from the result. */
  lemma {:induction false} TrimKeepsAbsent(s: string, chars: set<char>, absent: set<char>)
    requires forall i :: 0 <= i < |s| ==> s[i] !in absent
    ensures forall i :: 0 <= i < |Trim(s, chars)| ==> Trim(s, chars)[i] !in absent
    decreases |s|
  {
    if s != [] && s[0] in chars {
      TrimKeepsAbsent(s[1..], chars, absent);
    } else if s != [] && s[|s| - 1] in chars {
      TrimKeepsAbsent(s[..|s| - 1], chars, absent);
    }
  }

  /** s.strip() with no argument: whitespace at both ends (StripFacts says what is left). */
  function Strip(s: string): (r: string)
    ensures |r| <= |s|
  {
    Trim(s, Whitespace)
  }

  /** strip() empties exactly the blank texts and leaves no whitespace at either end. */
  lemma StripFacts(s: string)
    ensures Strip(s) == [] <==> IsBlank(s)
    ensures Strip(s) != [] ==> !IsSpace(Strip(s)[0]) && !IsSpace(Strip(s)[|Strip(s)| - 1])
  {
    TrimFacts(s, Whitespace);
  }

  /** strip() cuts only whitespace, and only at the ends: the result is a piece s[a..b] of s. */
  lemma StripIsSlice(s: string)
    ensures exists a, b ::
              0 <= a <= b <= |s| && Strip(s) == s[a..b] &&
              (forall i :: 0 <= i < a ==> IsSpace(s[i])) && (forall i :: b <= i < |s| ==> IsSpace(s[i]))
  {
    TrimIsSlice(s, Whitespace);
    var a, b :| 0 <= a <= b <= |s| && Trim(s, Whitespace) == s[a..b] &&
      (forall i :: 0 <= i < a ==> s[i] in Whitespace) && (forall i :: b <= i < |s| ==> s[i] in Whitespace);
    assert Strip(s) == s[a..b];
  }

  /** A text that starts and ends with a character outside `chars` is left alone by strip. */
  lemma TrimKeepsTrimmed(s: string, chars: set<char>)
    requires s != [] ==> s[0] !in chars && s[|s| - 1] !in chars
    ensures Trim(s, chars) == s
  {
  }

  /** strip is idempotent. */
  lemma StripIdempotent(s: string)
    ensures Strip(Strip(s)) == Strip(s)
  {
    StripFacts(s);
    TrimKeepsTrimmed(Strip(s), Whitespace);
  }

  /** sep.join(parts). */
  function Join(sep: string, parts: seq<string>): (r: string)
    ensures parts == [] ==> r == []
    ensures parts != [] ==> |r| >= |parts[0]| && r[..|parts[0]|] == parts[0]
  {
    if parts == [] then []
    else if |parts| == 1 then parts[0]
    else parts[0] + sep + Join(sep, parts[1..])
  }

  /** The last part is a suffix of the joined text. */
  lemma {:induction false} JoinEndsWithLast(sep: string, parts: seq<string>)
    requires parts != []
    ensures var r := Join(sep, parts); var last := parts[|parts| - 1];
      |r| >= |last| && r[|r| - |last|..] == last
  {
    if |parts| > 1 {
      JoinEndsWithLast(sep, parts[1..]);
      assert parts[1..][|parts[1..]| - 1] == parts[|parts| - 1];
    }
  }

  /** Joining one more part adds the separator and that part: every part is in the result, in order. */
  lemma {:induction false} JoinAppend(sep: string, parts: seq<string>, p: string)
    requires parts != []
    ensures Join(sep, parts + [p]) == Join(sep, parts) + sep + p
    decreases |parts|
  {
    var ps := parts + [p];
    assert ps[0] == parts[0];
    if |parts| == 1 {
      assert ps[1..] == [p];
    } else {
      assert ps[1..] == parts[1..] + [p];
      JoinAppend(sep, parts[1..], p);
    }
  }

  /**
   * Joining parts that are non-empty and already stripped gives a text that strip leaves
   * unchanged, and that is empty exactly when there are no parts.
   */
  lemma JoinOfStrippedIsStripped(sep: string, parts: seq<string>)
    requires forall k :: 0 <= k < |parts| ==> parts[k] != [] && Strip(parts[k]) == parts[k]
    ensures Join(sep, parts) == [] <==> parts == []
    ensures Strip(Join(sep, parts)) == Join(sep, parts)
  {
    var r := Join(sep, parts);
    if parts != [] {
      var first, last := parts[0], parts[|parts| - 1];
      StripFacts(first);
      StripFacts(last);
      assert r[0] == r[..|first|][0] == first[0];
      JoinEndsWithLast(sep, parts);
      assert r[|r| - 1] == r[|r| - |last|..][|last| - 1] == last[|last| - 1];
      TrimKeepsTrimmed(r, Whitespace);
    }
  }

  /** Python's str.lower() on one character, where the result can be an ASCII letter. */
  function LowerChar(c: char): char
  {
    if 'A' <= c <= 'Z' then (c as int + 32) as char
    else if c == '\U{212A}' then 'k'  // KELVIN SIGN lower-cases to ASCII 'k'
    else c
  }

  /** s.lower(), exact whenever the result is compared with an ASCII lower-case word. */
  function Lower(s: string): (r: string)
    ensures |r| == |s|
    ensures forall i :: 0 <= i < |s| ==> r[i] == LowerChar(s[i])
  {
    if s == [] then [] else [LowerChar(s[0])] + Lower(s[1..])
  }

  /** s.endswith(suffix). */
  predicate EndsWith(s: string, suffix: string)
  {
    |suffix| <= |s| && s[|s| - |suffix|..] == suffix
  }

  /** s.endswith(suffix) holds exactly when s is some text followed by suffix. */
  lemma EndsWithIff(s: string, suffix: string)
    ensures EndsWith(s, suffix) <==> exists k :: 0 <= k <= |s| && s[k..] == suffix
  {
    if exists k :: 0 <= k <= |s| && s[k..] == suffix {
      var k :| 0 <= k <= |s| && s[k..] == suffix;
      assert k == |s| - |suffix|;
    }
  }

  /** The index of the first line boundary of s, or |s| when there is none. */
  function LineEnd(s: string): (i: nat)
    ensures i <= |s|
    ensures i < |s| ==> s[i] in LineBreaks
    ensures forall j :: 0 <= j < i ==> s[j] !in LineBreaks
  {
    if s == [] || s[0] in LineBreaks then 0 else 1 + LineEnd(s[1..])
  }

  /** s.splitlines(): the lines of s without their boundaries; a final boundary opens no line. */
  function SplitLines(s: string): (lines: seq<string>)
    ensures forall k, j :: 0 <= k < |lines| && 0 <= j < |lines[k]| ==> lines[k][j] !in LineBreaks
    ensures s == [] <==> lines == []
    ensures s != [] ==> lines[0] == s[..LineEnd(s)]
    decreases |s|
  {
    if s == [] then []
    else
      var i := LineEnd(s);
      if i == |s| then [s]
      else
        var next := if s[i] == '\r' && i + 1 < |s| && s[i + 1] == '\n' then i + 2 else i + 1;
        [s[..i]] + SplitLines(s[next..])
  }

  predicate IsDigit(c: char) { '0' <= c <= '9' }

  predicate IsDecimal(s: string) { forall i :: 0 <= i < |s| ==> IsDigit(s[i]) }

  /** str(n) for a non-negative int: its decimal digits, most significant first. */
  function NatToString(n: nat): (r: string)
    ensures r != [] && IsDecimal(r)
  {
    var d := ('0' as int + n % 10) as char;
    if n < 10 then [d] else NatToString(n / 10) + [d]
  }

  /** int(s) for a string of decimal digits. */
  function ParseNat(s: string): nat
    requires IsDecimal(s)
  {
    if s == [] then 0 else 10 * ParseNat(s[..|s| - 1]) + (s[|s| - 1] as int - '0' as int)
  }

  /** The decimal rendering can be read back, so distinct numbers render differently. */
  lemma {:induction false} ParseNatToString(n: nat)
    ensures ParseNat(NatToString(n)) == n
  {
    var r := NatToString(n);
    assert r[..|r| - 1] == if n < 10 then [] else NatToString(n / 10);
    if n >= 10 {
      ParseNatToString(n / 10);
    }
  }

  lemma NatToStringInjective(m: nat, n: nat)
    requires NatToString(m) == NatToString(n)
    ensures m == n
  {
    ParseNatToString(m);
    ParseNatToString(n);
  }

  /**
   * Two texts that each end in a run of decimal digits preceded by a non-digit split the
   * same way: equal texts have equal digit runs and equal heads.
   */
  lemma DigitSuffixSplit(x: string, a: string, y: string, b: string)
    requires x != [] && !IsDigit(x[|x| - 1]) && y != [] && !IsDigit(y[|y| - 1])
    requires IsDecimal(a) && IsDecimal(b)
    requires x + a == y + b
    ensures a == b && x == y
  {
    var s := x + a;
    assert a == s[|x|..] && b == s[|y|..];
    assert x == s[..|x|] && y == s[..|y|];
  }
}
