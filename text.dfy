/** The Python string and regular-expression primitives the application relies on:
    `str.isspace`, `str.strip`, lower-casing, substring tests, `str.split('\n')`,
    `str.splitlines()`, `str(int)`, and the whole-word test `\bWORD\b` under
    `re.IGNORECASE`. Case mapping, `\w` and `\d` are modelled on ASCII. */
module Text {
  import opened Basics

  // ---------------------------------------------------------------- characters

  /** Python's `str.isspace` (also the class `\s` of `re` on `str` patterns). */
  predicate IsSpace(c: char) {
    var n := c as int;
    (9 <= n <= 13) || (28 <= n <= 32) || n == 0x85 || n == 0xA0 || n == 0x1680
    || (0x2000 <= n <= 0x200A) || n == 0x2028 || n == 0x2029 || n == 0x202F
    || n == 0x205F || n == 0x3000
  }

  /** The characters `str.splitlines()` ends a line at. */
  predicate IsLineBoundary(c: char) {
    var n := c as int;
    (10 <= n <= 13) || (28 <= n <= 30) || n == 0x85 || n == 0x2028 || n == 0x2029
  }

  predicate IsDigit(c: char) { '0' <= c <= '9' }

  predicate AllDigits(s: string) {
    forall i :: 0 <= i < |s| ==> IsDigit(s[i])
  }

  predicate NotLineBoundary(c: char) { !IsLineBoundary(c) }

  /** The regular-expression class `\w`, restricted to ASCII. */
  predicate IsWordChar(c: char) {
    ('a' <= c <= 'z') || ('A' <= c <= 'Z') || IsDigit(c) || c == '_'
  }

  function LowerChar(c: char): char {
    if 'A' <= c <= 'Z' then (c as int + 32) as char else c
  }

  /** SQLite's `LOWER` (ASCII only), and the model of Python's `str.lower`. */
  function AsciiLower(s: string): (r: string)
    ensures |r| == |s|
    ensures forall i :: 0 <= i < |s| ==> r[i] == LowerChar(s[i])
  {
    seq(|s|, i requires 0 <= i < |s| => LowerChar(s[i]))
  }

  lemma AsciiLowerSlice(s: string, i: nat, j: nat)
    requires i <= j <= |s|
    ensures AsciiLower(s)[i..j] == AsciiLower(s[i..j])
  {
  }

  // ---------------------------------------------------------------- stripping

  function TrimLeft(s: string): (r: string)
    ensures |r| <= |s| && r == s[|s| - |r|..]
    ensures r == [] || !IsSpace(r[0])
    ensures forall k :: 0 <= k < |s| - |r| ==> IsSpace(s[k])
  {
    if s != [] && IsSpace(s[0]) then TrimLeft(s[1..]) else s
  }

  function TrimRight(s: string): (r: string)
    ensures |r| <= |s| && r == s[..|r|]
    ensures r == [] || !IsSpace(r[|r| - 1])
    ensures forall k :: |r| <= k < |s| ==> IsSpace(s[k])
  {
    if s != [] && IsSpace(s[|s| - 1]) then TrimRight(s[..|s| - 1]) else s
  }

  /** Python's `str.strip()`: the input with its leading and trailing whitespace removed. */
  function Strip(s: string): (r: string)
    ensures |r| <= |s|
    ensures r == [] || (!IsSpace(r[0]) && !IsSpace(r[|r| - 1]))
  {
    TrimRight(TrimLeft(s))
  }

  /** Whitespace at the end of a suffix `l` of `s` is whitespace at the end of `s`. */
  lemma {:induction false} SpacesAfter(s: string, i: nat, l: string, n: nat)
    requires i <= |s| && l == s[i..] && n <= |l|
    requires forall k :: n <= k < |l| ==> IsSpace(l[k])
    ensures forall k :: i + n <= k < |s| ==> IsSpace(s[k])
  {
    forall k | i + n <= k < |s| ensures IsSpace(s[k]) {
      assert s[k] == l[k - i];
    }
  }

  /** What `strip` keeps is one piece of the input with only whitespace around it. */
  lemma {:induction false} StripWindow(s: string)
    ensures var r, i := Strip(s), |s| - |TrimLeft(s)|;
            i + |r| <= |s| && r == s[i..i + |r|]
            && (forall k :: 0 <= k < i ==> IsSpace(s[k]))
            && (forall k :: i + |r| <= k < |s| ==> IsSpace(s[k]))
  {
    var l := TrimLeft(s);
    var r := TrimRight(l);
    assert Strip(s) == r;
    SuffixPrefixSlice(s, l, r);
    SpacesAfter(s, |s| - |l|, l, |r|);
  }

  /** Stripping twice changes nothing more. */
  lemma StripIdempotent(s: string)
    ensures Strip(Strip(s)) == Strip(s)
  {
    var r := Strip(s);
    assert TrimLeft(r) == r;
    assert TrimRight(r) == r;
  }

  // ---------------------------------------------------------------- substrings

  predicate OccursAt(hay: string, needle: string, i: int) {
    0 <= i && i + |needle| <= |hay| && hay[i..i + |needle|] == needle
  }

  /** Python's `needle in hay`. */
  predicate Contains(hay: string, needle: string) {
    exists i :: 0 <= i <= |hay| - |needle| && OccursAt(hay, needle, i)
  }

  /** SQLite's `hay LIKE '%needle%'` (ASCII case-insensitive), and the list pages'
      `needle.lower() in hay.lower()`. */
  predicate ContainsIgnoreCase(hay: string, needle: string) {
    Contains(AsciiLower(hay), AsciiLower(needle))
  }

  // ---------------------------------------------------------------- whole words

  predicate IsWordAt(s: string, k: int) {
    0 <= k < |s| && IsWordChar(s[k])
  }

  /** `\b` holds at position `q` of `s`. */
  predicate IsBoundary(s: string, q: int) {
    IsWordAt(s, q - 1) != IsWordAt(s, q)
  }

  /** `re.match(r'\b' + re.escape(word) + r'\b', s[p:], re.IGNORECASE)` in the context of the whole of `s`. */
  predicate WholeWordAt(word: string, s: string, p: int) {
    0 <= p && p + |word| <= |s|
    && AsciiLower(s[p..p + |word|]) == AsciiLower(word)
    && IsBoundary(s, p) && IsBoundary(s, p + |word|)
  }

  /** `re.search(r'\b' + re.escape(word) + r'\b', s, re.IGNORECASE)` found a match. */
  predicate WholeWordMatch(word: string, s: string) {
    exists p :: 0 <= p <= |s| - |word| && WholeWordAt(word, s, p)
  }

  /** A whole-word match is in particular a case-insensitive substring match. */
  lemma WholeWordImpliesContains(word: string, s: string)
    requires WholeWordMatch(word, s)
    ensures ContainsIgnoreCase(s, word)
  {
    var p :| 0 <= p <= |s| - |word| && WholeWordAt(word, s, p);
    AsciiLowerSlice(s, p, p + |word|);
    assert OccursAt(AsciiLower(s), AsciiLower(word), p);
  }

  /** A word that starts with a word character never matches where the text has a word
      character just before it: "apple" is not found inside "pineapple". */
  lemma NoMatchInsideWord(word: string, s: string, p: int)
    requires 0 < p <= |s| && word != [] && IsWordChar(word[0]) && IsWordChar(s[p - 1])
    ensures !WholeWordAt(word, s, p)
  {
    if WholeWordAt(word, s, p) {
      assert AsciiLower(s[p..p + |word|])[0] == AsciiLower(word)[0];
      assert IsWordChar(s[p]);
    }
  }

  /** A word that ends with a word character never matches where the text has a word
      character just after it: "apple" is not found at the start of "apples". */
  lemma NoMatchBeforeWordChar(word: string, s: string, p: int)
    requires 0 <= p && word != [] && IsWordChar(word[|word| - 1])
    requires p + |word| < |s| && IsWordChar(s[p + |word|])
    ensures !WholeWordAt(word, s, p)
  {
  }

  /** Illustrations of the two lemmas above, and of a match that ignores case. */
  lemma PineappleIsNotApple()
    ensures !WholeWordMatch("apple", "pineapple")
  {
    forall p | 0 <= p <= 4 ensures !WholeWordAt("apple", "pineapple", p) {
      if p > 0 {
        NoMatchInsideWord("apple", "pineapple", p);
      } else {
        assert AsciiLower("pineapple"[0..5])[0] == 'p';
      }
    }
  }

  lemma ApplesIsNotApple()
    ensures !WholeWordMatch("apple", "apples")
  {
    forall p | 0 <= p <= 1 ensures !WholeWordAt("apple", "apples", p) {
      if p == 0 {
        NoMatchBeforeWordChar("apple", "apples", p);
      } else {
        NoMatchInsideWord("apple", "apples", p);
      }
    }
  }

  lemma AppleInSentence()
    ensures WholeWordMatch("apple", "An Apple.")
  {
    var s := "An Apple.";
    assert s[3..8] == "Apple";
    assert AsciiLower("Apple") == AsciiLower("apple");
    assert WholeWordAt("apple", s, 3);
  }

  // ---------------------------------------------------------------- line splitting

  /** `sep.join(parts)`. */
  function JoinWith(parts: seq<string>, sep: char): string
    requires |parts| >= 1
  {
    if |parts| == 1 then parts[0] else parts[0] + [sep] + JoinWith(parts[1..], sep)
  }

  /** Python's `s.split(sep)` for a one-character separator. */
  function SplitOn(s: string, sep: char): (r: seq<string>)
    ensures |r| >= 1
    ensures forall k :: 0 <= k < |r| ==> sep !in r[k]
    ensures JoinWith(r, sep) == s
  {
    if s == [] then [""]
    else if s[0] == sep then
      var rest := SplitOn(s[1..], sep);
      assert ([""] + rest)[1..] == rest;
      [""] + rest
    else
      var rest := SplitOn(s[1..], sep);
      var r := [[s[0]] + rest[0]] + rest[1..];
      assert r[1..] == rest[1..];
      assert |rest| > 1 ==> JoinWith(rest, sep) == rest[0] + [sep] + JoinWith(rest[1..], sep);
      r
  }

  /** A field free of the separator, then the separator: `split` yields that field first. */
  lemma {:induction false} SplitOnAfter(a: string, b: string, sep: char)
    requires sep !in a
    ensures SplitOn(a + [sep] + b, sep) == [a] + SplitOn(b, sep)
  {
    var s := a + [sep] + b;
    if a == [] {
      assert s[1..] == b;
    } else {
      assert s[0] == a[0] && s[1..] == a[1..] + [sep] + b;
      SplitOnAfter(a[1..], b, sep);
      assert [a[0]] + a[1..] == a;
    }
  }

  function Concat(parts: seq<string>): string {
    if parts == [] then [] else parts[0] + Concat(parts[1..])
  }

  /** The width of the line break at `k`: two for `"\r\n"`, one otherwise. */
  function BreakWidth(s: string, k: nat): (w: nat)
    requires k < |s| && IsLineBoundary(s[k])
    ensures 1 <= w <= 2 && k + w <= |s|
    ensures forall j :: k <= j < k + w ==> IsLineBoundary(s[j])
  {
    if s[k] == '\r' && k + 1 < |s| && s[k + 1] == '\n' then 2 else 1
  }

  /** Python's `s.splitlines()`: a line ends at any line-boundary character, `"\r\n"` counts as
      one boundary, and a final boundary does not start an empty last line. */
  function SplitLines(s: string): (r: seq<string>)
    ensures forall k, i :: 0 <= k < |r| && 0 <= i < |r[k]| ==> !IsLineBoundary(r[k][i])
    decreases |s|
  {
    if s == [] then []
    else
      match FirstIndex(s, IsLineBoundary)
      case None => [s]
      case Some(k) => [s[..k]] + SplitLines(s[k + BreakWidth(s, k)..])
  }

  lemma {:induction false} KeptBefore(s: string, k: nat)
    requires k <= |s|
    requires forall j :: 0 <= j < k ==> !IsLineBoundary(s[j])
    ensures forall j :: 0 <= j < k ==> NotLineBoundary(s[j])
  {
  }

  lemma {:induction false} DroppedBreak(s: string, k: nat, w: nat)
    requires k + w <= |s|
    requires forall j :: k <= j < k + w ==> IsLineBoundary(s[j])
    ensures forall j :: k <= j < k + w ==> !NotLineBoundary(s[j])
  {
  }

  /** Filtering the boundaries out of a text that starts with a line and its break. */
  lemma {:induction false} FilterLine(s: string, k: nat)
    requires k < |s| && IsLineBoundary(s[k])
    requires forall j :: 0 <= j < k ==> !IsLineBoundary(s[j])
    ensures Filter(s, NotLineBoundary) == s[..k] + Filter(s[k + BreakWidth(s, k)..], NotLineBoundary)
  {
    var w := BreakWidth(s, k);
    KeptBefore(s, k);
    DroppedBreak(s, k, w);
    FilterAround(s, k, w, NotLineBoundary);
  }

  /** A line followed by its break: `splitlines` returns the line, then the lines of the rest;
      `"\r\n"` is one break and any other boundary character is one break on its own. */
  lemma {:induction false} SplitLinesAtBreak(line: string, br: string, rest: string)
    requires forall i :: 0 <= i < |line| ==> !IsLineBoundary(line[i])
    requires br == "\r\n" || (|br| == 1 && IsLineBoundary(br[0]) && (br[0] == '\r' ==> rest == [] || rest[0] != '\n'))
    ensures SplitLines(line + br + rest) == [line] + SplitLines(rest)
  {
    var s := line + br + rest;
    var k := |line|;
    assert s[k] == br[0];
    assert forall j :: 0 <= j < k ==> s[j] == line[j];
    assert FirstIndex(s, IsLineBoundary) == Some(k);
    assert s[..k] == line;
    assert s[k + BreakWidth(s, k)..] == rest;
  }

  /** Text without a boundary character is one line; the empty text has no lines. */
  lemma {:induction false} SplitLinesOneLine(line: string)
    requires forall i :: 0 <= i < |line| ==> !IsLineBoundary(line[i])
    ensures SplitLines(line) == if line == [] then [] else [line]
  {
    if line != [] {
      assert FirstIndex(line, IsLineBoundary).None?;
    }
  }

  /** `splitlines` loses exactly the line-boundary characters: gluing the lines back together
      gives the input without them. */
  lemma {:induction false} SplitLinesLosesOnlyBoundaries(s: string)
    ensures Concat(SplitLines(s)) == Filter(s, NotLineBoundary)
    decreases |s|
  {
    if s != [] {
      match FirstIndex(s, IsLineBoundary)
      case None =>
        FilterKeepsAll(s, NotLineBoundary);
        assert Concat([s]) == s + Concat([]);
      case Some(k) =>
        var rest := s[k + BreakWidth(s, k)..];
        SplitLinesLosesOnlyBoundaries(rest);
        FilterLine(s, k);
        var r := [s[..k]] + SplitLines(rest);
        assert r[1..] == SplitLines(rest);
    }
  }

  // ---------------------------------------------------------------- numbers

  function DigitChar(d: nat): (c: char)
    requires d < 10
    ensures IsDigit(c)
  {
    ('0' as int + d) as char
  }

  /** Python's `str(n)` for a natural number: its decimal digits, most significant first. */
  function NatToString(n: nat): (r: string)
    ensures |r| >= 1
    ensures forall i :: 0 <= i < |r| ==> IsDigit(r[i])
  {
    if n < 10 then [DigitChar(n)] else NatToString(n / 10) + [DigitChar(n % 10)]
  }

  /** Python's `str(n)` for any integer. */
  function IntToString(n: int): (r: string)
    ensures r != [] && (r[0] == '-' || IsDigit(r[0]))
  {
    if n < 0 then "-" + NatToString(-n) else NatToString(n)
  }

  /** The value of a string of decimal digits (the inverse of `NatToString`). */
  function ParseNat(s: string): nat
    requires forall i :: 0 <= i < |s| ==> IsDigit(s[i])
  {
    if s == [] then 0
    else
      assert IsDigit(s[|s| - 1]);
      ParseNat(s[..|s| - 1]) * 10 + (s[|s| - 1] as int - '0' as int)
  }

  lemma {:induction false} NatToStringRoundTrip(n: nat)
    ensures ParseNat(NatToString(n)) == n
  {
    if n >= 10 {
      NatToStringRoundTrip(n / 10);
      var s := NatToString(n);
      assert s[..|s| - 1] == NatToString(n / 10);
    }
  }

  /** Different numbers print differently. */
  lemma NatToStringInjective(m: nat, n: nat)
    requires NatToString(m) == NatToString(n)
    ensures m == n
  {
    NatToStringRoundTrip(m);
    NatToStringRoundTrip(n);
  }
}
