/** The few pieces of Python's `str` and `list` behaviour that the sync job
    relies on, written out over `seq<char>` (a Dafny `char` is a Unicode
    scalar value, so a Python code point). */
module PyText {

  datatype Option<+T> = None | Some(value: T)

  function Min(a: int, b: int): int { if a <= b then a else b }
  function Max(a: int, b: int): int { if a <= b then b else a }

  // ---------------------------------------------------------------------
  // Character classes

  /** `c.isspace()`: the characters `str.strip()` with no argument removes. */
  predicate IsSpace(c: char) {
    ('\t' <= c <= '\r') || ('\U{1c}' <= c <= '\U{1f}') || c == ' ' ||
    c == '\U{85}' || c == '\U{a0}' || c == '\U{1680}' ||
    ('\U{2000}' <= c <= '\U{200a}') || c == '\U{2028}' || c == '\U{2029}' ||
    c == '\U{202f}' || c == '\U{205f}' || c == '\U{3000}'
  }

  /** The line boundaries at which `str.splitlines()` cuts. */
  predicate IsLineBreak(c: char) {
    c == '\n' || c == '\r' || c == '\U{b}' || c == '\U{c}' ||
    ('\U{1c}' <= c <= '\U{1e}') || c == '\U{85}' || c == '\U{2028}' || c == '\U{2029}'
  }

  lemma LineBreakIsSpace(c: char)
    requires IsLineBreak(c)
    ensures IsSpace(c)
  {
  }

  predicate NoLineBreak(s: string) {
    forall i | 0 <= i < |s| :: !IsLineBreak(s[i])
  }

  // ---------------------------------------------------------------------
  // Case folding

  /** `str.lower()` on ASCII letters; every other character is kept. */
  function LowerChar(c: char): char {
    if 'A' <= c <= 'Z' then (c as int - 'A' as int + 'a' as int) as char else c
  }

  function Lower(s: string): (r: string)
    ensures |r| == |s|
    ensures forall i | 0 <= i < |s| :: r[i] == LowerChar(s[i])
  {
    if s == [] then [] else [LowerChar(s[0])] + Lower(s[1..])
  }

  /** Lower-casing twice is lower-casing once. */
  lemma {:induction false} LowerIdempotent(s: string)
    ensures Lower(Lower(s)) == Lower(s)
  {
    var l := Lower(s);
    assert forall i | 0 <= i < |s| :: LowerChar(l[i]) == l[i];
  }

  // ---------------------------------------------------------------------
  // Substrings

  /** `t` occurs in `s` at offset `i`. */
  predicate OccursAt(s: string, t: string, i: int) {
    0 <= i <= |s| - |t| && s[i..i + |t|] == t
  }

  /** `t in s` for strings: `t` occurs in `s` at some offset. */
  predicate Contains(s: string, t: string) {
    exists i | 0 <= i <= |s| - |t| :: OccursAt(s, t, i)
  }

  /** `s[:n]` for any integer `n`, with Python's rule for negative bounds. */
  function SliceTo<T>(s: seq<T>, n: int): (r: seq<T>)
    ensures |r| == if n >= 0 then Min(n, |s|) else Max(0, |s| + n)
    ensures r == s[..|r|]
  {
    if n >= 0 then (if n <= |s| then s[..n] else s)
    else if |s| + n >= 0 then s[..|s| + n]
    else []
  }

  /** `s[:n]` for a non-negative bound: the first `n` elements, or all of them. */
  function Take<T>(s: seq<T>, n: nat): (r: seq<T>)
    ensures |r| == Min(n, |s|) && r == s[..|r|]
  {
    SliceTo(s, n)
  }

  /** Cutting twice at the same bound changes nothing more. */
  lemma TakeIdempotent<T>(s: seq<T>, n: nat)
    ensures Take(Take(s, n), n) == Take(s, n)
  {
  }

  // ---------------------------------------------------------------------
  // strip()

  /** `s.lstrip()`. */
  function StripLeft(s: string): string {
    if s != [] && IsSpace(s[0]) then StripLeft(s[1..]) else s
  }

  /** `s.rstrip()`. */
  function StripRight(s: string): string {
    if s != [] && IsSpace(s[|s| - 1]) then StripRight(s[..|s| - 1]) else s
  }

  /** `s.lstrip()` drops a whitespace prefix and keeps the rest, which does
      not start with whitespace. */
  lemma {:induction false} StripLeftSpec(s: string)
    ensures var r := StripLeft(s);
      |r| <= |s| && r == s[|s| - |r|..] &&
      (forall i | 0 <= i < |s| - |r| :: IsSpace(s[i])) &&
      (r != [] ==> !IsSpace(r[0]))
  {
    if s != [] && IsSpace(s[0]) {
      var t := s[1..];
      StripLeftSpec(t);
      var r := StripLeft(t);
      assert t[|t| - |r|..] == s[|s| - |r|..];
      forall i | 0 <= i < |s| - |r| ensures IsSpace(s[i]) {
        if i > 0 { assert s[i] == t[i - 1]; }
      }
    }
  }

  /** `s.rstrip()` drops a whitespace suffix and keeps the rest, which does
      not end with whitespace. */
  lemma {:induction false} StripRightSpec(s: string)
    ensures var r := StripRight(s);
      |r| <= |s| && r == s[..|r|] &&
      (forall i | |r| <= i < |s| :: IsSpace(s[i])) &&
      (r != [] ==> !IsSpace(r[|r| - 1]))
  {
    if s != [] && IsSpace(s[|s| - 1]) {
      var t := s[..|s| - 1];
      StripRightSpec(t);
      var r := StripRight(t);
      assert t[..|r|] == s[..|r|];
      forall i | |r| <= i < |s| ensures IsSpace(s[i]) {
        if i < |t| { assert s[i] == t[i]; }
      }
    }
  }

  /** `r` is `s[a..b]` and everything of `s` outside it is whitespace. */
  predicate StrippedSlice(s: string, r: string, a: int, b: int) {
    0 <= a <= b <= |s| && r == s[a..b] &&
    (forall i | 0 <= i < a :: IsSpace(s[i])) && (forall i | b <= i < |s| :: IsSpace(s[i]))
  }

  /** `s.strip()`. */
  function Strip(s: string): string {
    StripRight(StripLeft(s))
  }

  /** `s.strip()` is a slice of `s` with only whitespace outside it, and
      neither starts nor ends with whitespace. */
  lemma StripSpec(s: string)
    ensures exists a, b :: StrippedSlice(s, Strip(s), a, b)
    ensures var r := Strip(s); r != [] ==> !IsSpace(r[0]) && !IsSpace(r[|r| - 1])
  {
    var l := StripLeft(s);
    var r := StripRight(l);
    StripLeftSpec(s);
    StripRightSpec(l);
    if r != [] {
      assert r[0] == l[0];
    }
    assert r == Strip(s);
    assert StrippedSlice(s, Strip(s), |s| - |l|, |s| - |l| + |r|);
  }

  /** `s.strip()` is empty exactly when `s` is all whitespace. */
  lemma StripEmptyIff(s: string)
    ensures Strip(s) == [] <==> forall i | 0 <= i < |s| :: IsSpace(s[i])
  {
    var r := Strip(s);
    StripSpec(s);
    var a, b :| StrippedSlice(s, r, a, b);
    if r != [] {
      assert s[a] == r[0];
    } else {
      forall i | 0 <= i < |s| ensures IsSpace(s[i]) {
        if i < a {} else { assert b <= i; }
      }
    }
  }

  // ---------------------------------------------------------------------
  // splitlines()

  /** Index of the first line boundary in `s`, or `|s|` when there is none. */
  function FirstBreak(s: string): (k: nat)
    ensures k <= |s| && NoLineBreak(s[..k])
    ensures k < |s| ==> IsLineBreak(s[k])
  {
    if s == [] then 0
    else if IsLineBreak(s[0]) then 0
    else 1 + FirstBreak(s[1..])
  }

  /** `s.splitlines()`: the lines of `s` without their boundaries; `"\r\n"` is
      one boundary and a boundary at the very end opens no empty last line. */
  function SplitLines(s: string): (ls: seq<string>)
    ensures forall i | 0 <= i < |ls| :: NoLineBreak(ls[i])
    ensures |ls| <= |s|
    decreases |s|
  {
    if s == [] then []
    else
      var k := FirstBreak(s);
      if k == |s| then [s]
      else
        var w := if s[k] == '\r' && k + 1 < |s| && s[k + 1] == '\n' then 2 else 1;
        [s[..k]] + SplitLines(s[k + w..])
  }

  /** `sep.join(xs)`. */
  function Join(xs: seq<string>, sep: string): string {
    if xs == [] then ""
    else if |xs| == 1 then xs[0]
    else xs[0] + sep + Join(xs[1..], sep)
  }

  /** Splitting the `"\n"`-join of break-free lines gives the lines back,
      provided the last line is not empty (a trailing newline opens no line). */
  lemma {:induction false} SplitLinesOfJoin(ls: seq<string>)
    requires forall i | 0 <= i < |ls| :: NoLineBreak(ls[i])
    requires ls != [] ==> ls[|ls| - 1] != ""
    ensures SplitLines(Join(ls, "\n")) == ls
  {
    if |ls| == 1 {
      FirstBreakOfPlain(ls[0]);
    } else if |ls| > 1 {
      var rest := Join(ls[1..], "\n");
      assert Join(ls, "\n") == ls[0] + "\n" + rest;
      SplitLinesAfterNewline(ls[0], rest);
      SplitLinesOfJoin(ls[1..]);
    }
  }

  /** A break-free line followed by `"\n"` splits off as one line. */
  lemma SplitLinesAfterNewline(a: string, rest: string)
    requires NoLineBreak(a)
    ensures SplitLines(a + "\n" + rest) == [a] + SplitLines(rest)
  {
    var s := a + "\n" + rest;
    FirstBreakAfterPlain(a, "\n" + rest);
    assert s == a + ("\n" + rest);
    assert s[|a|] == '\n';
    assert s[..|a|] == a;
    assert s[|a| + 1..] == rest;
  }

  lemma FirstBreakOfPlain(s: string)
    requires NoLineBreak(s)
    ensures FirstBreak(s) == |s|
  {
  }

  lemma {:induction false} FirstBreakAfterPlain(s: string, t: string)
    requires NoLineBreak(s) && t != [] && IsLineBreak(t[0])
    ensures FirstBreak(s + t) == |s|
  {
    if s != [] {
      assert (s + t)[1..] == s[1..] + t;
      FirstBreakAfterPlain(s[1..], t);
    }
  }

  // ---------------------------------------------------------------------
  // replace()

  /** `s.replace(pat, rep)`: left to right, non-overlapping occurrences. */
  function Replace(s: string, pat: string, rep: string): string
    requires pat != []
    decreases |s|
  {
    if |s| < |pat| then s
    else if s[..|pat|] == pat then rep + Replace(s[|pat|..], pat, rep)
    else [s[0]] + Replace(s[1..], pat, rep)
  }

  /** The two-character text backslash-n (not a newline). */
  const EscapedNewline: string := ['\\', 'n']

  /** Replacing backslash-n by a space never lengthens the text, leaves no
      backslash-n behind, and keeps every real newline: the result holds
      exactly as many newlines as the input. */
  lemma ReplaceEscapedNewline(s: string)
    ensures var r := Replace(s, EscapedNewline, " ");
      |r| <= |s| && !Contains(r, EscapedNewline) &&
      multiset(r)['\n'] == multiset(s)['\n']
  {
    var r := Replace(s, EscapedNewline, " ");
    ReplaceRemovesEscapes(s);
    ReplaceKeepsNewlines(s);
    OccurrencesMultiset(r, '\n');
    OccurrencesMultiset(s, '\n');
  }

  /** The replacement never lengthens the text and leaves no backslash-n. */
  lemma {:induction false} ReplaceRemovesEscapes(s: string)
    ensures var r := Replace(s, EscapedNewline, " ");
      |r| <= |s| && !Contains(r, EscapedNewline)
  {
    var r := Replace(s, EscapedNewline, " ");
    if |s| < 2 {
      NoEscapeInShort(r);
    } else if s[..2] == EscapedNewline {
      var t := Replace(s[2..], EscapedNewline, " ");
      ReplaceRemovesEscapes(s[2..]);
      assert r == " " + t;
      NoEscapeAfterSpace(t);
    } else {
      var t := Replace(s[1..], EscapedNewline, " ");
      ReplaceRemovesEscapes(s[1..]);
      assert r == [s[0]] + t;
      ReplaceHead(s[1..]);
      NoEscapeAfterChar(s[0], t, s[1..]);
    }
  }

  lemma {:induction false} ReplaceKeepsNewlines(s: string)
    ensures Occurrences(Replace(s, EscapedNewline, " "), '\n') == Occurrences(s, '\n')
    decreases |s|
  {
    if |s| < 2 {
    } else if s[..2] == EscapedNewline {
      var t := Replace(s[2..], EscapedNewline, " ");
      ReplaceKeepsNewlines(s[2..]);
      assert Replace(s, EscapedNewline, " ") == " " + t;
      OccurrencesAppend(" ", t, '\n');
      assert s == EscapedNewline + s[2..];
      OccurrencesAppend(EscapedNewline, s[2..], '\n');
    } else {
      var t := Replace(s[1..], EscapedNewline, " ");
      ReplaceKeepsNewlines(s[1..]);
      assert Replace(s, EscapedNewline, " ") == [s[0]] + t;
      OccurrencesAppend([s[0]], t, '\n');
      assert s == [s[0]] + s[1..];
      OccurrencesAppend([s[0]], s[1..], '\n');
    }
  }

  /** The number of times `c` occurs in `s`. */
  function Occurrences(s: string, c: char): nat {
    if s == [] then 0 else (if s[0] == c then 1 else 0) + Occurrences(s[1..], c)
  }

  lemma {:induction false} OccurrencesAppend(a: string, b: string, c: char)
    ensures Occurrences(a + b, c) == Occurrences(a, c) + Occurrences(b, c)
  {
    if a == [] {
      assert a + b == b;
    } else {
      assert (a + b)[1..] == a[1..] + b;
      OccurrencesAppend(a[1..], b, c);
    }
  }

  /** The count is the character's multiplicity in the multiset of `s`. */
  lemma {:induction false} OccurrencesMultiset(s: string, c: char)
    ensures Occurrences(s, c) == multiset(s)[c]
  {
    if s != [] {
      OccurrencesMultiset(s[1..], c);
      assert s == [s[0]] + s[1..];
      assert multiset(s) == multiset([s[0]]) + multiset(s[1..]);
    }
  }

  lemma NoEscapeInShort(r: string)
    requires |r| < 2
    ensures !Contains(r, EscapedNewline)
  {
  }

  lemma NoEscapeAfterSpace(t: string)
    requires !Contains(t, EscapedNewline)
    ensures !Contains(" " + t, EscapedNewline)
  {
    var r := " " + t;
    forall i ensures !OccursAt(r, EscapedNewline, i) {
      if 0 < i <= |r| - 2 {
        assert r[i..i + 2] == t[i - 1..i + 1];
        assert !OccursAt(t, EscapedNewline, i - 1);
      } else if i == 0 && |r| >= 2 {
        assert r[0] == ' ';
      }
    }
  }

  /** The first character of the replaced text of a non-empty `s`. */
  lemma ReplaceHead(s: string)
    ensures var t := Replace(s, EscapedNewline, " ");
      s != [] ==> t != [] && t[0] == (if |s| >= 2 && s[..2] == EscapedNewline then ' ' else s[0])
  {
  }

  lemma NoEscapeAfterChar(c: char, t: string, s: string)
    requires !Contains(t, EscapedNewline)
    requires s != [] ==> t != [] && t[0] == (if |s| >= 2 && s[..2] == EscapedNewline then ' ' else s[0])
    requires s == [] ==> t == []
    requires !(|[c] + s| >= 2 && ([c] + s)[..2] == EscapedNewline)
    ensures !Contains([c] + t, EscapedNewline)
  {
    var r := [c] + t;
    forall i ensures !OccursAt(r, EscapedNewline, i) {
      if 0 < i <= |r| - 2 {
        assert r[i..i + 2] == t[i - 1..i + 1];
        assert !OccursAt(t, EscapedNewline, i - 1);
      } else if i == 0 && |r| >= 2 {
        assert r[0] == c && r[1] == t[0];
        if |s| >= 2 && s[..2] == EscapedNewline {
          assert t[0] == ' ';
        } else {
          assert ([c] + s)[..2] == [c, s[0]];
        }
      }
    }
  }

  // ---------------------------------------------------------------------
  // Rendering values the way an f-string does

  /** `f"{x}"` for an optional string: the string itself, or `None`. */
  function Show(x: Option<string>): string {
    match x
    case None => "None"
    case Some(s) => s
  }

  function DigitChar(d: nat): (c: char)
    requires d < 10
    ensures '0' <= c <= '9' && c as int - '0' as int == d
  {
    "0123456789"[d]
  }

  predicate AllDigits(s: string) {
    forall i | 0 <= i < |s| :: '0' <= s[i] <= '9'
  }

  /** `str(n)` for a non-negative integer: its decimal digits, no leading zero. */
  function Decimal(n: nat): (r: string)
    ensures r != [] && AllDigits(r)
    ensures r[0] == '0' ==> n == 0
  {
    if n < 10 then [DigitChar(n)] else Decimal(n / 10) + [DigitChar(n % 10)]
  }

  /** The number a string of decimal digits denotes. */
  function DecimalValue(s: string): nat
    requires AllDigits(s)
  {
    if s == [] then 0 else DecimalValue(s[..|s| - 1]) * 10 + (s[|s| - 1] as int - '0' as int)
  }

  /** Reading back the decimal rendering of `n` gives `n`. */
  lemma {:induction false} DecimalRoundTrip(n: nat)
    ensures DecimalValue(Decimal(n)) == n
  {
    if n >= 10 {
      var d := Decimal(n / 10);
      DecimalRoundTrip(n / 10);
      assert (d + [DigitChar(n % 10)])[..|d|] == d;
    }
  }

  // ---------------------------------------------------------------------
  // Ordering of strings

  /** Python's `a < b` on `str`: code-point lexicographic order. */
  predicate LexLess(a: string, b: string) {
    if a == [] then b != []
    else if b == [] then false
    else if a[0] != b[0] then a[0] < b[0]
    else LexLess(a[1..], b[1..])
  }

  lemma {:induction false} LexLessIrreflexive(a: string)
    ensures !LexLess(a, a)
  {
    if a != [] { LexLessIrreflexive(a[1..]); }
  }

  lemma {:induction false} LexLessTransitive(a: string, b: string, c: string)
    requires LexLess(a, b) && LexLess(b, c)
    ensures LexLess(a, c)
  {
    if a != [] && b != [] && c != [] && a[0] == b[0] && b[0] == c[0] {
      LexLessTransitive(a[1..], b[1..], c[1..]);
    }
  }

  /** Any two distinct strings are ordered one way or the other. */
  lemma {:induction false} LexLessTotal(a: string, b: string)
    requires a != b
    ensures LexLess(a, b) || LexLess(b, a)
  {
    if a != [] && b != [] && a[0] == b[0] {
      assert a == [a[0]] + a[1..] && b == [b[0]] + b[1..];
      LexLessTotal(a[1..], b[1..]);
    }
  }
}
