/**
 * The .NET string operations the converters rely on, on strings as sequences
 * of Unicode code points: whitespace, trimming, splitting into lines,
 * StringBuilder.AppendLine, decimal formatting and ordinal string order.
 */
module Text {

  /** Environment.NewLine of the Windows desktop host. */
  const NewLine: string := "\r\n"

  /** char.IsWhiteSpace, which is also the set that the regex class `\s` matches. */
  predicate IsWhiteSpace(c: char) {
    ('\t' <= c <= '\r') || c == ' ' || c == '\U{85}' || c == '\U{A0}' || c == '\U{1680}'
    || ('\U{2000}' <= c <= '\U{200A}') || c == '\U{2028}' || c == '\U{2029}'
    || c == '\U{202F}' || c == '\U{205F}' || c == '\U{3000}'
  }

  /** string.IsNullOrWhiteSpace on a non-null string. */
  predicate IsBlank(s: string) {
    forall i :: 0 <= i < |s| ==> IsWhiteSpace(s[i])
  }

  /** Neither end of `s` is whitespace. */
  predicate IsTrimmed(s: string) {
    s == [] || (!IsWhiteSpace(s[0]) && !IsWhiteSpace(s[|s| - 1]))
  }

  /** string.TrimEnd(): drops the trailing whitespace. */
  function TrimEnd(s: string): (r: string)
    ensures |r| <= |s| && r == s[..|r|]
    ensures r == [] || !IsWhiteSpace(r[|r| - 1])
    ensures IsBlank(s[|r|..])
    ensures IsBlank(s) ==> r == []
  {
    if s != [] && IsWhiteSpace(s[|s| - 1]) then
      var r := TrimEnd(s[..|s| - 1]);
      assert s[..|s| - 1][..|r|] == s[..|r|];
      assert s[|r|..] == s[..|s| - 1][|r|..] + [s[|s| - 1]];
      r
    else s
  }

  /** string.TrimStart(): drops the leading whitespace. */
  function TrimStart(s: string): (r: string)
    ensures |r| <= |s| && r == s[|s| - |r|..]
    ensures r == [] || !IsWhiteSpace(r[0])
    ensures IsBlank(s[..|s| - |r|])
  {
    if s != [] && IsWhiteSpace(s[0]) then
      var r := TrimStart(s[1..]);
      assert s[1..][..|s| - 1 - |r|] == s[1..|s| - |r|];
      assert s[..|s| - |r|] == [s[0]] + s[1..|s| - |r|];
      r
    else s
  }

  /** string.Trim(): drops whitespace at both ends. */
  function Trim(s: string): (r: string)
    ensures IsTrimmed(r)
    ensures |r| <= |s|
    ensures IsBlank(s) ==> r == []
  {
    var e := TrimEnd(s);
    var r := TrimStart(e);
    assert r != [] ==> r[|r| - 1] == e[|e| - 1];
    r
  }

  lemma {:induction false} BlankPrefix(p: string, s: string)
    requires IsBlank(p) && (s == [] || !IsWhiteSpace(s[0]))
    ensures TrimStart(p + s) == s
    decreases |p|
  {
    if p == [] {
      assert p + s == s;
    } else {
      var t, rest := p + s, p[1..];
      assert t[0] == p[0] && t[1..] == rest + s;
      assert IsBlank(rest) by {
        forall i | 0 <= i < |rest|
          ensures IsWhiteSpace(rest[i])
        {
          assert rest[i] == p[i + 1];
        }
      }
      BlankPrefix(rest, s);
    }
  }

  lemma {:induction false} BlankSuffix(s: string, q: string)
    requires IsBlank(q) && (s == [] || !IsWhiteSpace(s[|s| - 1]))
    ensures TrimEnd(s + q) == s
    decreases |q|
  {
    if q == [] {
      assert s + q == s;
    } else {
      var t, rest := s + q, q[..|q| - 1];
      assert t[|t| - 1] == q[|q| - 1] && t[..|t| - 1] == s + rest;
      assert IsBlank(rest) by {
        forall i | 0 <= i < |rest|
          ensures IsWhiteSpace(rest[i])
        {
          assert rest[i] == q[i];
        }
      }
      BlankSuffix(s, rest);
    }
  }

  /** Trimming removes exactly the whitespace padding around a trimmed string. */
  lemma {:induction false} TrimPadded(p: string, s: string, q: string)
    requires IsBlank(p) && IsBlank(q) && IsTrimmed(s) && s != []
    ensures Trim(p + s + q) == s
  {
    BlankSuffix(p + s, q);
    BlankPrefix(p, s);
  }

  /** A trimmed string is its own trim. */
  lemma {:induction false} TrimTrimmed(s: string)
    requires IsTrimmed(s)
    ensures Trim(s) == s
  {
    if s != [] {
      assert [] + s + [] == s;
      TrimPadded([], s, []);
    }
  }

  predicate StartsWith(s: string, prefix: string) {
    |prefix| <= |s| && s[..|prefix|] == prefix
  }

  predicate IsLineBreak(c: char) {
    c == '\r' || c == '\n'
  }

  predicate NoLineBreak(s: string) {
    forall i :: 0 <= i < |s| ==> !IsLineBreak(s[i])
  }

  /** A concatenation has no line break exactly when neither part has one. */
  lemma NoLineBreakConcat(a: string, b: string)
    ensures NoLineBreak(a + b) <==> NoLineBreak(a) && NoLineBreak(b)
  {
    if NoLineBreak(a + b) {
      forall k | 0 <= k < |b| ensures !IsLineBreak(b[k]) {
        assert (a + b)[|a| + k] == b[k];
      }
      forall k | 0 <= k < |a| ensures !IsLineBreak(a[k]) {
        assert (a + b)[k] == a[k];
      }
    }
    if NoLineBreak(a) && NoLineBreak(b) {
      forall k | 0 <= k < |a + b| ensures !IsLineBreak((a + b)[k]) {
        if k < |a| { assert (a + b)[k] == a[k]; } else { assert (a + b)[k] == b[k - |a|]; }
      }
    }
  }

  /** A slice of a string without line breaks has none either. */
  lemma NoLineBreakSlice(s: string, i: nat, j: nat)
    requires i <= j <= |s| && NoLineBreak(s)
    ensures NoLineBreak(s[i..j])
  {
    assert forall k :: 0 <= k < j - i ==> s[i..j][k] == s[i + k];
  }

  /** The index of the first '\r' or '\n' of `s`, or |s| when there is none. */
  function LineEnd(s: string): (n: nat)
    ensures n <= |s|
    ensures NoLineBreak(s[..n])
    ensures n < |s| ==> IsLineBreak(s[n])
  {
    if s == [] || IsLineBreak(s[0]) then 0
    else
      var n := 1 + LineEnd(s[1..]);
      assert s[..n] == [s[0]] + s[1..][..n - 1];
      n
  }

  /**
   * s.Split(new[] { '\r', '\n' }, StringSplitOptions.RemoveEmptyEntries):
   * the maximal runs of non-line-break characters, in order.
   */
  function SplitLines(s: string): (lines: seq<string>)
    ensures forall i :: 0 <= i < |lines| ==> lines[i] != [] && NoLineBreak(lines[i])
    ensures NoLineBreak(s) ==> lines == (if s == [] then [] else [s])
    decreases |s|
  {
    if s == [] then []
    else
      var n := LineEnd(s);
      assert NoLineBreak(s) ==> n == |s| && s[..n] == s;
      (if n > 0 then [s[..n]] else []) + (if n < |s| then SplitLines(s[n + 1..]) else [])
  }

  /** The first line break of `l + [c] + rest` is `c`, when `l` has none. */
  lemma LineEndAtBreak(l: string, c: char, rest: string)
    requires NoLineBreak(l) && IsLineBreak(c)
    ensures LineEnd(l + [c] + rest) == |l|
  {
    var t := l + [c] + rest;
    assert t[|l|] == c;
    assert forall k :: 0 <= k < |l| ==> t[k] == l[k];
  }

  /**
   * Splitting text whose first line break follows `l` gives `l`, unless it
   * is empty, then the pieces of the rest: every break ends a piece, and
   * empty pieces (from "\r\n", runs of blank lines or a leading break) are dropped.
   */
  lemma SplitLinesBreak(l: string, c: char, rest: string)
    requires NoLineBreak(l) && IsLineBreak(c)
    ensures SplitLines(l + [c] + rest) == (if l == [] then [] else [l]) + SplitLines(rest)
  {
    var t := l + [c] + rest;
    LineEndAtBreak(l, c, rest);
    assert t[..|l|] == l && t[|l| + 1..] == rest;
  }

  /** The text a StringBuilder holds after one AppendLine per element of `lines`. */
  function JoinLines(lines: seq<string>): string {
    if lines == [] then [] else lines[0] + NewLine + JoinLines(lines[1..])
  }

  predicate IsSplittable(lines: seq<string>) {
    forall i :: 0 <= i < |lines| ==> lines[i] != [] && NoLineBreak(lines[i])
  }

  lemma SplittableCons(l: string, lines: seq<string>)
    requires l != [] && NoLineBreak(l) && IsSplittable(lines)
    ensures IsSplittable([l] + lines)
  {
    assert forall i :: 1 <= i < |lines| + 1 ==> ([l] + lines)[i] == lines[i - 1];
  }

  lemma {:induction false} LineEndOfLine(l: string, rest: string)
    requires NoLineBreak(l)
    ensures LineEnd(l + NewLine + rest) == |l|
  {
    if l == [] {
      assert l + NewLine + rest == NewLine + rest;
    } else {
      assert (l + NewLine + rest)[1..] == l[1..] + NewLine + rest;
      LineEndOfLine(l[1..], rest);
    }
  }

  /** Splitting undoes AppendLine for lines that are non-empty and hold no line break. */
  lemma {:induction false} SplitJoin(lines: seq<string>)
    requires IsSplittable(lines)
    ensures SplitLines(JoinLines(lines)) == lines
  {
    if lines != [] {
      var l, rest := lines[0], JoinLines(lines[1..]);
      assert JoinLines(lines) == l + NewLine + rest;
      SplitLinesNewLine(l, rest);
      SplitJoin(lines[1..]);
      assert lines == [l] + lines[1..];
    }
  }

  /** One AppendLine of a non-empty line adds exactly that line in front of the pieces. */
  lemma SplitLinesNewLine(l: string, rest: string)
    requires l != [] && NoLineBreak(l)
    ensures SplitLines(l + NewLine + rest) == [l] + SplitLines(rest)
  {
    var s := l + NewLine + rest;
    LineEndOfLine(l, rest);
    assert s[..|l|] == l;
    assert s[|l| + 1..] == "\n" + rest;
    assert LineEnd("\n" + rest) == 0;
    assert ("\n" + rest)[1..] == rest;
    assert SplitLines("\n" + rest) == SplitLines(rest);
  }

  /** Text that starts with a non-whitespace character is not blank. */
  lemma NotBlank(s: string)
    requires s != [] && !IsWhiteSpace(s[0])
    ensures !IsBlank(s)
  {
  }

  function DigitChar(d: nat): (c: char)
    requires d < 10
    ensures '0' <= c <= '9'
  {
    ['0', '1', '2', '3', '4', '5', '6', '7', '8', '9'][d]
  }

  predicate IsDigits(s: string) {
    forall i :: 0 <= i < |s| ==> '0' <= s[i] <= '9'
  }

  /** int.ToString() for a non-negative value: its decimal digits. */
  function NatToString(n: nat): (s: string)
    ensures s != [] && IsDigits(s)
    ensures n < 10 <==> |s| == 1
  {
    if n < 10 then [DigitChar(n)] else NatToString(n / 10) + [DigitChar(n % 10)]
  }

  /** Distinct numbers have distinct decimal texts. */
  lemma {:induction false} NatToStringInjective(a: nat, b: nat)
    requires NatToString(a) == NatToString(b)
    ensures a == b
  {
    if a >= 10 && b >= 10 {
      var sa, sb := NatToString(a), NatToString(b);
      assert sa[..|sa| - 1] == NatToString(a / 10);
      assert sb[..|sb| - 1] == NatToString(b / 10);
      NatToStringInjective(a / 10, b / 10);
      assert DigitChar(a % 10) == sa[|sa| - 1] == DigitChar(b % 10);
      DigitCharInjective(a % 10, b % 10);
    } else if a < 10 && b < 10 {
      DigitCharInjective(a, b);
    }
  }

  lemma DigitCharInjective(a: nat, b: nat)
    requires a < 10 && b < 10 && DigitChar(a) == DigitChar(b)
    ensures a == b
  {
  }

  /**
   * Ordinal (code point) order on strings, standing for the culture-aware
   * default string comparer of LINQ's OrderBy.
   */
  predicate LexLe(a: string, b: string)
    decreases |a|
  {
    a == [] || (b != [] && (a[0] < b[0] || (a[0] == b[0] && LexLe(a[1..], b[1..]))))
  }

  lemma {:induction false} LexLeTotal(a: string, b: string)
    ensures LexLe(a, b) || LexLe(b, a)
    decreases |a|
  {
    if a != [] && b != [] && a[0] == b[0] {
      LexLeTotal(a[1..], b[1..]);
    }
  }

  lemma {:induction false} LexLeTransitive(a: string, b: string, c: string)
    requires LexLe(a, b) && LexLe(b, c)
    ensures LexLe(a, c)
    decreases |a|
  {
    if a != [] && b != [] && c != [] && a[0] == b[0] == c[0] {
      LexLeTransitive(a[1..], b[1..], c[1..]);
    }
  }

  lemma {:induction false} LexLeAntisymmetric(a: string, b: string)
    requires LexLe(a, b) && LexLe(b, a)
    ensures a == b
    decreases |a|
  {
    if a != [] && b != [] {
      LexLeAntisymmetric(a[1..], b[1..]);
      assert a == [a[0]] + a[1..] && b == [b[0]] + b[1..];
    }
  }
}
