/**
 * ExtractNodeName as .NET runs it: strings are sequences of UTF-16 code
 * units, and a regex character class written with emoji lists the two
 * surrogate halves of each emoji as separate members. The icons of the
 * class all lie above U+FFFF, so `^[📁📄…]\s*` consumes only the high
 * surrogate and leaves the low one at the head of the name.
 */
module CodeUnits {
  import opened Text
  import opened DiagramSyntax
  import opened DiagramParser

  type CodeUnit = u: int | 0 <= u < 0x1_0000

  /** The UTF-16 encoding of one code point. */
  function EncodeChar(c: char): (r: seq<CodeUnit>)
    ensures 1 <= |r| <= 2
    ensures c as int < 0x1_0000 <==> |r| == 1
  {
    if c as int < 0x1_0000 then [c as int]
    else
      var v := c as int - 0x1_0000;
      [0xD800 + v / 0x400, 0xDC00 + v % 0x400]
  }

  /** The UTF-16 encoding of a string, as .NET stores it. */
  function Encode(s: string): seq<CodeUnit> {
    if s == [] then [] else EncodeChar(s[0]) + Encode(s[1..])
  }

  /** `\s` and char.IsWhiteSpace on a code unit: no surrogate half is whitespace. */
  predicate IsWhiteSpaceUnit(u: CodeUnit) {
    u < 0xD800 && IsWhiteSpace(u as char)
  }

  /**
   * The members of the character class of ExtractNodeName, as .NET reads
   * it: the high surrogate all the icons share, and their low surrogates.
   */
  predicate IsIconUnit(u: CodeUnit) {
    u == 0xD83D || (0xDCC1 <= u <= 0xDCC4) || (0xDCC8 <= u <= 0xDCDD)
  }

  function TrimStartUnits(u: seq<CodeUnit>): (r: seq<CodeUnit>)
    ensures |r| <= |u| && r == u[|u| - |r|..]
    ensures r == [] || !IsWhiteSpaceUnit(r[0])
    ensures forall k :: 0 <= k < |u| - |r| ==> IsWhiteSpaceUnit(u[k])
  {
    if u != [] && IsWhiteSpaceUnit(u[0]) then
      var r := TrimStartUnits(u[1..]);
      assert forall k :: 1 <= k < |u| ==> u[k] == u[1..][k - 1];
      r
    else u
  }

  function TrimEndUnits(u: seq<CodeUnit>): (r: seq<CodeUnit>)
    ensures |r| <= |u| && r == u[..|r|]
    ensures r == [] || !IsWhiteSpaceUnit(r[|r| - 1])
    ensures forall k :: |r| <= k < |u| ==> IsWhiteSpaceUnit(u[k])
  {
    if u != [] && IsWhiteSpaceUnit(u[|u| - 1]) then
      var r := TrimEndUnits(u[..|u| - 1]);
      assert forall k :: 0 <= k < |u| - 1 ==> u[k] == u[..|u| - 1][k];
      r
    else u
  }

  /** `r` stands at `i` in `u`, with only whitespace before and after it. */
  ghost predicate WhiteFramed(u: seq<CodeUnit>, i: nat, r: seq<CodeUnit>) {
    && i + |r| <= |u| && r == u[i..i + |r|]
    && (forall k :: 0 <= k < i ==> IsWhiteSpaceUnit(u[k]))
    && (forall k :: i + |r| <= k < |u| ==> IsWhiteSpaceUnit(u[k]))
  }

  /** string.Trim() on code units. */
  function TrimUnits(u: seq<CodeUnit>): (r: seq<CodeUnit>)
    ensures |r| <= |u|
    ensures r == [] || (!IsWhiteSpaceUnit(r[0]) && !IsWhiteSpaceUnit(r[|r| - 1]))
    ensures exists i :: WhiteFramed(u, i, r)
  {
    var s := TrimStartUnits(u);
    var r := TrimEndUnits(s);
    FramedByTrims(u, s, r);
    r
  }

  /** A trimmed-at-the-end part of a trimmed-at-the-start suffix is framed by whitespace. */
  lemma FramedByTrims(u: seq<CodeUnit>, s: seq<CodeUnit>, r: seq<CodeUnit>)
    requires |s| <= |u| && s == u[|u| - |s|..]
    requires forall k :: 0 <= k < |u| - |s| ==> IsWhiteSpaceUnit(u[k])
    requires |r| <= |s| && r == s[..|r|]
    requires forall k :: |r| <= k < |s| ==> IsWhiteSpaceUnit(s[k])
    ensures WhiteFramed(u, |u| - |s|, r)
  {
    var i := |u| - |s|;
    forall k | i + |r| <= k < |u|
      ensures IsWhiteSpaceUnit(u[k])
    {
      assert u[k] == s[k - i];
    }
  }

  /** Whitespace at the head of a suffix makes no difference once it is trimmed. */
  lemma {:induction false} SkipSpaces(u: seq<CodeUnit>, i: nat, e: nat)
    requires i <= e <= |u|
    requires forall k :: i <= k < e ==> IsWhiteSpaceUnit(u[k])
    ensures TrimStartUnits(u[i..]) == TrimStartUnits(u[e..])
    decreases e - i
  {
    if i < e {
      var t := u[i..];
      assert t[0] == u[i] && t[1..] == u[i + 1..];
      SkipSpaces(u, i + 1, e);
    }
  }

  /**
   * MermaidToTreeConverter.ExtractNodeName as written, on code units: one
   * member of the class and the whitespace after it removed, then trimmed.
   */
  function ExtractNodeNameAsWritten(d: seq<CodeUnit>): (r: seq<CodeUnit>)
    ensures |r| <= |d|
    ensures r == [] || (!IsWhiteSpaceUnit(r[0]) && !IsWhiteSpaceUnit(r[|r| - 1]))
    ensures d != [] && IsIconUnit(d[0]) ==> r == TrimUnits(d[1..])
    ensures d == [] || !IsIconUnit(d[0]) ==> r == TrimUnits(d)
  {
    if d != [] && IsIconUnit(d[0]) then
      var e := SpaceRunUnits(d, 1);
      SkipSpaces(d, 1, e);
      TrimUnits(d[e..])
    else TrimUnits(d)
  }

  /** The end of the whitespace run of `u` from `i`. */
  function SpaceRunUnits(u: seq<CodeUnit>, i: nat): (e: nat)
    requires i <= |u|
    ensures i <= e <= |u|
    ensures forall k :: i <= k < e ==> IsWhiteSpaceUnit(u[k])
    ensures e < |u| ==> !IsWhiteSpaceUnit(u[e])
    decreases |u| - i
  {
    if i < |u| && IsWhiteSpaceUnit(u[i]) then SpaceRunUnits(u, i + 1) else i
  }

  lemma {:induction false} EncodeAppend(a: string, b: string)
    ensures Encode(a + b) == Encode(a) + Encode(b)
    decreases |a|
  {
    if a != [] {
      var ab := a + b;
      assert ab != [] && ab[0] == a[0] && ab[1..] == a[1..] + b;
      EncodeAppend(a[1..], b);
      calc {
        Encode(ab);
        EncodeChar(a[0]) + Encode(a[1..] + b);
        EncodeChar(a[0]) + (Encode(a[1..]) + Encode(b));
        (EncodeChar(a[0]) + Encode(a[1..])) + Encode(b);
      }
    } else {
      assert a + b == b;
    }
  }

  /** A character that is not whitespace starts and ends its encoding with a unit that is not whitespace either. */
  lemma EncodeCharEnds(c: char)
    requires !IsWhiteSpace(c)
    ensures var r := EncodeChar(c); !IsWhiteSpaceUnit(r[0]) && !IsWhiteSpaceUnit(r[|r| - 1])
  {
    if c as int < 0x1_0000 {
      assert EncodeChar(c)[0] as char == c;
    }
  }

  lemma {:induction false} EncodeEnds(s: string)
    requires s != [] && IsTrimmed(s)
    ensures var e := Encode(s); e != [] && !IsWhiteSpaceUnit(e[0]) && !IsWhiteSpaceUnit(e[|e| - 1])
  {
    var last := s[|s| - 1];
    assert s == s[..|s| - 1] + [last];
    EncodeAppend(s[..|s| - 1], [last]);
    assert Encode([last]) == EncodeChar(last);
    EncodeCharEnds(s[0]);
    EncodeCharEnds(last);
  }

  /**
   * `Substring(2)` succeeds exactly when the text is at least two UTF-16
   * code units long, and then drops two code units, unless it would split
   * the second character's surrogate pair.
   */
  lemma SubstringTwoUnits(d: string)
    ensures SubstringTwo(d).Success? <==> |Encode(d)| >= 2
    ensures SubstringTwo(d).Success? && (d[0] as int >= 0x1_0000 || d[1] as int < 0x1_0000)
            ==> Encode(SubstringTwo(d).value) == Encode(d)[2..]
  {
    if d != [] {
      var c := d[0];
      assert Encode(d) == EncodeChar(c) + Encode(d[1..]);
      if |d| >= 2 {
        assert Encode(d[1..]) == EncodeChar(d[1]) + Encode(d[2..]);
      } else {
        assert d[1..] == [];
      }
    }
  }

  /** A sequence whose ends are not whitespace is left as it is by Trim. */
  lemma TrimmedUnits(u: seq<CodeUnit>)
    requires u != [] && !IsWhiteSpaceUnit(u[0]) && !IsWhiteSpaceUnit(u[|u| - 1])
    ensures TrimUnits(u) == u
  {
  }

  /** The low surrogate of the icon of a display text. */
  function LowSurrogate(isDirectory: bool): CodeUnit {
    0xDC00 + (IconOf(isDirectory) as int - 0x1_0000) % 0x400
  }

  /** Both icons share the high surrogate 0xD83D. */
  lemma EncodeIcon(isDirectory: bool)
    ensures EncodeChar(IconOf(isDirectory)) == [0xD83D, LowSurrogate(isDirectory)]
  {
    var v := IconOf(isDirectory) as int - 0x1_0000;
    if isDirectory {
      assert v == 0xF4C1;
    } else {
      assert v == 0xF4C4;
    }
    assert v / 0x400 == 0x3D;
  }

  /** The encoding of a display text: the two halves of the icon, the space, the name. */
  lemma EncodeDisplay(isDirectory: bool, name: string)
    ensures Encode(Display(isDirectory, name)) == [0xD83D, LowSurrogate(isDirectory), ' ' as int] + Encode(name)
  {
    var icon := IconOf(isDirectory);
    assert Display(isDirectory, name) == [icon] + (" " + name);
    EncodeAppend([icon], " " + name);
    EncodeAppend(" ", name);
    assert Encode([icon]) == EncodeChar(icon) + Encode([]);
    assert Encode(" ") == EncodeChar(' ') + Encode([]);
    EncodeIcon(isDirectory);
  }

  /** The class takes the high surrogate and stops: the low one is no whitespace. */
  lemma AsWrittenOnUnits(low: CodeUnit, u: seq<CodeUnit>)
    requires 0xDC00 <= low < 0xE000
    requires u != [] && !IsWhiteSpaceUnit(u[0]) && !IsWhiteSpaceUnit(u[|u| - 1])
    ensures ExtractNodeNameAsWritten([0xD83D, low, ' ' as int] + u) == [low, ' ' as int] + u
  {
    var e := [0xD83D, low, ' ' as int] + u;
    assert SpaceRunUnits(e, 1) == 1;
    var rest := [low, ' ' as int] + u;
    assert e[1..] == rest;
    TrimmedUnits(rest);
  }

  /**
   * The name .NET gives a node whose display text is an icon, a space and
   * `name`: the low surrogate of the icon and the space survive, so it is
   * never `name` itself. The corrected ExtractNodeName, on code points,
   * returns `name`.
   */
  lemma AsWrittenKeepsLowSurrogate(isDirectory: bool, name: string)
    requires name != [] && IsTrimmed(name)
    ensures ExtractNodeNameAsWritten(Encode(Display(isDirectory, name)))
              == [LowSurrogate(isDirectory), ' ' as int] + Encode(name)
    ensures ExtractNodeNameAsWritten(Encode(Display(isDirectory, name))) != Encode(name)
    ensures ExtractNodeName(Display(isDirectory, name)) == name
  {
    EncodeDisplay(isDirectory, name);
    EncodeEnds(name);
    AsWrittenOnUnits(LowSurrogate(isDirectory), Encode(name));
    DisplayReadsBack(MermaidToTreeRules, isDirectory, name);
  }
}
