/**
 * The diagram notation: the icons, the statement lines the serializer emits,
 * and hand-written recognisers for the two patterns the parsers search for,
 * `(\w+)\["([^"]+)"\]` and `(\w+)\s*-->\s*(\w+)\["([^"]+)"\]`, each finding
 * the leftmost match as Regex.Match does.
 */
module DiagramSyntax {
  import opened Wrappers
  import opened Text

  const FolderIcon: char := '\U{1F4C1}'
  const FileIcon: char := '\U{1F4C4}'

  /** The first line of every diagram the serializer writes. */
  const Header: string := "graph TD"

  /** `\w`, restricted to ASCII letters, digits and '_'. */
  predicate IsWordChar(c: char) {
    ('a' <= c <= 'z') || ('A' <= c <= 'Z') || ('0' <= c <= '9') || c == '_'
  }

  predicate IsIdentifier(s: string) {
    s != [] && forall i :: 0 <= i < |s| ==> IsWordChar(s[i])
  }

  /** Text that `[^"]+` matches. */
  predicate IsDisplayText(s: string) {
    s != [] && '"' !in s
  }

  /** The end of the run of word characters starting at `i`. */
  function WordEnd(s: string, i: nat): (e: nat)
    requires i <= |s|
    ensures i <= e <= |s|
    ensures forall k :: i <= k < e ==> IsWordChar(s[k])
    ensures e < |s| ==> !IsWordChar(s[e])
    decreases |s| - i
  {
    if i < |s| && IsWordChar(s[i]) then WordEnd(s, i + 1) else i
  }

  /** The end of the run of whitespace starting at `i`. */
  function SpaceEnd(s: string, i: nat): (e: nat)
    requires i <= |s|
    ensures i <= e <= |s|
    ensures forall k :: i <= k < e ==> IsWhiteSpace(s[k])
    ensures e < |s| ==> !IsWhiteSpace(s[e])
    decreases |s| - i
  {
    if i < |s| && IsWhiteSpace(s[i]) then SpaceEnd(s, i + 1) else i
  }

  /** The first '"' at or after `i`, or |s|. */
  function QuoteFrom(s: string, i: nat): (q: nat)
    requires i <= |s|
    ensures i <= q <= |s|
    ensures forall k :: i <= k < q ==> s[k] != '"'
    ensures q < |s| ==> s[q] == '"'
    decreases |s| - i
  {
    if i < |s| && s[i] != '"' then QuoteFrom(s, i + 1) else i
  }

  /** `\["([^"]+)"\]` at position `e`, giving the text between the quotes. */
  function BracketAt(s: string, e: nat): (r: Option<string>)
    requires e <= |s|
    ensures r.Some? ==> IsDisplayText(r.value)
  {
    if e + 1 < |s| && s[e] == '[' && s[e + 1] == '"' then
      var q := QuoteFrom(s, e + 2);
      if e + 2 < q && q + 1 < |s| && s[q + 1] == ']' then
        Some(s[e + 2..q])
      else None
    else None
  }

  datatype Declaration = Declaration(id: string, display: string)

  datatype EdgeMatch = EdgeMatch(parent: string, child: string, display: string)

  /** The declaration pattern anchored at `i`. */
  function DeclarationAt(s: string, i: nat): Option<Declaration>
    requires i <= |s|
  {
    var e := WordEnd(s, i);
    if i < e then
      match BracketAt(s, e)
      case Some(d) => Some(Declaration(s[i..e], d))
      case None => None
    else None
  }

  /** The edge pattern anchored at `i`. */
  function EdgeAt(s: string, i: nat): Option<EdgeMatch>
    requires i <= |s|
  {
    var e1 := WordEnd(s, i);
    var w1 := SpaceEnd(s, e1);
    if i < e1 && w1 + 3 <= |s| && s[w1..w1 + 3] == "-->" then
      var w2 := SpaceEnd(s, w1 + 3);
      var e2 := WordEnd(s, w2);
      if w2 < e2 then
        match BracketAt(s, e2)
        case Some(d) => Some(EdgeMatch(s[i..e1], s[w2..e2], d))
        case None => None
      else None
    else None
  }

  function MatchDeclarationFrom(s: string, i: nat): Option<Declaration>
    requires i <= |s|
    decreases |s| - i
  {
    if i == |s| then None
    else if DeclarationAt(s, i).Some? then DeclarationAt(s, i)
    else MatchDeclarationFrom(s, i + 1)
  }

  function MatchEdgeFrom(s: string, i: nat): Option<EdgeMatch>
    requires i <= |s|
    decreases |s| - i
  {
    if i == |s| then None
    else if EdgeAt(s, i).Some? then EdgeAt(s, i)
    else MatchEdgeFrom(s, i + 1)
  }

  /** Regex.Match(line, @"(\w+)\[""([^""]+)""\]"): the leftmost declaration. */
  function MatchDeclaration(s: string): (r: Option<Declaration>)
    ensures r.Some? ==> IsIdentifier(r.value.id) && IsDisplayText(r.value.display)
  {
    MatchDeclarationFound(s, 0);
    MatchDeclarationFrom(s, 0)
  }

  /** Regex.Match(line, @"(\w+)\s*-->\s*(\w+)\[""([^""]+)""\]"): the leftmost edge. */
  function MatchEdge(s: string): (r: Option<EdgeMatch>)
    ensures r.Some? ==> IsIdentifier(r.value.parent) && IsIdentifier(r.value.child)
    ensures r.Some? ==> IsDisplayText(r.value.display)
  {
    MatchEdgeFound(s, 0);
    MatchEdgeFrom(s, 0)
  }

  lemma {:induction false} MatchDeclarationFound(s: string, i: nat)
    requires i <= |s|
    ensures var r := MatchDeclarationFrom(s, i);
      r.Some? ==> IsIdentifier(r.value.id) && IsDisplayText(r.value.display)
    decreases |s| - i
  {
    if i < |s| && DeclarationAt(s, i).None? {
      MatchDeclarationFound(s, i + 1);
    }
  }

  lemma {:induction false} MatchEdgeFound(s: string, i: nat)
    requires i <= |s|
    ensures var r := MatchEdgeFrom(s, i);
      r.Some? ==> (IsIdentifier(r.value.parent) && IsIdentifier(r.value.child)
        && IsDisplayText(r.value.display))
    decreases |s| - i
  {
    if i < |s| && EdgeAt(s, i).None? {
      MatchEdgeFound(s, i + 1);
    }
  }

  /** The icon the serializer puts before a name. */
  function IconOf(isDirectory: bool): char {
    if isDirectory then FolderIcon else FileIcon
  }

  /** `displayName`: the icon, a space and the name. */
  function Display(isDirectory: bool, name: string): string {
    [IconOf(isDirectory)] + " " + name
  }

  /** The statement text of a declaration, without its indentation. */
  function DeclarationText(id: string, display: string): string {
    id + "[\"" + display + "\"]"
  }

  /** The statement text of an edge, without its indentation. */
  function EdgeText(parent: string, id: string, display: string): string {
    parent + " --> " + DeclarationText(id, display)
  }

  const Indent: string := "    "

  lemma WordEndIs(s: string, i: nat, e: nat)
    requires i <= e <= |s|
    requires forall k :: i <= k < e ==> IsWordChar(s[k])
    requires e < |s| ==> !IsWordChar(s[e])
    ensures WordEnd(s, i) == e
  {
  }

  lemma SpaceEndIs(s: string, i: nat, e: nat)
    requires i <= e <= |s|
    requires forall k :: i <= k < e ==> IsWhiteSpace(s[k])
    requires e < |s| ==> !IsWhiteSpace(s[e])
    ensures SpaceEnd(s, i) == e
  {
  }

  lemma QuoteFromIs(s: string, i: nat, q: nat)
    requires i <= q <= |s|
    requires forall k :: i <= k < q ==> s[k] != '"'
    requires q < |s| ==> s[q] == '"'
    ensures QuoteFrom(s, i) == q
  {
  }

  /** `["display"]` written at position `e` is read back by BracketAt. */
  lemma {:induction false} BracketReadsBack(s: string, e: nat, d: string)
    requires IsDisplayText(d)
    requires e + |d| + 4 <= |s| && s[e..e + |d| + 4] == "[\"" + d + "\"]"
    ensures BracketAt(s, e) == Some(d)
  {
    var t := "[\"" + d + "\"]";
    assert s[e] == t[0] && s[e + 1] == t[1];
    var q := e + 2 + |d|;
    forall k | e + 2 <= k < q
      ensures s[k] != '"'
    {
      assert s[k] == t[k - e] == d[k - e - 2];
      assert d[k - e - 2] in d;
    }
    assert s[q] == t[q - e];
    QuoteFromIs(s, e + 2, q);
    assert s[q + 1] == t[q + 1 - e];
    forall k | 0 <= k < |d|
      ensures s[e + 2..q][k] == d[k]
    {
      assert s[e + 2 + k] == t[2 + k];
    }
    assert s[e + 2..q] == d;
  }

  /** The only quotes of a declaration text are the two around the display text. */
  lemma DeclarationQuotes(id: string, d: string)
    requires IsIdentifier(id) && IsDisplayText(d)
    ensures var s := DeclarationText(id, d);
      forall k :: 0 <= k < |s| && k != |id| + 1 && k != |id| + 2 + |d| ==> s[k] != '"'
  {
    var s := DeclarationText(id, d);
    forall k | 0 <= k < |s| && k != |id| + 1 && k != |id| + 2 + |d|
      ensures s[k] != '"'
    {
      if k < |id| {
        assert s[k] == id[k];
      } else if |id| + 2 <= k < |id| + 2 + |d| {
        assert s[k] == d[k - |id| - 2];
        assert d[k - |id| - 2] in d;
      }
    }
  }

  /** After the identifier of a written declaration, no `["…"]` starts. */
  lemma NoBracketAfterId(id: string, d: string, e: nat)
    requires IsIdentifier(id) && IsDisplayText(d)
    requires |id| < e <= |DeclarationText(id, d)|
    ensures BracketAt(DeclarationText(id, d), e).None?
  {
    var s := DeclarationText(id, d);
    if e + 1 < |s| && s[e] == '[' && s[e + 1] == '"' {
      DeclarationQuotes(id, d);
      assert e + 1 == |id| + 2 + |d|;
      assert s[|s| - 1] == ']';
      QuoteFromIs(s, e + 2, |s|);
    }
  }

  lemma NoEdgeInDeclarationAt(id: string, d: string, i: nat)
    requires IsIdentifier(id) && IsDisplayText(d)
    requires i <= |DeclarationText(id, d)|
    ensures EdgeAt(DeclarationText(id, d), i).None?
  {
    var s := DeclarationText(id, d);
    var e1 := WordEnd(s, i);
    var w1 := SpaceEnd(s, e1);
    if i < e1 && w1 + 3 <= |s| && s[w1..w1 + 3] == "-->" {
      assert s[w1 + 2] == '>';
      assert |id| <= w1 + 2;
      var w2 := SpaceEnd(s, w1 + 3);
      var e2 := WordEnd(s, w2);
      if w2 < e2 {
        NoBracketAfterId(id, d, e2);
      }
    }
  }

  lemma {:induction false} NoEdgeInDeclarationFrom(id: string, d: string, i: nat)
    requires IsIdentifier(id) && IsDisplayText(d)
    requires i <= |DeclarationText(id, d)|
    ensures MatchEdgeFrom(DeclarationText(id, d), i).None?
    decreases |DeclarationText(id, d)| - i
  {
    if i < |DeclarationText(id, d)| {
      NoEdgeInDeclarationAt(id, d, i);
      NoEdgeInDeclarationFrom(id, d, i + 1);
    }
  }

  /**
   * A declaration statement as the serializer writes it is recognised as that
   * declaration, and the edge pattern, which is tried first, does not match it.
   */
  lemma {:induction false} DeclarationTextParses(id: string, d: string)
    requires IsIdentifier(id) && IsDisplayText(d)
    ensures MatchDeclaration(DeclarationText(id, d)) == Some(Declaration(id, d))
    ensures MatchEdge(DeclarationText(id, d)) == None
  {
    var s := DeclarationText(id, d);
    assert s[..|id|] == id;
    assert s[|id|] == '[';
    WordEndIs(s, 0, |id|);
    assert s[|id|..|id| + |d| + 4] == "[\"" + d + "\"]";
    BracketReadsBack(s, |id|, d);
    NoEdgeInDeclarationFrom(id, d, 0);
  }

  /** An identifier written at `i` and followed by a non-word character ends the word run there. */
  lemma WordAt(s: string, i: nat, w: string)
    requires IsIdentifier(w) && i + |w| <= |s| && s[i..i + |w|] == w
    requires i + |w| < |s| ==> !IsWordChar(s[i + |w|])
    ensures WordEnd(s, i) == i + |w|
  {
    forall k | i <= k < i + |w|
      ensures IsWordChar(s[k])
    {
      assert s[k] == s[i..i + |w|][k - i];
    }
    WordEndIs(s, i, i + |w|);
  }

  /** The arrow `" --> "` written at `n`: one space, the arrow, one space. */
  lemma ArrowAt(s: string, n: nat)
    requires n + 5 <= |s| && s[n..n + 5] == " --> "
    requires n + 5 < |s| ==> !IsWhiteSpace(s[n + 5])
    ensures s[n] == ' ' && SpaceEnd(s, n) == n + 1
    ensures s[n + 1..n + 4] == "-->"
    ensures SpaceEnd(s, n + 4) == n + 5
  {
    var arrow := s[n..n + 5];
    assert s[n] == arrow[0] == ' ' && s[n + 4] == arrow[4] == ' ';
    assert s[n + 1] == arrow[1] && s[n + 2] == arrow[2] && s[n + 3] == arrow[3];
    SpaceEndIs(s, n, n + 1);
    SpaceEndIs(s, n + 4, n + 5);
  }

  /** The edge pattern at `i`, given where each of its parts ends. */
  lemma EdgeAtIs(s: string, i: nat, e1: nat, w1: nat, w2: nat, e2: nat, m: EdgeMatch)
    requires i <= |s| && WordEnd(s, i) == e1 && i < e1 && SpaceEnd(s, e1) == w1
    requires w1 + 3 <= |s| && s[w1..w1 + 3] == "-->" && SpaceEnd(s, w1 + 3) == w2
    requires WordEnd(s, w2) == e2 && w2 < e2 && BracketAt(s, e2) == Some(m.display)
    requires s[i..e1] == m.parent && s[w2..e2] == m.child
    ensures EdgeAt(s, i) == Some(m)
  {
  }

  /** The parent identifier, followed by the arrow's space, ends the first word run. */
  lemma ParentWordAt(s: string, p: string)
    requires IsIdentifier(p) && |p| + 5 <= |s| && s[0..|p|] == p && s[|p|..|p| + 5] == " --> "
    ensures WordEnd(s, 0) == |p|
  {
    assert s[|p|] == s[|p|..|p| + 5][0];
    WordAt(s, 0, p);
  }

  /** The arrow followed by an identifier. */
  lemma ArrowBeforeWord(s: string, n: nat, id: string)
    requires IsIdentifier(id) && n + 5 + |id| <= |s|
    requires s[n..n + 5] == " --> " && s[n + 5..n + 5 + |id|] == id
    ensures SpaceEnd(s, n) == n + 1 && s[n + 1..n + 4] == "-->" && SpaceEnd(s, n + 4) == n + 5
  {
    assert s[n + 5] == s[n + 5..n + 5 + |id|][0] == id[0];
    ArrowAt(s, n);
  }

  /** The child identifier, followed by the bracket, ends the second word run. */
  lemma ChildWordAt(s: string, i: nat, id: string)
    requires IsIdentifier(id) && i + |id| < |s| && s[i..i + |id|] == id && s[i + |id|] == '['
    ensures WordEnd(s, i) == i + |id|
  {
    WordAt(s, i, id);
  }

  /** The edge pattern reads `parent --> id["display"]` laid out from position 0. */
  lemma {:induction false} EdgeAtReads(s: string, p: string, id: string, d: string)
    requires IsIdentifier(p) && IsIdentifier(id) && IsDisplayText(d)
    requires |s| == |p| + 5 + |id| + |d| + 4
    requires s[0..|p|] == p && s[|p|..|p| + 5] == " --> "
    requires s[|p| + 5..|p| + 5 + |id|] == id
    requires s[|p| + 5 + |id|..] == "[\"" + d + "\"]"
    ensures EdgeAt(s, 0) == Some(EdgeMatch(p, id, d))
  {
    var n := |p|;
    var m := n + 5 + |id|;
    ParentWordAt(s, p);
    ArrowBeforeWord(s, n, id);
    ChildWordAt(s, n + 5, id);
    assert s[m..m + |d| + 4] == s[m..];
    BracketReadsBack(s, m, d);
    EdgeAtIs(s, 0, n, n + 1, n + 5, m, EdgeMatch(p, id, d));
  }

  /** An edge statement as the serializer writes it is recognised as that edge. */
  lemma {:induction false} EdgeTextParses(p: string, id: string, d: string)
    requires IsIdentifier(p) && IsIdentifier(id) && IsDisplayText(d)
    ensures MatchEdge(EdgeText(p, id, d)) == Some(EdgeMatch(p, id, d))
  {
    var s := EdgeText(p, id, d);
    var n := |p|;
    assert s == p + " --> " + id + ("[\"" + d + "\"]");
    assert s[0..n] == p;
    assert s[n..n + 5] == " --> ";
    assert s[n + 5..n + 5 + |id|] == id;
    assert s[n + 5 + |id|..] == "[\"" + d + "\"]";
    EdgeAtReads(s, p, id, d);
  }
}
