/**
 * The statement loop both diagram parsers run over the lines after the first
 * (TreeToMermaidConverter.ParseMermaidToNodes and
 * MermaidToTreeConverter.ParseMermaidDiagram): it fills the node dictionary
 * and the relationship list. The two differ in which lines they skip and in
 * how they take the name out of the display text; `Rules` selects which.
 */
module DiagramParser {
  import opened Wrappers
  import opened Text
  import opened TreeNodes
  import opened DiagramSyntax

  datatype Rules = TreeToMermaidRules | MermaidToTreeRules

  /** The node dictionary and the (parent, child) relationships gathered so far. */
  datatype Collected = Collected(table: NodeTable, edges: seq<(string, string)>)

  /** A recognised statement: an edge introducing its child, or a declaration. */
  datatype Statement =
    | EdgeStatement(parent: string, child: string, display: string)
    | DeclarationStatement(id: string, display: string)
  {
    /** The id whose node this statement may create. */
    function Introduced(): string {
      match this
      case EdgeStatement(_, c, _) => c
      case DeclarationStatement(id, _) => id
    }

    /** The relationship this statement records: one for an edge, none for a declaration. */
    function Relationship(): seq<(string, string)> {
      match this
      case EdgeStatement(p, c, _) => [(p, c)]
      case DeclarationStatement(_, _) => []
    }
  }

  /**
   * `display.Substring(2)`, counting UTF-16 code units as .NET does: a
   * character outside the Basic Multilingual Plane, such as an icon, is two.
   */
  function SubstringTwo(d: string): (r: Result<string, Fault>)
    ensures r.Success? ==> |d| - 2 <= |r.value| < |d| && r.value == d[|d| - |r.value|..]
    ensures |d| >= 2 ==> r.Success?
  {
    if d != [] && d[0] as int >= 0x1_0000 then Success(d[1..])
    else if |d| >= 2 then Success(d[2..])
    else Failure(SubstringOutOfRange)
  }

  /** The icons the pattern of ExtractNodeName strips. */
  predicate IsNodeIcon(c: char) {
    ('\U{1F4C1}' <= c <= '\U{1F4C4}') || ('\U{1F4C8}' <= c <= '\U{1F4DD}')
  }

  /**
   * MermaidToTreeConverter.ExtractNodeName: one leading icon and the
   * whitespace after it removed, then trimmed.
   */
  function ExtractNodeName(d: string): (r: string)
    ensures IsTrimmed(r)
    ensures (d == [] || !IsNodeIcon(d[0])) ==> r == Trim(d)
    ensures d != [] && IsNodeIcon(d[0]) ==> r == Trim(d[SpaceEnd(d, 1)..])
  {
    var cleaned := if d != [] && IsNodeIcon(d[0]) then d[SpaceEnd(d, 1)..] else d;
    Trim(cleaned)
  }

  /** `display.StartsWith("📁")`. */
  predicate IsFolderDisplay(d: string) {
    d != [] && d[0] == FolderIcon
  }

  /** The name a parser gives the node it creates from `display`. */
  function NodeName(rules: Rules, d: string): Result<string, Fault> {
    match rules
    case TreeToMermaidRules =>
      (match SubstringTwo(d)
       case Success(rest) => Success(Trim(rest))
       case Failure(f) => Failure(f))
    case MermaidToTreeRules => Success(ExtractNodeName(d))
  }

  /** A line the loop passes over before trying the patterns. */
  predicate Skipped(rules: Rules, trimmed: string) {
    || trimmed == []
    || (rules == MermaidToTreeRules && (StartsWith(trimmed, "graph") || StartsWith(trimmed, "flowchart")))
  }

  /** What one line contributes: the edge pattern is tried before the declaration pattern. */
  function ReadStatement(rules: Rules, line: string): (r: Option<Statement>)
    ensures Skipped(rules, Trim(line)) ==> r.None?
    ensures MatchEdge(Trim(line)).None? && MatchDeclaration(Trim(line)).None? ==> r.None?
    ensures r.Some? ==> match r.value
      case EdgeStatement(p, c, d) => IsIdentifier(p) && IsIdentifier(c) && IsDisplayText(d)
      case DeclarationStatement(id, d) => IsIdentifier(id) && IsDisplayText(d)
    ensures !Skipped(rules, Trim(line)) && MatchEdge(Trim(line)).Some? ==>
      var m := MatchEdge(Trim(line)).value;
      r == Some(EdgeStatement(m.parent, m.child, m.display))
    ensures !Skipped(rules, Trim(line)) && MatchEdge(Trim(line)).None? && MatchDeclaration(Trim(line)).Some? ==>
      var decl := MatchDeclaration(Trim(line)).value;
      r == Some(DeclarationStatement(decl.id, decl.display))
  {
    var t := Trim(line);
    if Skipped(rules, t) then None
    else
      match MatchEdge(t)
      case Some(m) => Some(EdgeStatement(m.parent, m.child, m.display))
      case None =>
        match MatchDeclaration(t)
        case Some(decl) => Some(DeclarationStatement(decl.id, decl.display))
        case None => None
  }

  /** The node the parser creates for `id` from its display text. */
  function MakeNode(rules: Rules, id: string, d: string): (r: Result<TreeNode, Fault>)
    ensures r.Success? ==> r.value == NewNode(id, r.value.name, IsFolderDisplay(d))
    ensures r.Failure? ==> rules == TreeToMermaidRules && r.error == SubstringOutOfRange
  {
    match NodeName(rules, d)
    case Success(name) => Success(NewNode(id, name, IsFolderDisplay(d)))
    case Failure(f) => Failure(f)
  }

  /** What one statement does: record the edge, then create the node unless its id is known. */
  function Apply(c: Collected, rules: Rules, s: Statement): (r: Result<Collected, Fault>)
    requires ValidTable(c.table) && Unresolved(c.table.nodes)
    ensures r.Success? ==> ValidTable(r.value.table) && Unresolved(r.value.table.nodes)
    ensures r.Success? ==> r.value.edges == c.edges + s.Relationship()
  {
    var edges := c.edges + s.Relationship();
    var id := s.Introduced();
    if id in c.table.nodes then Success(c.(edges := edges))
    else
      match MakeNode(rules, id, s.display)
      case Success(n) => Success(Collected(AddNode(c.table, n), edges))
      case Failure(f) => Failure(f)
  }

  /** `lines.Skip(1)`: everything after the first line, which is taken to be the header. */
  function SkipFirst(lines: seq<string>): (r: seq<string>)
    ensures lines != [] ==> [lines[0]] + r == lines
    ensures lines == [] ==> r == []
  {
    if lines == [] then [] else lines[1..]
  }

  /** The statements recognised in `lines`, in order. */
  function Statements(rules: Rules, lines: seq<string>): seq<Statement> {
    if lines == [] then []
    else
      var last := ReadStatement(rules, lines[|lines| - 1]);
      Statements(rules, lines[..|lines| - 1]) + (if last.Some? then [last.value] else [])
  }

  /** The state after applying `stmts` in order to empty collections, or the fault that stopped it. */
  function Gather(rules: Rules, stmts: seq<Statement>): (r: Result<Collected, Fault>)
    ensures r.Success? ==> ValidTable(r.value.table) && Unresolved(r.value.table.nodes)
    ensures r.Failure? ==> rules == TreeToMermaidRules && r.error == SubstringOutOfRange
    ensures r.Success? ==> r.value.edges == EdgesOf(stmts)
  {
    if stmts == [] then Success(Collected(EmptyTable, []))
    else
      var prefix, s := stmts[..|stmts| - 1], stmts[|stmts| - 1];
      EdgesOfSnoc(prefix, s);
      assert prefix + [s] == stmts;
      match Gather(rules, prefix)
      case Failure(f) => Failure(f)
      case Success(c) => Apply(c, rules, s)
  }

  /** The state after the statement loop of either parser has read `lines`. */
  function Collect(lines: seq<string>, rules: Rules): (r: Result<Collected, Fault>)
    ensures r.Success? ==> ValidTable(r.value.table) && Unresolved(r.value.table.nodes)
    ensures r.Failure? ==> rules == TreeToMermaidRules && r.error == SubstringOutOfRange
  {
    Gather(rules, Statements(rules, lines))
  }

  lemma StatementsNext(rules: Rules, lines: seq<string>, i: nat)
    requires i < |lines|
    ensures var read := ReadStatement(rules, lines[i]);
      Statements(rules, lines[..i + 1]) == Statements(rules, lines[..i]) + (if read.Some? then [read.value] else [])
  {
    assert lines[..i + 1][..i] == lines[..i];
  }

  lemma GatherSnoc(rules: Rules, stmts: seq<Statement>, s: Statement)
    ensures Gather(rules, stmts).Failure? ==> Gather(rules, stmts + [s]) == Gather(rules, stmts)
    ensures Gather(rules, stmts).Success? ==> Gather(rules, stmts + [s]) == Apply(Gather(rules, stmts).value, rules, s)
  {
    assert (stmts + [s])[..|stmts|] == stmts;
  }

  /** The loop reads one more line. */
  lemma CollectNext(lines: seq<string>, i: nat, rules: Rules)
    requires i < |lines|
    ensures Collect(lines[..i + 1], rules) ==
      match Collect(lines[..i], rules)
      case Failure(f) => Failure(f)
      case Success(c) =>
        match ReadStatement(rules, lines[i])
        case None => Success(c)
        case Some(s) => Apply(c, rules, s)
  {
    StatementsNext(rules, lines, i);
    var prefix := Statements(rules, lines[..i]);
    var read := ReadStatement(rules, lines[i]);
    if read.Some? {
      GatherSnoc(rules, prefix, read.value);
    } else {
      assert prefix + [] == prefix;
    }
  }

  /** A line read after the exception changes nothing. */
  lemma CollectNextFailure(lines: seq<string>, i: nat, rules: Rules)
    requires i < |lines| && Collect(lines[..i], rules).Failure?
    ensures Collect(lines[..i + 1], rules) == Collect(lines[..i], rules)
  {
    StatementsNext(rules, lines, i);
    var read := ReadStatement(rules, lines[i]);
    if read.Some? {
      GatherSnoc(rules, Statements(rules, lines[..i]), read.value);
    } else {
      assert Statements(rules, lines[..i]) + [] == Statements(rules, lines[..i]);
    }
  }

  lemma {:induction false} CollectFailureStays(lines: seq<string>, k: nat, rules: Rules)
    requires k <= |lines| && Collect(lines[..k], rules).Failure?
    ensures Collect(lines, rules) == Collect(lines[..k], rules)
    decreases |lines| - k
  {
    if k < |lines| {
      CollectNextFailure(lines, k, rules);
      CollectFailureStays(lines, k + 1, rules);
    } else {
      assert lines[..k] == lines;
    }
  }

  /** The foreach loop of the two parsers, with the exception it may raise. */
  method CollectStatements(lines: seq<string>, rules: Rules) returns (r: Result<Collected, Fault>)
    ensures r == Collect(lines, rules)
  {
    var table := EmptyTable;
    var edges: seq<(string, string)> := [];
    for i := 0 to |lines|
      invariant Collect(lines[..i], rules) == Success(Collected(table, edges))
    {
      CollectNext(lines, i, rules);
      ghost var before := Collected(table, edges);
      var trimmed := Trim(lines[i]);
      if Skipped(rules, trimmed) {
        continue;
      }
      var declaration := MatchDeclaration(trimmed);
      var edge := MatchEdge(trimmed);
      var newId, display;
      ghost var statement;
      if edge.Some? {
        statement := EdgeStatement(edge.value.parent, edge.value.child, edge.value.display);
        edges := edges + [(edge.value.parent, edge.value.child)];
        newId, display := edge.value.child, edge.value.display;
      } else if declaration.Some? {
        statement := DeclarationStatement(declaration.value.id, declaration.value.display);
        newId, display := declaration.value.id, declaration.value.display;
      } else {
        continue;
      }
      assert ReadStatement(rules, lines[i]) == Some(statement);
      assert statement.Introduced() == newId && statement.display == display;
      assert edges == before.edges + statement.Relationship();
      if newId !in table.nodes {
        var name := NodeName(rules, display);
        if name.Failure? {
          assert Apply(before, rules, statement) == Failure(name.error);
          CollectFailureStays(lines, i + 1, rules);
          return Failure(name.error);
        }
        table := AddNode(table, NewNode(newId, name.value, IsFolderDisplay(display)));
      }
      assert Apply(before, rules, statement) == Success(Collected(table, edges));
    }
    assert lines[..|lines|] == lines;
    r := Success(Collected(table, edges));
  }

  // ---------------------------------------------------------------------
  // What the loop collects, against definitions read from the front.

  /** The relationships the edge statements of `stmts` name, in order. */
  function EdgesOf(stmts: seq<Statement>): seq<(string, string)> {
    if stmts == [] then []
    else
      stmts[0].Relationship()
      + EdgesOf(stmts[1..])
  }

  /** The display text of the first statement of `stmts` that introduces `id`. */
  function FirstDisplay(stmts: seq<Statement>, id: string): Option<string> {
    if stmts == [] then None
    else if stmts[0].Introduced() == id then Some(stmts[0].display)
    else FirstDisplay(stmts[1..], id)
  }

  lemma {:induction false} EdgesOfSnoc(stmts: seq<Statement>, s: Statement)
    ensures EdgesOf(stmts + [s]) ==
      EdgesOf(stmts) + s.Relationship()
  {
    if stmts != [] {
      assert (stmts + [s])[1..] == stmts[1..] + [s];
      EdgesOfSnoc(stmts[1..], s);
    }
  }

  /** The first introduction of `id` is in the statements before the last one, or is the last one. */
  lemma {:induction false} FirstDisplayLast(stmts: seq<Statement>, id: string)
    requires stmts != []
    ensures FirstDisplay(stmts, id) ==
      if FirstDisplay(stmts[..|stmts| - 1], id).Some? then FirstDisplay(stmts[..|stmts| - 1], id)
      else if stmts[|stmts| - 1].Introduced() == id then Some(stmts[|stmts| - 1].display)
      else None
  {
    if |stmts| == 1 {
      assert stmts[1..] == [];
    } else {
      var init := stmts[..|stmts| - 1];
      assert init[0] == stmts[0];
      assert init[1..] == stmts[1..][..|stmts[1..]| - 1];
      FirstDisplayLast(stmts[1..], id);
    }
  }

  /** The display found for an id comes from the first statement introducing it. */
  lemma {:induction false} FirstDisplayFound(stmts: seq<Statement>, id: string)
    requires FirstDisplay(stmts, id).Some?
    ensures exists i :: (0 <= i < |stmts| && stmts[i].Introduced() == id
      && FirstDisplay(stmts, id).value == stmts[i].display)
  {
    if stmts[0].Introduced() != id {
      FirstDisplayFound(stmts[1..], id);
      var i :| 0 <= i < |stmts[1..]| && stmts[1..][i].Introduced() == id
        && FirstDisplay(stmts[1..], id).value == stmts[1..][i].display;
      assert stmts[i + 1] == stmts[1..][i];
    }
  }

  /** A statement whose id no earlier statement introduces gives that id its display. */
  lemma {:induction false} FirstDisplayAt(stmts: seq<Statement>, i: nat)
    requires i < |stmts|
    requires forall j :: 0 <= j < i ==> stmts[j].Introduced() != stmts[i].Introduced()
    ensures FirstDisplay(stmts, stmts[i].Introduced()) == Some(stmts[i].display)
  {
    if i > 0 {
      assert stmts[0].Introduced() != stmts[i].Introduced();
      assert forall j :: 0 <= j < i - 1 ==> stmts[1..][j] == stmts[j + 1];
      FirstDisplayAt(stmts[1..], i - 1);
    }
  }

  /** Some id is first introduced by a display text the rules cannot name. */
  ghost predicate FirstIntroductionFails(rules: Rules, stmts: seq<Statement>) {
    exists id :: FirstDisplay(stmts, id).Some? && MakeNode(rules, id, FirstDisplay(stmts, id).value).Failure?
  }

  /** What Apply does to the node dictionary. */
  lemma ApplyNodes(c: Collected, rules: Rules, s: Statement)
    requires ValidTable(c.table) && Unresolved(c.table.nodes)
    requires Apply(c, rules, s).Success?
    ensures var after := Apply(c, rules, s).value.table.nodes;
      if s.Introduced() in c.table.nodes then after == c.table.nodes
      else (MakeNode(rules, s.Introduced(), s.display).Success?
        && after == c.table.nodes[s.Introduced() := MakeNode(rules, s.Introduced(), s.display).value])
  {
  }

  /** The node facts of GatheredNodes survive one more statement. */
  lemma NodesStep(rules: Rules, stmts: seq<Statement>, before: NodeMap, after: NodeMap)
    requires stmts != []
    requires var prefix := stmts[..|stmts| - 1];
      && (forall id :: id in before <==> FirstDisplay(prefix, id).Some?)
      && (forall id :: id in before ==> MakeNode(rules, id, FirstDisplay(prefix, id).value) == Success(before[id]))
    requires var s := stmts[|stmts| - 1];
      if s.Introduced() in before then after == before
      else (MakeNode(rules, s.Introduced(), s.display).Success?
        && after == before[s.Introduced() := MakeNode(rules, s.Introduced(), s.display).value])
    ensures forall id :: id in after <==> FirstDisplay(stmts, id).Some?
    ensures forall id :: id in after ==> MakeNode(rules, id, FirstDisplay(stmts, id).value) == Success(after[id])
  {
    forall id
      ensures id in after <==> FirstDisplay(stmts, id).Some?
      ensures id in after ==> MakeNode(rules, id, FirstDisplay(stmts, id).value) == Success(after[id])
    {
      FirstDisplayLast(stmts, id);
      var x := stmts[|stmts| - 1].Introduced();
      if x in before {
        assert after == before;
        if id == x {
          assert FirstDisplay(stmts[..|stmts| - 1], id).Some?;
        }
      } else if id == x {
        assert FirstDisplay(stmts[..|stmts| - 1], id).None?;
      } else {
        assert id in after <==> id in before;
      }
    }
  }

  /**
   * A successful loop holds a node for exactly the ids some statement
   * introduces, each built from the first statement that introduces it.
   */
  lemma {:induction false} GatheredNodes(rules: Rules, stmts: seq<Statement>)
    requires Gather(rules, stmts).Success?
    ensures var nodes := Gather(rules, stmts).value.table.nodes;
      && (forall id :: id in nodes <==> FirstDisplay(stmts, id).Some?)
      && (forall id :: id in nodes ==> MakeNode(rules, id, FirstDisplay(stmts, id).value) == Success(nodes[id]))
  {
    if stmts != [] {
      var prefix, s := stmts[..|stmts| - 1], stmts[|stmts| - 1];
      GatheredNodes(rules, prefix);
      var before := Gather(rules, prefix).value;
      ApplyNodes(before, rules, s);
      NodesStep(rules, stmts, before.table.nodes, Gather(rules, stmts).value.table.nodes);
    }
  }

  /** The loop fails exactly when the first introduction of some id has a display text it cannot name. */
  lemma {:induction false} GatheredFailure(rules: Rules, stmts: seq<Statement>)
    ensures Gather(rules, stmts).Failure? <==> FirstIntroductionFails(rules, stmts)
  {
    if stmts != [] {
      var prefix, s := stmts[..|stmts| - 1], stmts[|stmts| - 1];
      GatheredFailure(rules, prefix);
      var before := Gather(rules, prefix);
      var id := s.Introduced();
      if before.Failure? {
        var bad :| FirstDisplay(prefix, bad).Some? && MakeNode(rules, bad, FirstDisplay(prefix, bad).value).Failure?;
        FirstDisplayLast(stmts, bad);
      } else {
        GatheredNodes(rules, prefix);
        if id !in before.value.table.nodes && MakeNode(rules, id, s.display).Failure? {
          FirstDisplayLast(stmts, id);
        } else {
          forall other | FirstDisplay(stmts, other).Some?
            ensures MakeNode(rules, other, FirstDisplay(stmts, other).value).Success?
          {
            FirstDisplayLast(stmts, other);
          }
        }
      }
    }
  }

  /** What the loop collects from the lines it reads. */
  lemma CollectContents(lines: seq<string>, rules: Rules)
    ensures var stmts := Statements(rules, lines); var r := Collect(lines, rules);
      && (r.Success? ==> r.value.edges == EdgesOf(stmts))
      && (r.Success? ==> forall id :: id in r.value.table.nodes <==> FirstDisplay(stmts, id).Some?)
      && (r.Success? ==> forall id :: id in r.value.table.nodes ==>
            MakeNode(rules, id, FirstDisplay(stmts, id).value) == Success(r.value.table.nodes[id]))
      && (r.Failure? <==> FirstIntroductionFails(rules, stmts))
  {
    var stmts := Statements(rules, lines);
    assert Collect(lines, rules) == Gather(rules, stmts);
    GatheredFailure(rules, stmts);
    if Gather(rules, stmts).Success? {
      GatheredNodes(rules, stmts);
    }
  }

  /** The display texts the converters write, `icon + " " + name`, give back the name and the kind. */
  lemma DisplayReadsBack(rules: Rules, isDirectory: bool, name: string)
    requires IsTrimmed(name) && name != []
    ensures NodeName(rules, Display(isDirectory, name)) == Success(name)
    ensures IsFolderDisplay(Display(isDirectory, name)) == isDirectory
  {
    var d := Display(isDirectory, name);
    assert d[1..] == " " + name && d[2..] == name;
    if rules == TreeToMermaidRules {
      assert SubstringTwo(d) == Success(" " + name);
      TrimPadded(" ", name, []);
      assert " " + name + [] == " " + name;
    } else {
      assert IsNodeIcon(d[0]);
      SpaceEndIs(d, 1, 2);
      TrimTrimmed(name);
      assert ExtractNodeName(d) == name;
    }
  }
}
