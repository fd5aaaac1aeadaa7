/**
 * The round trip between the two halves of TreeToMermaidConverter: parsing
 * the diagram ConvertTreeToMermaid writes gives back, for every item, its
 * id, name, kind and full path.
 */
module RoundTrip {
  import opened Wrappers
  import opened Text
  import opened TreeNodes
  import opened DiagramSyntax
  import opened DiagramParser
  import opened Hierarchy
  import opened PreConversion
  import opened TreeToMermaid

  /** Item names a diagram carries back unchanged: non-empty, trimmed, on one line, free of quotes. */
  predicate Writable(items: seq<Entry>) {
    forall k :: 0 <= k < |items| ==>
      items[k].name != [] && IsTrimmed(items[k].name) && NoLineBreak(items[k].name) && '"' !in items[k].name
  }

  /** The display text written for the last item. */
  function DisplayOfLast(items: seq<Entry>): string
    requires items != []
  {
    var e := items[|items| - 1];
    Display(IsDirectoryName(e.name), e.name)
  }

  /** The statement the parser reads from the line of the last item. */
  function StatementOfLast(items: seq<Entry>): Statement
    requires items != []
  {
    var k := |items| - 1;
    match ParentOfLast(items)
    case None => DeclarationStatement(NodeIdOf(k), DisplayOfLast(items))
    case Some(p) => EdgeStatement(NodeIdOf(p), NodeIdOf(k), DisplayOfLast(items))
  }

  function ItemStatements(items: seq<Entry>): seq<Statement> {
    seq(|items|, k requires 0 <= k < |items| => StatementOfLast(items[..k + 1]))
  }

  lemma NodeIdIsIdentifier(k: nat)
    ensures IsIdentifier(NodeIdOf(k)) && NoLineBreak(NodeIdOf(k))
  {
    var digits := NatToString(k + 1);
    assert forall i :: 0 <= i < |digits| ==> NodeIdOf(k)[4 + i] == digits[i];
  }

  /** The display text of a writable item is a valid bracket text without line breaks. */
  lemma DisplayIsWritable(items: seq<Entry>)
    requires items != [] && Writable(items)
    ensures IsDisplayText(DisplayOfLast(items)) && NoLineBreak(DisplayOfLast(items))
  {
    var e := items[|items| - 1];
    var d := DisplayOfLast(items);
    assert d == [IconOf(IsDirectoryName(e.name)), ' '] + e.name;
    NoLineBreakConcat([IconOf(IsDirectoryName(e.name)), ' '], e.name);
    assert '"' !in e.name;
  }

  lemma DeclarationTextNoLineBreak(id: string, d: string)
    requires NoLineBreak(id) && NoLineBreak(d)
    ensures NoLineBreak(DeclarationText(id, d))
  {
    NoLineBreakConcat(id, "[\"");
    NoLineBreakConcat(id + "[\"", d);
    NoLineBreakConcat(id + "[\"" + d, "\"]");
  }

  /** Trimming an indented statement line gives back the statement text. */
  lemma TrimIndented(t: string)
    requires t != [] && IsTrimmed(t)
    ensures Trim(Indent + t) == t
  {
    TrimPadded(Indent, t, []);
    assert Indent + t + [] == Indent + t;
  }

  /** An indented declaration line is read back as that declaration. */
  lemma DeclarationLineReads(id: string, d: string)
    requires IsIdentifier(id) && IsDisplayText(d)
    ensures ReadStatement(TreeToMermaidRules, Indent + DeclarationText(id, d)) == Some(DeclarationStatement(id, d))
  {
    var decl := DeclarationText(id, d);
    assert decl[0] == id[0] && decl[|decl| - 1] == ']';
    TrimIndented(decl);
    DeclarationTextParses(id, d);
  }

  /** An indented edge line is read back as that edge. */
  lemma EdgeLineReads(p: string, id: string, d: string)
    requires IsIdentifier(p) && IsIdentifier(id) && IsDisplayText(d)
    ensures ReadStatement(TreeToMermaidRules, Indent + EdgeText(p, id, d)) == Some(EdgeStatement(p, id, d))
  {
    var edge := EdgeText(p, id, d);
    assert edge == p + " --> " + DeclarationText(id, d);
    assert edge[0] == p[0] && edge[|edge| - 1] == ']';
    TrimIndented(edge);
    EdgeTextParses(p, id, d);
  }

  lemma EdgeLineNoLineBreak(p: string, id: string, d: string)
    requires NoLineBreak(p) && NoLineBreak(id) && NoLineBreak(d)
    ensures NoLineBreak(Indent + DeclarationText(id, d)) && NoLineBreak(Indent + EdgeText(p, id, d))
  {
    var decl := DeclarationText(id, d);
    DeclarationTextNoLineBreak(id, d);
    NoLineBreakConcat(Indent, decl);
    NoLineBreakConcat(p, " --> ");
    NoLineBreakConcat(p + " --> ", decl);
    NoLineBreakConcat(Indent, EdgeText(p, id, d));
  }

  /** The line written for an item is read back as its statement. */
  lemma LineReadsBack(items: seq<Entry>)
    requires items != [] && Writable(items)
    ensures ReadStatement(TreeToMermaidRules, LineOfLast(items)) == Some(StatementOfLast(items))
    ensures LineOfLast(items) != [] && NoLineBreak(LineOfLast(items))
  {
    var k := |items| - 1;
    DisplayIsWritable(items);
    NodeIdIsIdentifier(k);
    match ParentOfLast(items)
    case None =>
      DeclarationLineReads(NodeIdOf(k), DisplayOfLast(items));
      EdgeLineNoLineBreak(NodeIdOf(k), NodeIdOf(k), DisplayOfLast(items));
    case Some(p) =>
      NodeIdIsIdentifier(p);
      EdgeLineReads(NodeIdOf(p), NodeIdOf(k), DisplayOfLast(items));
      EdgeLineNoLineBreak(NodeIdOf(p), NodeIdOf(k), DisplayOfLast(items));
  }

  // ---------------- the diagram's lines and statements ----------------

  lemma WritablePrefix(items: seq<Entry>, m: nat)
    requires Writable(items) && m <= |items|
    ensures Writable(items[..m])
  {
    assert forall k :: 0 <= k < m ==> items[..m][k] == items[k];
  }

  /** One more item adds one statement line and one statement. */
  lemma StatementsSnoc(items: seq<Entry>, e: Entry)
    ensures StatementLines(items + [e]) == StatementLines(items) + [LineOfLast(items + [e])]
    ensures ItemStatements(items + [e]) == ItemStatements(items) + [StatementOfLast(items + [e])]
  {
    var it := items + [e];
    assert it[..|items| + 1] == it;
    forall k | 0 <= k < |items|
      ensures StatementLines(it)[k] == StatementLines(items)[k]
      ensures ItemStatements(it)[k] == ItemStatements(items)[k]
    {
      assert it[..k + 1] == items[..k + 1];
    }
  }

  /** A written statement line is one non-empty line. */
  lemma LineUnbroken(items: seq<Entry>)
    requires items != [] && Writable(items)
    ensures LineOfLast(items) != [] && NoLineBreak(LineOfLast(items))
  {
    var k := |items| - 1;
    DisplayIsWritable(items);
    NodeIdIsIdentifier(k);
    match ParentOfLast(items)
    case None =>
      EdgeLineNoLineBreak(NodeIdOf(k), NodeIdOf(k), DisplayOfLast(items));
    case Some(p) =>
      NodeIdIsIdentifier(p);
      EdgeLineNoLineBreak(NodeIdOf(p), NodeIdOf(k), DisplayOfLast(items));
  }

  /** The k-th statement line is one non-empty line. */
  lemma LineSplittableAt(items: seq<Entry>, k: nat)
    requires Writable(items) && k < |items|
    ensures StatementLines(items)[k] != [] && NoLineBreak(StatementLines(items)[k])
  {
    WritablePrefix(items, k + 1);
    LineUnbroken(items[..k + 1]);
  }

  /** The statement lines split apart. */
  lemma LinesSplittable(items: seq<Entry>)
    requires Writable(items)
    ensures IsSplittable(StatementLines(items))
  {
    forall k | 0 <= k < |items|
      ensures StatementLines(items)[k] != [] && NoLineBreak(StatementLines(items)[k])
    {
      LineSplittableAt(items, k);
    }
  }

  /** The statement lines are read back as the items' statements. */
  lemma {:induction false} StatementsOfLines(items: seq<Entry>)
    requires Writable(items)
    ensures Statements(TreeToMermaidRules, StatementLines(items)) == ItemStatements(items)
  {
    if items != [] {
      var init, e := items[..|items| - 1], items[|items| - 1];
      assert items == init + [e];
      WritablePrefix(items, |items| - 1);
      StatementsOfLines(init);
      StatementsSnoc(init, e);
      LineReadsBack(items);
      var lines := StatementLines(items);
      assert lines[..|lines| - 1] == StatementLines(init);
    }
  }

  lemma DiagramSplittable(items: seq<Entry>)
    requires Writable(items)
    ensures IsSplittable(DiagramLines(items))
  {
    LinesSplittable(items);
    assert Header[0] == 'g' && NoLineBreak(Header);
    SplittableCons(Header, StatementLines(items));
  }

  /** The diagram text splits back into its header and statement lines. */
  lemma DiagramSplits(items: seq<Entry>)
    requires Writable(items)
    ensures !IsBlank(JoinLines(DiagramLines(items)))
    ensures SkipFirst(SplitLines(JoinLines(DiagramLines(items)))) == StatementLines(items)
  {
    var lines := DiagramLines(items);
    DiagramSplittable(items);
    SplitJoin(lines);
    var text := JoinLines(lines);
    assert text == Header + NewLine + JoinLines(lines[1..]);
    assert text[0] == 'g';
    NotBlank(text);
  }

  // ---------------- the collected dictionary and relationships ----------------

  /** The ids of the first `n` items. */
  function IdsBelow(n: nat): set<string> {
    set k | 0 <= k < n :: NodeIdOf(k)
  }

  lemma IdFresh(n: nat)
    ensures NodeIdOf(n) !in IdsBelow(n)
  {
    forall k | 0 <= k < n
      ensures NodeIdOf(k) != NodeIdOf(n)
    {
      NodeIdInjective(k, n);
    }
  }

  lemma StatementIds(items: seq<Entry>, k: nat)
    requires k < |items|
    ensures ItemStatements(items)[k].Introduced() == NodeIdOf(k)
    ensures ItemStatements(items)[k].display == DisplayOfLast(items[..k + 1])
  {
  }

  /** The parent id the diagram gives item `k`. */
  function ParentIdOf(items: seq<Entry>, k: nat): Option<string>
    requires k < |items|
  {
    match ParentOfLast(items[..k + 1])
    case None => None
    case Some(p) => Some(NodeIdOf(p))
  }

  lemma ItemEdgesSnoc(items: seq<Entry>)
    requires items != []
    ensures EdgesOf(ItemStatements(items))
      == EdgesOf(ItemStatements(items[..|items| - 1])) + StatementOfLast(items).Relationship()
  {
    var init, e := items[..|items| - 1], items[|items| - 1];
    assert items == init + [e];
    StatementsSnoc(init, e);
    EdgesOfSnoc(ItemStatements(init), StatementOfLast(items));
  }

  /** Every relationship names an item as child, and no item twice. */
  lemma {:induction false} ItemChildren(items: seq<Entry>)
    ensures var edges := EdgesOf(ItemStatements(items));
      && NoDuplicateChild(edges)
      && (forall i :: 0 <= i < |edges| ==> edges[i].1 in IdsBelow(|items|))
  {
    if items != [] {
      var n := |items| - 1;
      ItemChildren(items[..n]);
      ItemEdgesSnoc(items);
      IdFresh(n);
      var before := EdgesOf(ItemStatements(items[..n]));
      var edges := EdgesOf(ItemStatements(items));
      assert forall i :: 0 <= i < |before| ==> edges[i] == before[i];
      assert forall i :: |before| <= i < |edges| ==> edges[i].1 == NodeIdOf(n);
      assert IdsBelow(n) <= IdsBelow(n + 1);
      assert NodeIdOf(n) in IdsBelow(n + 1);
    }
  }

  /** The relationship recorded for the last item: one from its parent, if it has one. */
  lemma RelationshipOfLast(items: seq<Entry>)
    requires items != []
    ensures StatementOfLast(items).Relationship() ==
      match ParentIdOf(items, |items| - 1)
      case None => []
      case Some(p) => [(p, NodeIdOf(|items| - 1))]
  {
    assert items[..|items|] == items;
  }

  /** The newest item's parent comes from its own relationship alone. */
  lemma ParentOfNewest(items: seq<Entry>)
    requires items != []
    ensures ParentOf(EdgesOf(ItemStatements(items)), NodeIdOf(|items| - 1)) == ParentIdOf(items, |items| - 1)
  {
    var n := |items| - 1;
    var init := items[..n];
    ItemChildren(init);
    ItemEdgesSnoc(items);
    IdFresh(n);
    var before := EdgesOf(ItemStatements(init));
    var rel := StatementOfLast(items).Relationship();
    ParentOfAbsent(before, NodeIdOf(n));
    RelationshipOfLast(items);
    ParentOfAppend(before, rel, NodeIdOf(n), NodeIdOf(n));
  }

  /** The newest item's relationship, if any, names it as the child. */
  lemma RelationshipShape(items: seq<Entry>)
    requires items != []
    ensures var rel := StatementOfLast(items).Relationship();
      rel == [] || (|rel| == 1 && rel[0].1 == NodeIdOf(|items| - 1))
  {
    RelationshipOfLast(items);
  }

  /** Dropping the newest item leaves the parents of the earlier ones as they were. */
  lemma ParentIdOfPrefix(items: seq<Entry>, k: nat)
    requires k + 1 < |items|
    ensures ParentIdOf(items[..|items| - 1], k) == ParentIdOf(items, k)
  {
    assert items[..|items| - 1][..k + 1] == items[..k + 1];
  }

  /** An earlier item keeps the parent it had before the newest item was added. */
  lemma ParentOfEarlier(items: seq<Entry>, k: nat)
    requires k + 1 < |items|
    requires ParentOf(EdgesOf(ItemStatements(items[..|items| - 1])), NodeIdOf(k)) == ParentIdOf(items[..|items| - 1], k)
    ensures ParentOf(EdgesOf(ItemStatements(items)), NodeIdOf(k)) == ParentIdOf(items, k)
  {
    EarlierEdges(items, k);
    ParentIdOfPrefix(items, k);
  }

  /** The newest item's relationship does not name an earlier item as its child. */
  lemma EarlierEdges(items: seq<Entry>, k: nat)
    requires k + 1 < |items|
    ensures ParentOf(EdgesOf(ItemStatements(items)), NodeIdOf(k))
         == ParentOf(EdgesOf(ItemStatements(items[..|items| - 1])), NodeIdOf(k))
  {
    var n := |items| - 1;
    var before := EdgesOf(ItemStatements(items[..n]));
    var rel := StatementOfLast(items).Relationship();
    ItemEdgesSnoc(items);
    RelationshipShape(items);
    NodeIdInjective(k, n);
    ParentOfAppend(before, rel, NodeIdOf(n), NodeIdOf(k));
  }

  /** The parent the relationships give item `k` is the one the stack gave it. */
  lemma ItemParents(items: seq<Entry>)
    ensures forall k :: 0 <= k < |items| ==>
      ParentOf(EdgesOf(ItemStatements(items)), NodeIdOf(k)) == ParentIdOf(items, k)
  {
    forall k | 0 <= k < |items|
      ensures ParentOf(EdgesOf(ItemStatements(items)), NodeIdOf(k)) == ParentIdOf(items, k)
    {
      ItemParent(items, k);
    }
  }

  /** Item `k` keeps its parent as later items are added, by induction on them. */
  lemma {:induction false} ItemParent(items: seq<Entry>, k: nat)
    requires k < |items|
    ensures ParentOf(EdgesOf(ItemStatements(items)), NodeIdOf(k)) == ParentIdOf(items, k)
    decreases |items|
  {
    if k + 1 < |items| {
      ItemParent(items[..|items| - 1], k);
      ParentOfEarlier(items, k);
    } else {
      ParentOfNewest(items);
    }
  }

  /** Each item's statement is the first to introduce its id. */
  lemma FirstDisplayOfItem(items: seq<Entry>, k: nat)
    requires k < |items|
    ensures FirstDisplay(ItemStatements(items), NodeIdOf(k)) == Some(DisplayOfLast(items[..k + 1]))
  {
    var stmts := ItemStatements(items);
    forall j | 0 <= j < k
      ensures stmts[j].Introduced() != stmts[k].Introduced()
    {
      StatementIds(items, j);
      StatementIds(items, k);
      NodeIdInjective(j, k);
    }
    StatementIds(items, k);
    FirstDisplayAt(stmts, k);
  }

  /** Only item ids are introduced, each by a display text the parser names without fault. */
  lemma IntroducedOnlyItems(items: seq<Entry>, id: string)
    requires Writable(items) && FirstDisplay(ItemStatements(items), id).Some?
    ensures id in IdsBelow(|items|)
    ensures MakeNode(TreeToMermaidRules, id, FirstDisplay(ItemStatements(items), id).value).Success?
  {
    var stmts := ItemStatements(items);
    FirstDisplayFound(stmts, id);
    var i :| 0 <= i < |stmts| && stmts[i].Introduced() == id && FirstDisplay(stmts, id).value == stmts[i].display;
    StatementIds(items, i);
    var e := items[..i + 1][i];
    assert e == items[i];
    WritablePrefix(items, i + 1);
    DisplayReadsBack(TreeToMermaidRules, IsDirectoryName(e.name), e.name);
  }

  /** Reading the statement lines collects one node per item, and the items' relationships. */
  lemma CollectedItems(items: seq<Entry>)
    requires Writable(items)
    ensures var c := Collect(StatementLines(items), TreeToMermaidRules);
      && c.Success?
      && c.value.edges == EdgesOf(ItemStatements(items))
      && (forall id :: id in c.value.table.nodes <==> id in IdsBelow(|items|))
      && (forall k :: 0 <= k < |items| ==>
            c.value.table.nodes[NodeIdOf(k)] == NewNode(NodeIdOf(k), items[k].name, IsDirectoryName(items[k].name)))
  {
    var stmts := ItemStatements(items);
    var rules := TreeToMermaidRules;
    StatementsOfLines(items);
    CollectContents(StatementLines(items), rules);
    forall id | FirstDisplay(stmts, id).Some?
      ensures MakeNode(rules, id, FirstDisplay(stmts, id).value).Success? && id in IdsBelow(|items|)
    {
      IntroducedOnlyItems(items, id);
    }
    assert !FirstIntroductionFails(rules, stmts);
    var c := Collect(StatementLines(items), rules).value;
    forall id
      ensures id in c.table.nodes <==> id in IdsBelow(|items|)
    {
      if id in IdsBelow(|items|) {
        var k :| 0 <= k < |items| && id == NodeIdOf(k);
        FirstDisplayOfItem(items, k);
      }
    }
    forall k | 0 <= k < |items|
      ensures c.table.nodes[NodeIdOf(k)] == NewNode(NodeIdOf(k), items[k].name, IsDirectoryName(items[k].name))
    {
      FirstDisplayOfItem(items, k);
      var e := items[..k + 1][k];
      assert e == items[k];
      DisplayReadsBack(rules, IsDirectoryName(e.name), e.name);
    }
  }

  // ---------------- resolution and the round trip ----------------

  /** Every item is reached by the resolution, at the path the stack gave it. */
  /** An item without a parent has its name as path. */
  lemma RootItemPath(items: seq<Entry>, edges: seq<Edge>, r: NodeMap, k: nat)
    requires k < |items| && RootsNamed(edges, r)
    requires NodeIdOf(k) in r && r[NodeIdOf(k)].name == items[k].name
    requires ParentOfLast(items[..k + 1]) == None && ParentOf(edges, NodeIdOf(k)) == None
    ensures r[NodeIdOf(k)].fullPath == Some(PathOfLast(items[..k + 1]))
  {
    assert items[..k + 1][k] == items[k];
  }

  /** An item below item `p` has the path of `p`, a slash and its name. */
  lemma ChildItemPath(items: seq<Entry>, edges: seq<Edge>, r: NodeMap, k: nat, p: nat)
    requires k < |items| && PathsExtend(edges, r)
    requires NodeIdOf(k) in r && r[NodeIdOf(k)].name == items[k].name
    requires ParentOfLast(items[..k + 1]) == Some(p) && ParentOf(edges, NodeIdOf(k)) == Some(NodeIdOf(p))
    requires NodeIdOf(p) in r && r[NodeIdOf(p)].fullPath == Some(PathOfLast(items[..p + 1]))
    ensures r[NodeIdOf(k)].fullPath == Some(PathOfLast(items[..k + 1]))
  {
    var prefix := items[..k + 1];
    assert prefix[k] == items[k];
    assert prefix[..p + 1] == items[..p + 1];
  }

  lemma {:induction false} ResolvedPaths(items: seq<Entry>, init: NodeMap, edges: seq<Edge>, r: NodeMap, k: nat)
    requires SameNodes(init, r) && RootsNamed(edges, r) && PathsExtend(edges, r)
    requires forall id :: id in init <==> id in IdsBelow(|items|)
    requires forall j :: 0 <= j < |items| ==> init[NodeIdOf(j)].name == items[j].name
    requires forall j :: 0 <= j < |items| ==> ParentOf(edges, NodeIdOf(j)) == ParentIdOf(items, j)
    requires k < |items|
    ensures NodeIdOf(k) in r && r[NodeIdOf(k)].fullPath == Some(PathOfLast(items[..k + 1]))
    decreases k
  {
    var id := NodeIdOf(k);
    assert id in IdsBelow(|items|);
    assert ParentOf(edges, id) == ParentIdOf(items, k);
    match ParentOfLast(items[..k + 1])
    case None =>
      RootItemPath(items, edges, r, k);
    case Some(p) =>
      ResolvedPaths(items, init, edges, r, p);
      ChildItemPath(items, edges, r, k, p);
  }


  /** What a node keeps across the round trip: id, name, kind and full path. */
  function Fact(n: TreeNode): (string, string, bool, Option<string>) {
    (n.nodeId, n.name, n.isDirectory, n.fullPath)
  }

  function Facts(nodes: seq<TreeNode>): set<(string, string, bool, Option<string>)> {
    set n | n in nodes :: Fact(n)
  }

  /** The ids of the first `n` items, in order. */
  function ItemIds(n: nat): (ids: seq<string>)
    ensures |ids| == n && forall k :: 0 <= k < n ==> ids[k] == NodeIdOf(k)
    ensures forall id :: id in ids <==> id in IdsBelow(n)
  {
    seq(n, k requires 0 <= k < n => NodeIdOf(k))
  }

  /** The resolved dictionary holds every item's node, with what the stack recorded for it. */
  lemma ResolvedItems(items: seq<Entry>, c: Collected, r: NodeMap)
    requires Writable(items)
    requires Resolved(c.table.nodes, c.edges, r, false)
    requires Collect(StatementLines(items), TreeToMermaidRules) == Success(c)
    ensures forall id :: id in r <==> id in ItemIds(|items|)
    ensures forall k :: 0 <= k < |items| ==> Fact(r[ItemIds(|items|)[k]]) == Fact(Nodes(items)[k])
  {
    CollectedItems(items);
    ItemParents(items);
    var ids := ItemIds(|items|);
    assert r.Keys == c.table.nodes.Keys;
    forall k | 0 <= k < |items|
      ensures Fact(r[ids[k]]) == Fact(Nodes(items)[k])
    {
      ResolvedPlacement(c.table.nodes, c.edges, r, false);
      ResolvedPaths(items, c.table.nodes, c.edges, r, k);
      ItemFact(items, c, r, k);
    }
  }

  lemma ItemFact(items: seq<Entry>, c: Collected, r: NodeMap, k: nat)
    requires k < |items| && NodeIdOf(k) in r && NodeIdOf(k) in c.table.nodes
    requires SameNodes(c.table.nodes, r)
    requires c.table.nodes[NodeIdOf(k)] == NewNode(NodeIdOf(k), items[k].name, IsDirectoryName(items[k].name))
    requires r[NodeIdOf(k)].fullPath == Some(PathOfLast(items[..k + 1]))
    ensures Fact(r[ItemIds(|items|)[k]]) == Fact(Nodes(items)[k])
  {
    assert items[..k + 1][k] == items[k];
    assert Nodes(items)[k] == NodeOfLast(items[..k + 1]);
  }

  /** Nodes listed id by id with the same facts as the dictionary's give the dictionary's facts. */
  lemma SameFacts(r: NodeMap, ids: seq<string>, ns: seq<TreeNode>, nodes: seq<TreeNode>)
    requires |ids| == |ns|
    requires forall n :: n in nodes <==> n in r.Values
    requires forall id :: id in r <==> id in ids
    requires forall k :: 0 <= k < |ids| ==> ids[k] in r && Fact(r[ids[k]]) == Fact(ns[k])
    ensures Facts(nodes) == Facts(ns)
  {
    forall f | f in Facts(nodes)
      ensures f in Facts(ns)
    {
      var n :| n in nodes && f == Fact(n);
      var id :| id in r && r[id] == n;
      var k :| 0 <= k < |ids| && ids[k] == id;
      assert ns[k] in ns;
    }
    forall f | f in Facts(ns)
      ensures f in Facts(nodes)
    {
      var n :| n in ns && f == Fact(n);
      var k :| 0 <= k < |ns| && ns[k] == n;
      assert r[ids[k]] in r.Values;
    }
  }

  /** The nodes listed from a resolution of the items' collection carry the items' facts. */
  lemma ResolvedFacts(items: seq<Entry>, c: Collected, r: NodeMap, nodes: seq<TreeNode>)
    requires Writable(items)
    requires Collect(StatementLines(items), TreeToMermaidRules) == Success(c)
    requires Resolved(c.table.nodes, c.edges, r, false)
    requires forall n :: n in nodes <==> n in r.Values
    ensures Facts(nodes) == Facts(Nodes(items))
  {
    ResolvedItems(items, c, r);
    SameFacts(r, ItemIds(|items|), Nodes(items), nodes);
  }

  /**
   * Parsing the diagram of writable items gives back exactly the id, name,
   * kind and full path of every recorded node.
   */
  lemma DiagramRoundTrip(items: seq<Entry>, nodes: seq<TreeNode>)
    requires Writable(items)
    requires ParsesTo(JoinLines(DiagramLines(items)), nodes)
    ensures Facts(nodes) == Facts(Nodes(items))
  {
    var text := JoinLines(DiagramLines(items));
    DiagramSplits(items);
    CollectedItems(items);
    ItemChildren(items);
    var c := Collect(StatementLines(items), TreeToMermaidRules).value;
    assert Collect(SkipFirst(SplitLines(text)), TreeToMermaidRules) == Success(c);
    ParsedValues(text, nodes);
    var r :| Resolved(c.table.nodes, c.edges, r, false)
      && |nodes| == |r.Keys| && forall n :: n in nodes <==> n in r.Values;
    ResolvedFacts(items, c, r, nodes);
  }

  /** The items of a tree text whose names hold no quote can all be written into a diagram. */
  lemma TextWritable(treeText: string)
    requires !IsBlank(treeText)
    requires forall e :: e in Entries(SplitLines(treeText)) ==> '"' !in e.name
    ensures Writable(Items(PreConverted(treeText)))
  {
    var entries := Entries(SplitLines(treeText));
    ConvertedItems(treeText);
    EntryNames(SplitLines(treeText));
    var items := Named(entries);
    forall k | 0 <= k < |items|
      ensures items[k].name != [] && IsTrimmed(items[k].name) && NoLineBreak(items[k].name) && '"' !in items[k].name
    {
      var i :| 0 <= i < |entries| && entries[i] == items[k];
    }
  }

  /**
   * Converting a tree text and parsing the resulting diagram back gives
   * the same ids, names, kinds and full paths as the conversion reported.
   */
  method ConvertAndParse(treeText: string) returns (converted: ConversionResult, parsed: seq<TreeNode>)
    requires forall e :: e in Entries(SplitLines(treeText)) ==> '"' !in e.name
    ensures converted == ConvertedTree(treeText)
    ensures ParsesTo(converted.mermaidDiagram, parsed)
    ensures Facts(parsed) == Facts(converted.parsedNodes)
  {
    converted := ConvertTreeToMermaid(treeText);
    parsed := ParseMermaidToNodes(converted.mermaidDiagram);
    if !IsBlank(treeText) {
      TextWritable(treeText);
      DiagramRoundTrip(Items(PreConverted(treeText)), parsed);
    }
  }
}
