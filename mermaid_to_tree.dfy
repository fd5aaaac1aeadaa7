/**
 * MermaidToTreeConverter: a Mermaid flowchart read back into nodes with
 * their Children lists (ParseMermaidDiagram, BuildHierarchy), drawn as an
 * ASCII tree with box-drawing branches or as an icon tree with two-space
 * indentation, and every outcome wrapped in a ConversionResult.
 *
 * The node objects are the values of the resolved dictionary `heap`; a
 * Children list holds the ids of the child objects, which `heap` maps back
 * to them. The StringBuilder the renderers append to is the sequence of
 * lines they produce; AppendLine puts a line break after each of them.
 */
module MermaidToTree {
  import opened Wrappers
  import opened Text
  import opened Sorting
  import opened TreeNodes
  import opened DiagramSyntax
  import opened DiagramParser
  import opened Hierarchy
  import opened PreConversion

  datatype ConversionResult = ConversionResult(
    treeText: string,
    isSuccess: bool,
    errorMessage: Option<string>,
    parsedNodes: seq<TreeNode>)

  const EmptyDiagramMessage: string := "Mermaid diagram is empty"
  const NoNodesMessage: string := "No valid nodes found in Mermaid diagram"
  const ErrorPrefix: string := "Error converting Mermaid to tree: "

  /** The parsed node list and the node objects its Children lists refer to. */
  datatype Parsed = Parsed(nodes: seq<TreeNode>, heap: NodeMap)

  // ---------------- parsing ----------------

  /** The statement loop of ParseMermaidDiagram never fails: ExtractNodeName takes any display text. */
  lemma DiagramCollects(lines: seq<string>)
    ensures Collect(lines, MermaidToTreeRules).Success?
  {
  }

  /** The collected dictionary and relationships of a diagram. */
  function CollectedOf(mermaidDiagram: string): Collected {
    DiagramCollects(SkipFirst(SplitLines(mermaidDiagram)));
    Collect(SkipFirst(SplitLines(mermaidDiagram)), MermaidToTreeRules).value
  }

  /**
   * What ParseMermaidDiagram yields: the exception of the relationship
   * dictionary when a child is named twice; otherwise the dictionary after
   * BuildHierarchy, whose values, ordered by level then path, are the nodes.
   */
  ghost predicate DiagramParsesTo(mermaidDiagram: string, r: Result<Parsed, Fault>) {
    var c := CollectedOf(mermaidDiagram);
    if !NoDuplicateChild(c.edges) then r == Failure(ChildParentMap(c.edges).error)
    else
      && r.Success?
      && Resolved(c.table.nodes, c.edges, r.value.heap, true)
      && SortedValues(r.value.heap, c.table.order, r.value.nodes)
  }

  /** MermaidToTreeConverter.ParseMermaidDiagram with BuildHierarchy. */
  method ParseMermaidDiagram(mermaidDiagram: string) returns (r: Result<Parsed, Fault>)
    ensures DiagramParsesTo(mermaidDiagram, r)
  {
    var lines := SplitLines(mermaidDiagram);
    var collected := CollectStatements(SkipFirst(lines), MermaidToTreeRules);
    DiagramCollects(SkipFirst(lines));
    var c := collected.value;
    assert c == CollectedOf(mermaidDiagram);
    var resolved := Resolve(c.table, c.edges, true);
    if resolved.Failure? {
      r := Failure(resolved.error);
      ParsedOnFailure(mermaidDiagram, c, resolved.error);
      return;
    }
    var heap := resolved.value;
    OrderInResolved(c.table, c.edges, heap);
    var nodes := SortBy(ValuesInOrder(heap, c.table.order), ByLevelThenPath);
    r := Success(Parsed(nodes, heap));
    ParsedOnSuccess(mermaidDiagram, c, r.value);
  }

  lemma ParsedOnFailure(mermaidDiagram: string, c: Collected, e: Fault)
    requires c == CollectedOf(mermaidDiagram) && !NoDuplicateChild(c.edges)
    requires ChildParentMap(c.edges) == Failure(e)
    ensures DiagramParsesTo(mermaidDiagram, Failure(e))
  {
  }

  /** Every id the dictionary enumerates is a key of the resolved dictionary. */
  lemma OrderInResolved(table: NodeTable, edges: seq<Edge>, heap: NodeMap)
    requires ValidTable(table) && Resolved(table.nodes, edges, heap, true)
    ensures forall i :: 0 <= i < |table.order| ==> table.order[i] in heap
  {
    assert heap.Keys == table.nodes.Keys;
  }

  lemma ParsedOnSuccess(mermaidDiagram: string, c: Collected, p: Parsed)
    requires c == CollectedOf(mermaidDiagram) && NoDuplicateChild(c.edges)
    requires Resolved(c.table.nodes, c.edges, p.heap, true)
    requires SortedValues(p.heap, c.table.order, p.nodes)
    ensures DiagramParsesTo(mermaidDiagram, Success(p))
  {
  }

  /** The parsed nodes are the dictionary's objects, each once, ordered by level then path. */
  lemma ParsedNodes(mermaidDiagram: string, p: Parsed)
    requires DiagramParsesTo(mermaidDiagram, Success(p))
    ensures |p.nodes| == |p.heap.Keys| && forall n :: n in p.nodes <==> n in p.heap.Values
    ensures Sorted(p.nodes, ByLevelThenPath)
    ensures forall id :: id in p.heap ==> p.heap[id].nodeId == id
  {
    var c := CollectedOf(mermaidDiagram);
    assert p.heap.Keys == c.table.nodes.Keys;
    SortedValuesElements(p.heap, c.table.order, p.nodes);
    ByLevelThenPathIsTotalPreorder();
    SortBySorted(ValuesInOrder(p.heap, c.table.order), ByLevelThenPath);
  }

  // ---------------- the node graph the renderers walk ----------------

  /** Node `n` and the objects its Children list names: children are one level below it. */
  ghost predicate Fits(heap: NodeMap, bound: nat, n: TreeNode) {
    && n.level <= bound
    && forall c :: c in n.children ==> c in heap && heap[c].level == n.level + 1
  }

  /** Every object of `heap` fits, its level at most `bound`. */
  ghost predicate Layered(heap: NodeMap, bound: nat) {
    forall n :: n in heap.Values ==> Fits(heap, bound, n)
  }

  /** The largest level in `nodes`, 0 for none. */
  function MaxLevel(nodes: seq<TreeNode>): (m: nat)
    ensures forall i :: 0 <= i < |nodes| ==> nodes[i].level <= m
    ensures nodes != [] ==> exists i :: 0 <= i < |nodes| && nodes[i].level == m
  {
    if nodes == [] then 0
    else
      var rest := MaxLevel(nodes[1..]);
      assert forall i :: 1 <= i < |nodes| ==> nodes[i] == nodes[1..][i - 1];
      if nodes[0].level >= rest then nodes[0].level
      else
        var i :| 0 <= i < |nodes[1..]| && nodes[1..][i].level == rest;
        assert nodes[i + 1].level == rest;
        rest
  }

  /** After BuildHierarchy every Children list names objects one level below their parent. */
  lemma ResolvedLayered(init: NodeMap, edges: seq<Edge>, heap: NodeMap, nodes: seq<TreeNode>)
    requires Resolved(init, edges, heap, true) && NoDuplicateChild(edges)
    requires forall n :: n in nodes <==> n in heap.Values
    ensures Layered(heap, MaxLevel(nodes))
  {
    forall n | n in heap.Values
      ensures Fits(heap, MaxLevel(nodes), n)
    {
      var i :| 0 <= i < |nodes| && nodes[i] == n;
      var id :| id in heap && heap[id] == n;
      forall c | c in n.children
        ensures c in heap && heap[c].level == n.level + 1
      {
        ResolvedIsLinked(init, edges, heap, true, id, c);
      }
    }
  }

  // ---------------- ordering ----------------

  /** The key of `OrderBy(n => n.Name)`. */
  predicate ByName(a: TreeNode, b: TreeNode) {
    LexLe(a.name, b.name)
  }

  /** The key of `OrderBy(c => c.IsDirectory ? 0 : 1).ThenBy(c => c.Name)`. */
  predicate DirectoriesThenName(a: TreeNode, b: TreeNode) {
    (a.isDirectory && !b.isDirectory) || (a.isDirectory == b.isDirectory && LexLe(a.name, b.name))
  }

  lemma ByNameIsTotalPreorder()
    ensures IsTotalPreorder(ByName)
  {
    forall a: TreeNode, b: TreeNode
      ensures ByName(a, b) || ByName(b, a)
    {
      LexLeTotal(a.name, b.name);
    }
    forall a: TreeNode, b: TreeNode, c: TreeNode | ByName(a, b) && ByName(b, c)
      ensures ByName(a, c)
    {
      LexLeTransitive(a.name, b.name, c.name);
    }
  }

  lemma DirectoriesThenNameIsTotalPreorder()
    ensures IsTotalPreorder(DirectoriesThenName)
  {
    forall a: TreeNode, b: TreeNode
      ensures DirectoriesThenName(a, b) || DirectoriesThenName(b, a)
    {
      LexLeTotal(a.name, b.name);
    }
    forall a: TreeNode, b: TreeNode, c: TreeNode | DirectoriesThenName(a, b) && DirectoriesThenName(b, c)
      ensures DirectoriesThenName(a, c)
    {
      if a.isDirectory == b.isDirectory == c.isDirectory {
        LexLeTransitive(a.name, b.name, c.name);
      }
    }
  }

  /** `nodes.Where(n => n.Level == 0)`. */
  function TopLevel(nodes: seq<TreeNode>): (r: seq<TreeNode>)
    ensures forall n :: n in r <==> n in nodes && n.level == 0
  {
    if nodes == [] then []
    else TopLevel(nodes[..|nodes| - 1]) + (if nodes[|nodes| - 1].level == 0 then [nodes[|nodes| - 1]] else [])
  }

  /** `nodes.Where(n => n.Level == 0).OrderBy(n => n.Name)`: the nodes drawn as roots. */
  function Roots(nodes: seq<TreeNode>): (r: seq<TreeNode>)
    ensures forall n :: n in r <==> n in nodes && n.level == 0
  {
    SortByElements(TopLevel(nodes), ByName);
    SortBy(TopLevel(nodes), ByName)
  }

  /** The roots are exactly the level-0 nodes, each as often as it is listed, ordered by name. */
  lemma RootsOrdered(nodes: seq<TreeNode>)
    ensures multiset(Roots(nodes)) == multiset(TopLevel(nodes))
    ensures Sorted(Roots(nodes), ByName)
  {
    ByNameIsTotalPreorder();
    SortBySorted(TopLevel(nodes), ByName);
  }

  /** The objects a Children list names, in list order. */
  function ChildNodes(heap: NodeMap, ids: seq<string>): (r: seq<TreeNode>)
    requires forall c :: c in ids ==> c in heap
    ensures |r| == |ids| && forall i :: 0 <= i < |ids| ==> r[i] == heap[ids[i]]
  {
    seq(|ids|, i requires 0 <= i < |ids| => heap[ids[i]])
  }

  /** `node.Children.OrderBy(c => c.IsDirectory ? 0 : 1).ThenBy(c => c.Name)`. */
  function SortedChildren(heap: NodeMap, n: TreeNode): (r: seq<TreeNode>)
    requires forall c :: c in n.children ==> c in heap
    ensures forall k :: k in r <==> k in ChildNodes(heap, n.children)
  {
    SortByElements(ChildNodes(heap, n.children), DirectoriesThenName);
    SortBy(ChildNodes(heap, n.children), DirectoriesThenName)
  }

  /** The children are drawn directories first, then by name, and they are exactly the listed children. */
  lemma ChildrenOrdered(heap: NodeMap, n: TreeNode)
    requires forall c :: c in n.children ==> c in heap
    ensures Sorted(SortedChildren(heap, n), DirectoriesThenName)
    ensures multiset(SortedChildren(heap, n)) == multiset(ChildNodes(heap, n.children))
  {
    DirectoriesThenNameIsTotalPreorder();
    SortBySorted(ChildNodes(heap, n.children), DirectoriesThenName);
  }

  /** The children of a fitting node are objects of `heap` one level below it. */
  lemma ChildrenFit(heap: NodeMap, bound: nat, n: TreeNode)
    requires Fits(heap, bound, n)
    ensures forall k :: k in SortedChildren(heap, n) ==> k in heap.Values && k.level == n.level + 1
  {
    var kids := ChildNodes(heap, n.children);
    forall k | k in SortedChildren(heap, n)
      ensures k in heap.Values && k.level == n.level + 1
    {
      var i :| 0 <= i < |kids| && kids[i] == k;
      assert n.children[i] in n.children;
    }
  }

  // ---------------- the depth-first walk both renderers make ----------------

  /** The nodes in the order the renderers visit them: `n`, then each sorted child's subtree. */
  function Visit(heap: NodeMap, bound: nat, n: TreeNode): (r: seq<TreeNode>)
    requires Layered(heap, bound) && n in heap.Values
    ensures r != [] && r[0] == n
    ensures forall k :: k in r ==> k in heap.Values && n.level <= k.level
    decreases bound - n.level, 1, 0
  {
    ChildrenFit(heap, bound, n);
    [n] + VisitAll(heap, bound, SortedChildren(heap, n), n.level + 1)
  }

  /** The subtrees of `kids`, one after the other. */
  function VisitAll(heap: NodeMap, bound: nat, kids: seq<TreeNode>, level: nat): (r: seq<TreeNode>)
    requires Layered(heap, bound) && level <= bound + 1
    requires forall k :: k in kids ==> k in heap.Values && k.level == level
    ensures forall k :: k in r ==> k in heap.Values && level <= k.level
    ensures forall k :: k in kids ==> k in r
    decreases bound + 1 - level, 0, |kids|
  {
    if kids == [] then []
    else
      assert kids[0] in kids;
      Visit(heap, bound, kids[0]) + VisitAll(heap, bound, kids[1..], level)
  }

  /** The subtrees of the roots, one after the other: every node the renderers draw, in drawing order. */
  function VisitRoots(heap: NodeMap, bound: nat, roots: seq<TreeNode>): (r: seq<TreeNode>)
    requires Layered(heap, bound) && forall n :: n in roots ==> n in heap.Values
    ensures forall k :: k in r ==> k in heap.Values
  {
    if roots == [] then []
    else
      assert roots[0] in roots;
      Visit(heap, bound, roots[0]) + VisitRoots(heap, bound, roots[1..])
  }

  // ---------------- the ASCII renderer ----------------

  const Branch: string := "\U{251C}\U{2500}\U{2500} "      // "├── "
  const LastBranch: string := "\U{2514}\U{2500}\U{2500} "  // "└── "
  const Guide: string := "\U{2502}   "                       // "│   "
  const Gap: string := "    "

  /** The branch before a node's name: the closing one for the last of its siblings. */
  function BranchFor(isLast: bool): string {
    if isLast then LastBranch else Branch
  }

  /** What the children's prefix grows by: blank below a last node, a vertical guide otherwise. */
  function GuideFor(isLast: bool): string {
    if isLast then Gap else Guide
  }

  /** GenerateAsciiTreeRecursive: the node's line, then its sorted children below a longer prefix. */
  function AsciiNode(heap: NodeMap, bound: nat, n: TreeNode, prefix: string, isLast: bool): (r: seq<string>)
    requires Layered(heap, bound) && n in heap.Values
    ensures r != [] && r[0] == prefix + (if isLast then LastBranch else Branch) + n.name
    decreases bound - n.level, 1, 0
  {
    ChildrenFit(heap, bound, n);
    [prefix + BranchFor(isLast) + n.name]
    + AsciiChildren(heap, bound, SortedChildren(heap, n), n.level + 1, prefix + GuideFor(isLast))
  }

  /** The loop over the sorted children: only the last one is drawn with the closing branch. */
  function AsciiChildren(heap: NodeMap, bound: nat, kids: seq<TreeNode>, level: nat, prefix: string): (r: seq<string>)
    requires Layered(heap, bound) && level <= bound + 1
    requires forall k :: k in kids ==> k in heap.Values && k.level == level
    ensures kids == [] <==> r == []
    ensures kids != [] ==> r[0] == prefix + BranchFor(|kids| == 1) + kids[0].name
    decreases bound + 1 - level, 0, |kids|
  {
    if kids == [] then []
    else
      assert kids[0] in kids;
      AsciiNode(heap, bound, kids[0], prefix, |kids| == 1) + AsciiChildren(heap, bound, kids[1..], level, prefix)
  }

  /** GenerateAsciiTree's loop: each root drawn as a last node under an empty prefix. */
  function AsciiRoots(heap: NodeMap, bound: nat, roots: seq<TreeNode>): (r: seq<string>)
    requires Layered(heap, bound) && forall n :: n in roots ==> n in heap.Values
    ensures roots == [] <==> r == []
    ensures roots != [] ==> r[0] == LastBranch + roots[0].name
  {
    if roots == [] then []
    else
      assert roots[0] in roots;
      AsciiNode(heap, bound, roots[0], "", true) + AsciiRoots(heap, bound, roots[1..])
  }

  // ---------------- the icon renderer ----------------

  const IconIndent: string := "  "

  /** GenerateIconTreeRecursive: the node's icon and name, then its sorted children two spaces further in. */
  function IconNode(heap: NodeMap, bound: nat, n: TreeNode, indent: string): (r: seq<string>)
    requires Layered(heap, bound) && n in heap.Values
    ensures r != [] && r[0] == indent + Display(n.isDirectory, n.name)
    decreases bound - n.level, 1, 0
  {
    ChildrenFit(heap, bound, n);
    [indent + Display(n.isDirectory, n.name)]
    + IconChildren(heap, bound, SortedChildren(heap, n), n.level + 1, indent + IconIndent)
  }

  /** The loop over the sorted children, each at the same indentation. */
  function IconChildren(heap: NodeMap, bound: nat, kids: seq<TreeNode>, level: nat, indent: string): (r: seq<string>)
    requires Layered(heap, bound) && level <= bound + 1
    requires forall k :: k in kids ==> k in heap.Values && k.level == level
    ensures kids == [] <==> r == []
    ensures kids != [] ==> r[0] == indent + Display(kids[0].isDirectory, kids[0].name)
    decreases bound + 1 - level, 0, |kids|
  {
    if kids == [] then []
    else
      assert kids[0] in kids;
      IconNode(heap, bound, kids[0], indent) + IconChildren(heap, bound, kids[1..], level, indent)
  }

  /** GenerateIconTree's loop: each root drawn with no indentation. */
  function IconRoots(heap: NodeMap, bound: nat, roots: seq<TreeNode>): (r: seq<string>)
    requires Layered(heap, bound) && forall n :: n in roots ==> n in heap.Values
    ensures roots == [] <==> r == []
    ensures roots != [] ==> r[0] == Display(roots[0].isDirectory, roots[0].name)
  {
    if roots == [] then []
    else
      assert roots[0] in roots;
      IconNode(heap, bound, roots[0], "") + IconRoots(heap, bound, roots[1..])
  }

  // ---------------- what the icon renderer draws ----------------

  function Spaces(k: nat): (r: string)
    ensures |r| == k && forall j :: 0 <= j < k ==> r[j] == ' '
  {
    seq(k, _ => ' ')
  }

  /** The icon line of `k` drawn `depth` levels in under `indent`. */
  function IconLineAt(indent: string, depth: nat, k: TreeNode): string {
    indent + Spaces(2 * depth) + Display(k.isDirectory, k.name)
  }

  /** Lines drawn for the nodes `v`, each under `indent` at its depth below `level`. */
  ghost predicate IconDrawn(lines: seq<string>, v: seq<TreeNode>, indent: string, level: nat) {
    && |lines| == |v|
    && forall i :: 0 <= i < |v| ==> v[i].level >= level && lines[i] == IconLineAt(indent, v[i].level - level, v[i])
  }

  /** A node's own line in front of its children's lines, drawn two spaces further in. */
  lemma IconDrawnCons(n: TreeNode, rest: seq<TreeNode>, restLines: seq<string>, indent: string)
    requires IconDrawn(restLines, rest, indent + IconIndent, n.level + 1)
    ensures IconDrawn([indent + Display(n.isDirectory, n.name)] + restLines, [n] + rest, indent, n.level)
  {
    var v := [n] + rest;
    var lines := [indent + Display(n.isDirectory, n.name)] + restLines;
    forall i | 0 <= i < |v|
      ensures v[i].level >= n.level && lines[i] == IconLineAt(indent, v[i].level - n.level, v[i])
    {
      if i == 0 {
        assert Spaces(0) == [];
      } else {
        var k := rest[i - 1];
        assert v[i] == k && lines[i] == restLines[i - 1];
        assert IconIndent + Spaces(2 * (k.level - n.level - 1)) == Spaces(2 * (k.level - n.level));
      }
    }
  }

  /** Two runs of lines drawn at the same level, one after the other. */
  lemma IconDrawnAppend(a: seq<string>, v: seq<TreeNode>, b: seq<string>, w: seq<TreeNode>, indent: string, level: nat)
    requires IconDrawn(a, v, indent, level) && IconDrawn(b, w, indent, level)
    ensures IconDrawn(a + b, v + w, indent, level)
  {
    forall i | 0 <= i < |v + w|
      ensures (v + w)[i].level >= level && (a + b)[i] == IconLineAt(indent, (v + w)[i].level - level, (v + w)[i])
    {
      if i >= |v| {
        assert (v + w)[i] == w[i - |v|] && (a + b)[i] == b[i - |v|];
      }
    }
  }

  /**
   * Each node of the walk from `n` gets one line: its icon and name after
   * two spaces per level below `n`.
   */
  lemma {:induction false} IconLines(heap: NodeMap, bound: nat, n: TreeNode, indent: string)
    requires Layered(heap, bound) && n in heap.Values
    ensures IconDrawn(IconNode(heap, bound, n, indent), Visit(heap, bound, n), indent, n.level)
    decreases bound - n.level, 1, 0
  {
    ChildrenFit(heap, bound, n);
    var kids := SortedChildren(heap, n);
    IconChildrenLines(heap, bound, kids, n.level + 1, indent + IconIndent);
    IconDrawnCons(n, VisitAll(heap, bound, kids, n.level + 1),
      IconChildren(heap, bound, kids, n.level + 1, indent + IconIndent), indent);
  }

  lemma {:induction false} IconChildrenLines(heap: NodeMap, bound: nat, kids: seq<TreeNode>, level: nat, indent: string)
    requires Layered(heap, bound) && level <= bound + 1
    requires forall k :: k in kids ==> k in heap.Values && k.level == level
    ensures IconDrawn(IconChildren(heap, bound, kids, level, indent), VisitAll(heap, bound, kids, level), indent, level)
    decreases bound + 1 - level, 0, |kids|
  {
    if kids != [] {
      assert kids[0] in kids;
      IconLines(heap, bound, kids[0], indent);
      IconChildrenLines(heap, bound, kids[1..], level, indent);
      IconDrawnAppend(IconNode(heap, bound, kids[0], indent), Visit(heap, bound, kids[0]),
        IconChildren(heap, bound, kids[1..], level, indent), VisitAll(heap, bound, kids[1..], level), indent, level);
    }
  }

  // ---------------- what the ASCII renderer draws ----------------

  /** Each mark list with `b` put in front. */
  function Under(b: bool, ms: seq<seq<bool>>): (r: seq<seq<bool>>)
    ensures |r| == |ms| && forall i :: 0 <= i < |ms| ==> r[i] == [b] + ms[i]
  {
    seq(|ms|, i requires 0 <= i < |ms| => [b] + ms[i])
  }

  /**
   * For each node of the walk from `n`, whether each node on the path from
   * `n` down to it (both included) was drawn as the last of its siblings;
   * `n` itself counts as last when `isLast` holds.
   */
  function PathMarks(heap: NodeMap, bound: nat, n: TreeNode, isLast: bool): (r: seq<seq<bool>>)
    requires Layered(heap, bound) && n in heap.Values
    ensures r != [] && r[0] == [isLast]
    ensures forall i :: 0 <= i < |r| ==> r[i] != [] && r[i][0] == isLast
    decreases bound - n.level, 1, 0
  {
    ChildrenFit(heap, bound, n);
    [[isLast]] + Under(isLast, PathMarksAll(heap, bound, SortedChildren(heap, n), n.level + 1))
  }

  /** The marks of the subtrees of `kids`, where only the last of them is last. */
  function PathMarksAll(heap: NodeMap, bound: nat, kids: seq<TreeNode>, level: nat): (r: seq<seq<bool>>)
    requires Layered(heap, bound) && level <= bound + 1
    requires forall k :: k in kids ==> k in heap.Values && k.level == level
    decreases bound + 1 - level, 0, |kids|
  {
    if kids == [] then []
    else
      assert kids[0] in kids;
      PathMarks(heap, bound, kids[0], |kids| == 1) + PathMarksAll(heap, bound, kids[1..], level)
  }

  /** The marks of the subtrees of the roots, each root counting as last. */
  function PathMarksRoots(heap: NodeMap, bound: nat, roots: seq<TreeNode>): (r: seq<seq<bool>>)
    requires Layered(heap, bound) && forall n :: n in roots ==> n in heap.Values
  {
    if roots == [] then []
    else
      assert roots[0] in roots;
      PathMarks(heap, bound, roots[0], true) + PathMarksRoots(heap, bound, roots[1..])
  }

  /**
   * `prefix` grown by a gap ("    ") for each ancestor in `ls` that was the
   * last of its siblings and a guide ("│   ") for each other one, outermost first.
   */
  function Grown(prefix: string, ls: seq<bool>): (r: string)
    ensures |r| == |prefix| + 4 * |ls|
    decreases ls
  {
    if ls == [] then prefix else Grown(prefix + GuideFor(ls[0]), ls[1..])
  }

  /**
   * The line of a node named `name` whose path marks are `lasts`: the
   * prefix grown by its ancestors' marks, then the node's own branch.
   */
  function AsciiLine(prefix: string, lasts: seq<bool>, name: string): string
    requires lasts != []
  {
    Grown(prefix, lasts[..|lasts| - 1]) + BranchFor(lasts[|lasts| - 1]) + name
  }

  /** Lines drawn for the nodes `v` with path marks `marks`, under `prefix`, starting at `level`. */
  ghost predicate AsciiDrawn(lines: seq<string>, v: seq<TreeNode>, marks: seq<seq<bool>>, prefix: string, level: nat) {
    && |lines| == |v| == |marks|
    && forall i :: 0 <= i < |v| ==>
         && v[i].level >= level
         && |marks[i]| == v[i].level - level + 1
         && lines[i] == AsciiLine(prefix, marks[i], v[i].name)
  }

  /** A guide added to the prefix is the same as one more ancestor mark. */
  lemma AsciiLineUnder(prefix: string, b: bool, m: seq<bool>, name: string)
    requires m != []
    ensures AsciiLine(prefix + GuideFor(b), m, name) == AsciiLine(prefix, [b] + m, name)
  {
    var bm := [b] + m;
    var up := m[..|m| - 1];
    assert bm[..|bm| - 1] == [b] + up;
    assert bm[|bm| - 1] == m[|m| - 1];
    assert ([b] + up)[1..] == up;
  }

  lemma AsciiDrawnCons(n: TreeNode, isLast: bool, rest: seq<TreeNode>, restLines: seq<string>,
                       restMarks: seq<seq<bool>>, prefix: string)
    requires AsciiDrawn(restLines, rest, restMarks, prefix + GuideFor(isLast), n.level + 1)
    ensures AsciiDrawn([prefix + BranchFor(isLast) + n.name] + restLines, [n] + rest,
                       [[isLast]] + Under(isLast, restMarks), prefix, n.level)
  {
    var v := [n] + rest;
    var lines := [prefix + BranchFor(isLast) + n.name] + restLines;
    var marks := [[isLast]] + Under(isLast, restMarks);
    forall i | 0 <= i < |v|
      ensures && v[i].level >= n.level
              && |marks[i]| == v[i].level - n.level + 1
              && lines[i] == AsciiLine(prefix, marks[i], v[i].name)
    {
      if i == 0 {
        assert [isLast][..0] == [];
      } else {
        assert v[i] == rest[i - 1] && lines[i] == restLines[i - 1] && marks[i] == [isLast] + restMarks[i - 1];
        AsciiLineUnder(prefix, isLast, restMarks[i - 1], rest[i - 1].name);
      }
    }
  }

  lemma AsciiDrawnAppend(a: seq<string>, v: seq<TreeNode>, am: seq<seq<bool>>,
                         b: seq<string>, w: seq<TreeNode>, bm: seq<seq<bool>>, prefix: string, level: nat)
    requires AsciiDrawn(a, v, am, prefix, level) && AsciiDrawn(b, w, bm, prefix, level)
    ensures AsciiDrawn(a + b, v + w, am + bm, prefix, level)
  {
    forall i | 0 <= i < |v + w|
      ensures && (v + w)[i].level >= level
              && |(am + bm)[i]| == (v + w)[i].level - level + 1
              && (a + b)[i] == AsciiLine(prefix, (am + bm)[i], (v + w)[i].name)
    {
      if i >= |v| {
        assert (v + w)[i] == w[i - |v|] && (a + b)[i] == b[i - |v|] && (am + bm)[i] == bm[i - |v|];
      } else {
        assert (v + w)[i] == v[i] && (a + b)[i] == a[i] && (am + bm)[i] == am[i];
      }
    }
  }

  /**
   * Each node of the walk from `n` gets one line: the prefix, a guide
   * ("│   ") or a gap ("    ") for each ancestor below `n` by whether that
   * ancestor was the last of its siblings, then "└── " when the node itself
   * is the last of its siblings and "├── " otherwise, then its name.
   */
  lemma {:induction false} AsciiLines(heap: NodeMap, bound: nat, n: TreeNode, prefix: string, isLast: bool)
    requires Layered(heap, bound) && n in heap.Values
    ensures AsciiDrawn(AsciiNode(heap, bound, n, prefix, isLast), Visit(heap, bound, n),
                       PathMarks(heap, bound, n, isLast), prefix, n.level)
    decreases bound - n.level, 1, 0
  {
    ChildrenFit(heap, bound, n);
    var kids := SortedChildren(heap, n);
    var guide := GuideFor(isLast);
    AsciiChildrenLines(heap, bound, kids, n.level + 1, prefix + guide);
    AsciiNodeUnfold(heap, bound, n, prefix, isLast);
    VisitUnfold(heap, bound, n);
    PathMarksUnfold(heap, bound, n, isLast);
    AsciiDrawnCons(n, isLast, VisitAll(heap, bound, kids, n.level + 1),
      AsciiChildren(heap, bound, kids, n.level + 1, prefix + guide), PathMarksAll(heap, bound, kids, n.level + 1), prefix);
  }

  /** A node's lines: its own, then its sorted children's. */
  lemma AsciiNodeUnfold(heap: NodeMap, bound: nat, n: TreeNode, prefix: string, isLast: bool)
    requires Layered(heap, bound) && n in heap.Values
    ensures forall k :: k in SortedChildren(heap, n) ==> k in heap.Values && k.level == n.level + 1
    ensures AsciiNode(heap, bound, n, prefix, isLast)
         == [prefix + BranchFor(isLast) + n.name]
            + AsciiChildren(heap, bound, SortedChildren(heap, n), n.level + 1, prefix + GuideFor(isLast))
  {
    ChildrenFit(heap, bound, n);
    var below := AsciiChildren(heap, bound, SortedChildren(heap, n), n.level + 1, prefix + GuideFor(isLast));
    assert AsciiNode(heap, bound, n, prefix, isLast) == [prefix + BranchFor(isLast) + n.name] + below;
  }

  /** A node's walk: the node, then its sorted children's subtrees. */
  lemma VisitUnfold(heap: NodeMap, bound: nat, n: TreeNode)
    requires Layered(heap, bound) && n in heap.Values
    ensures forall k :: k in SortedChildren(heap, n) ==> k in heap.Values && k.level == n.level + 1
    ensures Visit(heap, bound, n) == [n] + VisitAll(heap, bound, SortedChildren(heap, n), n.level + 1)
  {
    ChildrenFit(heap, bound, n);
    var below := VisitAll(heap, bound, SortedChildren(heap, n), n.level + 1);
    assert Visit(heap, bound, n) == [n] + below;
  }

  /** A node's marks: its own, then its sorted children's with its own flag in front. */
  lemma PathMarksUnfold(heap: NodeMap, bound: nat, n: TreeNode, isLast: bool)
    requires Layered(heap, bound) && n in heap.Values
    ensures forall k :: k in SortedChildren(heap, n) ==> k in heap.Values && k.level == n.level + 1
    ensures PathMarks(heap, bound, n, isLast)
         == [[isLast]] + Under(isLast, PathMarksAll(heap, bound, SortedChildren(heap, n), n.level + 1))
  {
    ChildrenFit(heap, bound, n);
  }

  lemma {:induction false} AsciiChildrenLines(heap: NodeMap, bound: nat, kids: seq<TreeNode>, level: nat, prefix: string)
    requires Layered(heap, bound) && level <= bound + 1
    requires forall k :: k in kids ==> k in heap.Values && k.level == level
    ensures AsciiDrawn(AsciiChildren(heap, bound, kids, level, prefix), VisitAll(heap, bound, kids, level),
                       PathMarksAll(heap, bound, kids, level), prefix, level)
    decreases bound + 1 - level, 0, |kids|
  {
    if kids != [] {
      assert kids[0] in kids;
      var last := |kids| == 1;
      AsciiLines(heap, bound, kids[0], prefix, last);
      AsciiChildrenLines(heap, bound, kids[1..], level, prefix);
      AsciiDrawnAppend(AsciiNode(heap, bound, kids[0], prefix, last), Visit(heap, bound, kids[0]), PathMarks(heap, bound, kids[0], last),
        AsciiChildren(heap, bound, kids[1..], level, prefix), VisitAll(heap, bound, kids[1..], level),
        PathMarksAll(heap, bound, kids[1..], level), prefix, level);
    }
  }

  /** One ASCII line per node of the walk from `n`. */
  lemma {:induction false} AsciiLength(heap: NodeMap, bound: nat, n: TreeNode, prefix: string, isLast: bool)
    requires Layered(heap, bound) && n in heap.Values
    ensures |AsciiNode(heap, bound, n, prefix, isLast)| == |Visit(heap, bound, n)|
    decreases bound - n.level, 1, 0
  {
    AsciiNodeUnfold(heap, bound, n, prefix, isLast);
    VisitUnfold(heap, bound, n);
    AsciiChildrenLength(heap, bound, SortedChildren(heap, n), n.level + 1, prefix + GuideFor(isLast));
  }

  lemma {:induction false} AsciiChildrenLength(heap: NodeMap, bound: nat, kids: seq<TreeNode>, level: nat, prefix: string)
    requires Layered(heap, bound) && level <= bound + 1
    requires forall k :: k in kids ==> k in heap.Values && k.level == level
    ensures |AsciiChildren(heap, bound, kids, level, prefix)| == |VisitAll(heap, bound, kids, level)|
    decreases bound + 1 - level, 0, |kids|
  {
    if kids != [] {
      assert kids[0] in kids;
      AsciiLength(heap, bound, kids[0], prefix, |kids| == 1);
      AsciiChildrenLength(heap, bound, kids[1..], level, prefix);
    }
  }

  /** The walk over children: the first child's subtree, then the walk over the others. */
  lemma VisitAllUnfold(heap: NodeMap, bound: nat, kids: seq<TreeNode>, level: nat)
    requires Layered(heap, bound) && level <= bound + 1
    requires forall k :: k in kids ==> k in heap.Values && k.level == level
    requires kids != []
    ensures kids[0] in heap.Values
    ensures VisitAll(heap, bound, kids, level) == Visit(heap, bound, kids[0]) + VisitAll(heap, bound, kids[1..], level)
  {
    assert kids[0] in kids;
    var rest := VisitAll(heap, bound, kids[1..], level);
    assert VisitAll(heap, bound, kids, level) == Visit(heap, bound, kids[0]) + rest;
  }

  lemma AsciiChildrenUnfold(heap: NodeMap, bound: nat, kids: seq<TreeNode>, level: nat, prefix: string)
    requires Layered(heap, bound) && level <= bound + 1
    requires forall k :: k in kids ==> k in heap.Values && k.level == level
    requires kids != []
    ensures kids[0] in heap.Values
    ensures AsciiChildren(heap, bound, kids, level, prefix)
         == AsciiNode(heap, bound, kids[0], prefix, |kids| == 1) + AsciiChildren(heap, bound, kids[1..], level, prefix)
  {
    assert kids[0] in kids;
    var rest := AsciiChildren(heap, bound, kids[1..], level, prefix);
    assert AsciiChildren(heap, bound, kids, level, prefix) == AsciiNode(heap, bound, kids[0], prefix, |kids| == 1) + rest;
  }

  lemma VisitRootsUnfold(heap: NodeMap, bound: nat, roots: seq<TreeNode>)
    requires Layered(heap, bound) && forall n :: n in roots ==> n in heap.Values
    requires roots != []
    ensures roots[0] in heap.Values
    ensures VisitRoots(heap, bound, roots) == Visit(heap, bound, roots[0]) + VisitRoots(heap, bound, roots[1..])
  {
    assert roots[0] in roots;
    var rest := VisitRoots(heap, bound, roots[1..]);
    assert VisitRoots(heap, bound, roots) == Visit(heap, bound, roots[0]) + rest;
  }

  lemma AsciiRootsUnfold(heap: NodeMap, bound: nat, roots: seq<TreeNode>)
    requires Layered(heap, bound) && forall n :: n in roots ==> n in heap.Values
    requires roots != []
    ensures roots[0] in heap.Values
    ensures AsciiRoots(heap, bound, roots) == AsciiNode(heap, bound, roots[0], "", true) + AsciiRoots(heap, bound, roots[1..])
  {
    assert roots[0] in roots;
    var rest := AsciiRoots(heap, bound, roots[1..]);
    assert AsciiRoots(heap, bound, roots) == AsciiNode(heap, bound, roots[0], "", true) + rest;
  }

  /** The heads of two concatenations whose first parts are non-empty and equally long. */
  lemma HeadAt<T, U>(a: seq<T>, b: seq<T>, c: seq<U>, d: seq<U>)
    requires |c| == |a| > 0 && |d| == |b|
    ensures |c + d| == |a + b| && (a + b)[0] == a[0] && (c + d)[0] == c[0]
  {
  }

  /** Position `o` of the second parts, behind first parts of equal length. */
  lemma ShiftAt<T, U>(a: seq<T>, b: seq<T>, c: seq<U>, d: seq<U>, o: nat)
    requires |c| == |a| && |d| == |b| && o < |b|
    ensures |c + d| == |a + b| && |a| + o < |a + b|
    ensures (a + b)[|a| + o] == b[o] && (c + d)[|a| + o] == d[o]
  {
  }

  /** How many nodes the walks from the first `j` children visit. */
  function Offset(heap: NodeMap, bound: nat, kids: seq<TreeNode>, level: nat, j: nat): (o: nat)
    requires Layered(heap, bound) && level <= bound + 1
    requires forall k :: k in kids ==> k in heap.Values && k.level == level
    requires j <= |kids|
    decreases j
  {
    if j == 0 then 0
    else
      assert kids[0] in kids;
      |Visit(heap, bound, kids[0])| + Offset(heap, bound, kids[1..], level, j - 1)
  }

  /**
   * The j-th of the sorted children is drawn, right after the subtrees of
   * the children before it, with "└── " exactly when it is the last one.
   */
  lemma {:induction false} AsciiChildAt(heap: NodeMap, bound: nat, kids: seq<TreeNode>, level: nat, prefix: string, j: nat)
    requires Layered(heap, bound) && level <= bound + 1
    requires forall k :: k in kids ==> k in heap.Values && k.level == level
    requires j < |kids|
    ensures ChildLineAt(heap, bound, kids, level, prefix, j)
    decreases j
  {
    if j == 0 {
      AsciiFirstChild(heap, bound, kids, level, prefix);
    } else {
      assert kids[0] in kids;
      AsciiChildAt(heap, bound, kids[1..], level, prefix, j - 1);
      AsciiLaterChild(heap, bound, kids, level, prefix, j);
    }
  }

  /** Where the j-th child's line is, and what it is. */
  ghost predicate ChildLineAt(heap: NodeMap, bound: nat, kids: seq<TreeNode>, level: nat, prefix: string, j: nat)
    requires Layered(heap, bound) && level <= bound + 1
    requires forall k :: k in kids ==> k in heap.Values && k.level == level
    requires j < |kids|
  {
    var o := Offset(heap, bound, kids, level, j);
    && o < |VisitAll(heap, bound, kids, level)|
    && VisitAll(heap, bound, kids, level)[o] == kids[j]
    && |AsciiChildren(heap, bound, kids, level, prefix)| == |VisitAll(heap, bound, kids, level)|
    && AsciiChildren(heap, bound, kids, level, prefix)[o] == prefix + BranchFor(j == |kids| - 1) + kids[j].name
  }

  lemma AsciiFirstChild(heap: NodeMap, bound: nat, kids: seq<TreeNode>, level: nat, prefix: string)
    requires Layered(heap, bound) && level <= bound + 1
    requires forall k :: k in kids ==> k in heap.Values && k.level == level
    requires kids != []
    ensures ChildLineAt(heap, bound, kids, level, prefix, 0)
  {
    assert kids[0] in kids;
    var rest := kids[1..];
    VisitAllUnfold(heap, bound, kids, level);
    AsciiChildrenUnfold(heap, bound, kids, level, prefix);
    AsciiLength(heap, bound, kids[0], prefix, |kids| == 1);
    AsciiChildrenLength(heap, bound, rest, level, prefix);
    HeadAt(Visit(heap, bound, kids[0]), VisitAll(heap, bound, rest, level),
      AsciiNode(heap, bound, kids[0], prefix, |kids| == 1), AsciiChildren(heap, bound, rest, level, prefix));
  }

  lemma AsciiLaterChild(heap: NodeMap, bound: nat, kids: seq<TreeNode>, level: nat, prefix: string, j: nat)
    requires Layered(heap, bound) && level <= bound + 1
    requires forall k :: k in kids ==> k in heap.Values && k.level == level
    requires 0 < j < |kids|
    requires ChildLineAt(heap, bound, kids[1..], level, prefix, j - 1)
    ensures ChildLineAt(heap, bound, kids, level, prefix, j)
  {
    assert kids[0] in kids;
    var rest := kids[1..];
    var first := Visit(heap, bound, kids[0]);
    var v := VisitAll(heap, bound, rest, level);
    VisitAllUnfold(heap, bound, kids, level);
    AsciiChildrenUnfold(heap, bound, kids, level, prefix);
    AsciiLength(heap, bound, kids[0], prefix, |kids| == 1);
    var o := Offset(heap, bound, rest, level, j - 1);
    assert v[o] == kids[j] && (j - 1 == |rest| - 1) == (j == |kids| - 1);
    ShiftAt(first, v, AsciiNode(heap, bound, kids[0], prefix, |kids| == 1), AsciiChildren(heap, bound, rest, level, prefix), o);
  }

  // ---------------- whole trees ----------------

  /** Drawing the roots one after the other: every root's subtree as a last node's, under no prefix. */
  lemma {:induction false} AsciiRootsLines(heap: NodeMap, bound: nat, roots: seq<TreeNode>)
    requires Layered(heap, bound) && forall n :: n in roots ==> n in heap.Values && n.level == 0
    ensures AsciiDrawn(AsciiRoots(heap, bound, roots), VisitRoots(heap, bound, roots), PathMarksRoots(heap, bound, roots), "", 0)
  {
    if roots != [] {
      assert roots[0] in roots;
      AsciiLines(heap, bound, roots[0], "", true);
      AsciiRootsLines(heap, bound, roots[1..]);
      AsciiDrawnAppend(AsciiNode(heap, bound, roots[0], "", true), Visit(heap, bound, roots[0]), PathMarks(heap, bound, roots[0], true),
        AsciiRoots(heap, bound, roots[1..]), VisitRoots(heap, bound, roots[1..]), PathMarksRoots(heap, bound, roots[1..]), "", 0);
    }
  }

  /** How many nodes the walks from the first `j` roots visit. */
  function RootOffset(heap: NodeMap, bound: nat, roots: seq<TreeNode>, j: nat): (o: nat)
    requires Layered(heap, bound) && forall n :: n in roots ==> n in heap.Values
    requires j <= |roots|
    decreases j
  {
    if j == 0 then 0
    else
      assert roots[0] in roots;
      |Visit(heap, bound, roots[0])| + RootOffset(heap, bound, roots[1..], j - 1)
  }

  /** Each root is drawn flush left with the closing branch, after the subtrees of the roots before it. */
  lemma {:induction false} AsciiRootAt(heap: NodeMap, bound: nat, roots: seq<TreeNode>, j: nat)
    requires Layered(heap, bound) && forall n :: n in roots ==> n in heap.Values && n.level == 0
    requires j < |roots|
    ensures var o := RootOffset(heap, bound, roots, j);
      && o < |VisitRoots(heap, bound, roots)|
      && VisitRoots(heap, bound, roots)[o] == roots[j]
      && |AsciiRoots(heap, bound, roots)| == |VisitRoots(heap, bound, roots)|
      && AsciiRoots(heap, bound, roots)[o] == LastBranch + roots[j].name
  {
    assert roots[0] in roots;
    var first := Visit(heap, bound, roots[0]);
    var firstLines := AsciiNode(heap, bound, roots[0], "", true);
    var rest := roots[1..];
    var v := VisitRoots(heap, bound, rest);
    var lines := AsciiRoots(heap, bound, rest);
    VisitRootsUnfold(heap, bound, roots);
    AsciiRootsUnfold(heap, bound, roots);
    AsciiLength(heap, bound, roots[0], "", true);
    AsciiRootsLines(heap, bound, rest);
    if j == 0 {
      HeadAt(first, v, firstLines, lines);
    } else {
      AsciiRootAt(heap, bound, rest, j - 1);
      var o := RootOffset(heap, bound, rest, j - 1);
      assert v[o] == roots[j];
      ShiftAt(first, v, firstLines, lines, o);
    }
  }


  lemma {:induction false} IconRootsLines(heap: NodeMap, bound: nat, roots: seq<TreeNode>)
    requires Layered(heap, bound) && forall n :: n in roots ==> n in heap.Values && n.level == 0
    ensures IconDrawn(IconRoots(heap, bound, roots), VisitRoots(heap, bound, roots), "", 0)
  {
    if roots != [] {
      assert roots[0] in roots;
      IconLines(heap, bound, roots[0], "");
      IconRootsLines(heap, bound, roots[1..]);
      IconDrawnAppend(IconNode(heap, bound, roots[0], ""), Visit(heap, bound, roots[0]),
        IconRoots(heap, bound, roots[1..]), VisitRoots(heap, bound, roots[1..]), "", 0);
    }
  }

  // ---------------- every node is drawn ----------------

  /** The walk from a node it reaches is part of the walk. */
  lemma {:induction false} VisitSubtree(heap: NodeMap, bound: nat, n: TreeNode, q: TreeNode)
    requires Layered(heap, bound) && n in heap.Values && q in Visit(heap, bound, n)
    ensures forall y :: y in Visit(heap, bound, q) ==> y in Visit(heap, bound, n)
    decreases bound - n.level, 1, 0
  {
    ChildrenFit(heap, bound, n);
    var kids := SortedChildren(heap, n);
    var below := VisitAll(heap, bound, kids, n.level + 1);
    assert Visit(heap, bound, n) == [n] + below;
    if q != n {
      assert q in below;
      VisitAllSubtree(heap, bound, kids, n.level + 1, q);
      forall y | y in Visit(heap, bound, q)
        ensures y in Visit(heap, bound, n)
      {
        assert y in below;
      }
    }
  }

  lemma {:induction false} VisitAllSubtree(heap: NodeMap, bound: nat, kids: seq<TreeNode>, level: nat, q: TreeNode)
    requires Layered(heap, bound) && level <= bound + 1
    requires forall k :: k in kids ==> k in heap.Values && k.level == level
    requires q in VisitAll(heap, bound, kids, level)
    ensures forall y :: y in Visit(heap, bound, q) ==> y in VisitAll(heap, bound, kids, level)
    decreases bound + 1 - level, 0, |kids|
  {
    assert kids[0] in kids;
    var first := Visit(heap, bound, kids[0]);
    var later := VisitAll(heap, bound, kids[1..], level);
    assert VisitAll(heap, bound, kids, level) == first + later;
    if q in first {
      VisitSubtree(heap, bound, kids[0], q);
    } else {
      assert q in later;
      VisitAllSubtree(heap, bound, kids[1..], level, q);
    }
  }

  /** Each of a node's children is visited below it. */
  lemma ChildVisited(heap: NodeMap, bound: nat, n: TreeNode, k: TreeNode)
    requires Layered(heap, bound) && n in heap.Values && k in SortedChildren(heap, n)
    ensures k in Visit(heap, bound, n)
  {
    assert Fits(heap, bound, n);
    ChildrenFit(heap, bound, n);
  }

  lemma {:induction false} VisitRootsSubtree(heap: NodeMap, bound: nat, roots: seq<TreeNode>, q: TreeNode)
    requires Layered(heap, bound) && (forall n :: n in roots ==> n in heap.Values)
    requires q in VisitRoots(heap, bound, roots)
    ensures forall y :: y in Visit(heap, bound, q) ==> y in VisitRoots(heap, bound, roots)
  {
    assert roots[0] in roots;
    if q in Visit(heap, bound, roots[0]) {
      VisitSubtree(heap, bound, roots[0], q);
    } else {
      VisitRootsSubtree(heap, bound, roots[1..], q);
    }
  }

  lemma {:induction false} RootVisited(heap: NodeMap, bound: nat, roots: seq<TreeNode>, r: TreeNode)
    requires Layered(heap, bound) && (forall n :: n in roots ==> n in heap.Values)
    requires r in roots
    ensures r in VisitRoots(heap, bound, roots)
  {
    assert roots[0] in roots;
    if r != roots[0] {
      RootVisited(heap, bound, roots[1..], r);
    }
  }

  /** A child BuildHierarchy reached is on its parent's Children list. */
  lemma ReachedIsChild(init: NodeMap, edges: seq<Edge>, heap: NodeMap, id: string, p: string)
    requires Resolved(init, edges, heap, true) && NoDuplicateChild(edges)
    requires id in heap && ParentOf(edges, id) == Some(p) && p in heap && heap[p].fullPath.Some?
    ensures heap[id] in SortedChildren(heap, heap[p])
  {
    ChildrenOfParent(edges, p, id);
    var children := heap[p].children;
    assert id in children;
    var i :| 0 <= i < |children| && children[i] == id;
    assert ChildNodes(heap, children)[i] == heap[id];
  }

  /** Every node BuildHierarchy reached is drawn below the root it descends from. */
  lemma {:induction false} ReachedDrawn(init: NodeMap, edges: seq<Edge>, heap: NodeMap, bound: nat,
                                        roots: seq<TreeNode>, id: string)
    requires Resolved(init, edges, heap, true) && NoDuplicateChild(edges) && Layered(heap, bound)
    requires forall n :: n in roots ==> n in heap.Values
    requires forall n :: n in heap.Values && n.level == 0 ==> n in roots
    requires id in heap && heap[id].fullPath.Some?
    ensures heap[id] in VisitRoots(heap, bound, roots)
    decreases heap[id].level
  {
    match ParentOf(edges, id)
    case None =>
      RootVisited(heap, bound, roots, heap[id]);
    case Some(p) =>
      ReachedDrawn(init, edges, heap, bound, roots, p);
      ReachedIsChild(init, edges, heap, id, p);
      ChildVisited(heap, bound, heap[p], heap[id]);
      VisitRootsSubtree(heap, bound, roots, heap[p]);
  }

  /**
   * The renderers draw exactly the parsed nodes: every node of the list,
   * reached or not, appears in the walk from the roots, and nothing else does.
   */
  lemma DrawnNodes(init: NodeMap, edges: seq<Edge>, heap: NodeMap, nodes: seq<TreeNode>, bound: nat)
    requires Resolved(init, edges, heap, true) && NoDuplicateChild(edges) && Layered(heap, bound)
    requires forall n :: n in nodes <==> n in heap.Values
    ensures forall n :: n in VisitRoots(heap, bound, Roots(nodes)) <==> n in nodes
  {
    var roots := Roots(nodes);
    forall n | n in nodes
      ensures n in VisitRoots(heap, bound, roots)
    {
      var id :| id in heap && heap[id] == n;
      if n.fullPath.Some? {
        ReachedDrawn(init, edges, heap, bound, roots, id);
      } else {
        RootVisited(heap, bound, roots, n);
      }
    }
  }

  // ---------------- the conversion ----------------

  /** A parse the renderers can walk: its Children lists are layered and its nodes are the dictionary's. */
  ghost predicate Drawable(p: Parsed) {
    && Layered(p.heap, MaxLevel(p.nodes))
    && forall n :: n in p.nodes ==> n in p.heap.Values
  }

  /** GenerateAsciiTree or GenerateIconTree as lines: the roots by name, each drawn with its subtree. */
  function TreeLines(p: Parsed, useAsciiFormat: bool): (r: seq<string>)
    requires Drawable(p)
    ensures |r| == |VisitRoots(p.heap, MaxLevel(p.nodes), Roots(p.nodes))|
  {
    var bound, roots := MaxLevel(p.nodes), Roots(p.nodes);
    if useAsciiFormat then
      AsciiRootsLines(p.heap, bound, roots);
      AsciiRoots(p.heap, bound, roots)
    else
      IconRootsLines(p.heap, bound, roots);
      IconRoots(p.heap, bound, roots)
  }

  /** The ConversionResult built from the outcome of ParseMermaidDiagram. */
  ghost predicate Reports(r: Result<Parsed, Fault>, useAsciiFormat: bool, result: ConversionResult) {
    if r.Failure? then
      result == ConversionResult(ErrorPrefix + FaultMessage(r.error), false, Some(FaultMessage(r.error)), [])
    else if r.value.nodes == [] then
      result == ConversionResult([], false, Some(NoNodesMessage), [])
    else
      && Drawable(r.value)
      && result == ConversionResult(JoinLines(TreeLines(r.value, useAsciiFormat)), true, None, r.value.nodes)
  }

  /**
   * What ConvertMermaidToTree returns: an empty-diagram error for blank
   * text, otherwise the report of the diagram's parse.
   */
  ghost predicate ConvertsTo(mermaidDiagram: string, useAsciiFormat: bool, result: ConversionResult) {
    if IsBlank(mermaidDiagram) then result == ConversionResult([], false, Some(EmptyDiagramMessage), [])
    else exists r :: DiagramParsesTo(mermaidDiagram, r) && Reports(r, useAsciiFormat, result)
  }

  /** A successful parse is drawable. */
  lemma ParsedDrawable(mermaidDiagram: string, p: Parsed)
    requires DiagramParsesTo(mermaidDiagram, Success(p))
    ensures Drawable(p)
  {
    var c := CollectedOf(mermaidDiagram);
    ParsedNodes(mermaidDiagram, p);
    ResolvedLayered(c.table.nodes, c.edges, p.heap, p.nodes);
  }

  /** MermaidToTreeConverter.ConvertMermaidToTree. */
  method ConvertMermaidToTree(mermaidDiagram: string, useAsciiFormat: bool) returns (result: ConversionResult)
    ensures ConvertsTo(mermaidDiagram, useAsciiFormat, result)
  {
    if IsBlank(mermaidDiagram) {
      return ConversionResult([], false, Some(EmptyDiagramMessage), []);
    }
    var r := ParseMermaidDiagram(mermaidDiagram);
    if r.Failure? {
      var message := FaultMessage(r.error);
      result := ConversionResult(ErrorPrefix + message, false, Some(message), []);
    } else if r.value.nodes == [] {
      result := ConversionResult([], false, Some(NoNodesMessage), []);
    } else {
      ParsedDrawable(mermaidDiagram, r.value);
      var treeText := JoinLines(TreeLines(r.value, useAsciiFormat));
      result := ConversionResult(treeText, true, None, r.value.nodes);
    }
    assert Reports(r, useAsciiFormat, result);
  }

  /** MermaidToTreeConverter.ConvertMermaidToTreeText: the ASCII form. */
  method ConvertMermaidToTreeText(mermaidDiagram: string) returns (result: ConversionResult)
    ensures ConvertsTo(mermaidDiagram, true, result)
  {
    result := ConvertMermaidToTree(mermaidDiagram, true);
  }

  /** MermaidToTreeConverter.ConvertMermaidToIconTree: the icon form. */
  method ConvertMermaidToIconTree(mermaidDiagram: string) returns (result: ConversionResult)
    ensures ConvertsTo(mermaidDiagram, false, result)
  {
    result := ConvertMermaidToTree(mermaidDiagram, false);
  }

  // ---------------- what a conversion promises ----------------

  /** ParseMermaidDiagram has one outcome per diagram. */
  lemma ParseIsDeterministic(mermaidDiagram: string, r1: Result<Parsed, Fault>, r2: Result<Parsed, Fault>)
    requires DiagramParsesTo(mermaidDiagram, r1) && DiagramParsesTo(mermaidDiagram, r2)
    ensures r1 == r2
  {
    var c := CollectedOf(mermaidDiagram);
    if NoDuplicateChild(c.edges) {
      ResolvedUnique(c.table.nodes, c.edges, r1.value.heap, r2.value.heap, true);
    }
  }

  /** A diagram converts to one result, and the two formats agree on everything but the text. */
  lemma ConversionIsDeterministic(mermaidDiagram: string, a1: bool, a2: bool, result1: ConversionResult, result2: ConversionResult)
    requires ConvertsTo(mermaidDiagram, a1, result1) && ConvertsTo(mermaidDiagram, a2, result2)
    ensures result1.isSuccess == result2.isSuccess && result1.errorMessage == result2.errorMessage
    ensures result1.parsedNodes == result2.parsedNodes
    ensures a1 == a2 ==> result1 == result2
  {
    if !IsBlank(mermaidDiagram) {
      var r1 :| DiagramParsesTo(mermaidDiagram, r1) && Reports(r1, a1, result1);
      var r2 :| DiagramParsesTo(mermaidDiagram, r2) && Reports(r2, a2, result2);
      ParseIsDeterministic(mermaidDiagram, r1, r2);
      ReportsAgree(r1, a1, a2, result1, result2);
    }
  }

  lemma ReportsAgree(r: Result<Parsed, Fault>, a1: bool, a2: bool, result1: ConversionResult, result2: ConversionResult)
    requires Reports(r, a1, result1) && Reports(r, a2, result2)
    ensures result1.isSuccess == result2.isSuccess && result1.errorMessage == result2.errorMessage
    ensures result1.parsedNodes == result2.parsedNodes
    ensures a1 == a2 ==> result1 == result2
  {
  }

  /**
   * Success and failure are told apart by the error message; a success
   * carries the parsed nodes and a failure none, with an empty text or the
   * error text built from the message.
   */
  lemma ConversionOutcome(mermaidDiagram: string, useAsciiFormat: bool, result: ConversionResult)
    requires ConvertsTo(mermaidDiagram, useAsciiFormat, result)
    ensures result.isSuccess <==> result.errorMessage.None?
    ensures result.isSuccess <==> result.parsedNodes != []
    ensures !result.isSuccess ==> result.treeText == [] || result.treeText == ErrorPrefix + result.errorMessage.value
    ensures IsBlank(mermaidDiagram) ==> result.errorMessage == Some(EmptyDiagramMessage)
  {
  }

  /**
   * A successful parse is drawn whole: the walk from the roots meets
   * exactly the parsed nodes; the ASCII tree draws each visited node's line
   * as its path marks dictate (a gap or guide per ancestor, then the closing
   * branch exactly for a last sibling or a root), and the icon tree one line
   * per visited node indented two spaces per level.
   */
  lemma ParsedDrawing(mermaidDiagram: string, p: Parsed)
    requires DiagramParsesTo(mermaidDiagram, Success(p))
    ensures Drawable(p)
    ensures var v := VisitRoots(p.heap, MaxLevel(p.nodes), Roots(p.nodes));
      && (forall n :: n in v <==> n in p.nodes)
      && AsciiDrawn(TreeLines(p, true), v, PathMarksRoots(p.heap, MaxLevel(p.nodes), Roots(p.nodes)), "", 0)
      && IconDrawn(TreeLines(p, false), v, "", 0)
  {
    var c := CollectedOf(mermaidDiagram);
    ParsedDrawable(mermaidDiagram, p);
    ParsedNodes(mermaidDiagram, p);
    var bound := MaxLevel(p.nodes);
    DrawnNodes(c.table.nodes, c.edges, p.heap, p.nodes, bound);
    AsciiRootsLines(p.heap, bound, Roots(p.nodes));
    IconRootsLines(p.heap, bound, Roots(p.nodes));
  }

  /** The text of a successful conversion is the drawing of its parse, one line per visited node. */
  lemma ConvertedDrawing(mermaidDiagram: string, useAsciiFormat: bool, result: ConversionResult)
    requires ConvertsTo(mermaidDiagram, useAsciiFormat, result) && result.isSuccess
    ensures exists p ::
              && DiagramParsesTo(mermaidDiagram, Success(p)) && Drawable(p)
              && result.parsedNodes == p.nodes && p.nodes != []
              && result.treeText == JoinLines(TreeLines(p, useAsciiFormat))
  {
  }
}
