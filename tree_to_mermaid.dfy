/**
 * TreeToMermaidConverter: the pre-converted lines become items (a level and
 * a name), each item gets the id node1, node2, ... in order, and its parent
 * is the nearest earlier directory still open at a lower level. The
 * diagram is "graph TD" followed by one declaration or edge per item.
 */
module TreeToMermaid {
  import opened Wrappers
  import opened Text
  import opened TreeNodes
  import opened DiagramSyntax
  import opened PreConversion
  import opened Sorting
  import opened DiagramParser
  import opened Hierarchy

  /** TreeToMermaidConverter.ConversionResult; a null ErrorMessage is None. */
  datatype ConversionResult = ConversionResult(
    mermaidDiagram: string,
    parsedNodes: seq<TreeNode>,
    isSuccess: bool,
    errorMessage: Option<string>)

  const EmptyInputMessage: string := "Input tree text is empty"

  // ---------------- reading a pre-converted line ----------------

  /** `TakeWhile(c => c == '?').Count()`. */
  function QuestionRun(s: string): (n: nat)
    ensures n <= |s|
    ensures forall k :: 0 <= k < n ==> s[k] == '?'
    ensures n < |s| ==> s[n] != '?'
  {
    if s != [] && s[0] == '?' then 1 + QuestionRun(s[1..]) else 0
  }

  /** The item a pre-converted line describes; None for a line the loop skips. */
  function ItemOf(line: string): (r: Option<Entry>)
    ensures r.Some? ==> r.value.name != [] && IsTrimmed(r.value.name)
    ensures r.Some? ==> r.value.level <= |line| && forall k :: 0 <= k < r.value.level ==> line[k] == '?'
    ensures IsBlank(line) ==> r.None?
  {
    var trimmed := TrimEnd(line);
    if trimmed == [] then None
    else
      var level := QuestionRun(trimmed);
      RunInLine(line, trimmed, level);
      var name := Trim(trimmed[level..]);
      if name == [] then None else Some(Entry(level, name))
  }

  /** The question marks leading the trimmed line lead the line itself. */
  lemma RunInLine(line: string, trimmed: string, level: nat)
    requires |trimmed| <= |line| && trimmed == line[..|trimmed|] && level <= |trimmed|
    requires forall k :: 0 <= k < level ==> trimmed[k] == '?'
    ensures forall k :: 0 <= k < level ==> line[k] == '?'
  {
    forall k | 0 <= k < level
      ensures line[k] == '?'
    {
      assert line[k] == trimmed[k];
    }
  }

  /** The items of the lines, in order: one per line that yields a node. */
  function Items(lines: seq<string>): seq<Entry> {
    if lines == [] then []
    else
      Items(lines[..|lines| - 1])
      + (match ItemOf(lines[|lines| - 1]) case None => [] case Some(e) => [e])
  }

  /** The entries with a non-empty name: those the loop turns into nodes. */
  function Named(entries: seq<Entry>): (r: seq<Entry>)
    ensures forall k :: 0 <= k < |r| ==> r[k].name != [] && r[k] in entries
  {
    if entries == [] then []
    else
      var e := entries[|entries| - 1];
      Named(entries[..|entries| - 1]) + (if e.name == [] then [] else [e])
  }

  /** The level marks of a normalised line are read back as its level. */
  lemma QuestionRunOfSimple(level: nat, rest: string)
    ensures QuestionRun(Questions(level) + " " + rest) == level
  {
    var line := Questions(level) + " " + rest;
    var n := QuestionRun(line);
    assert line[level] == ' ';
    assert forall k :: 0 <= k < level ==> line[k] == '?';
  }

  /** Trailing whitespace of a normalised line is its separator, and only when the name is empty. */
  lemma SimpleLineTrimEnd(level: nat, name: string)
    requires IsTrimmed(name)
    ensures TrimEnd(SimpleLine(level, name)) == if name == [] then Questions(level) else SimpleLine(level, name)
  {
    var q := Questions(level);
    var line := SimpleLine(level, name);
    if name == [] {
      assert line == q + " ";
      BlankSuffix(q, " ");
    } else {
      assert line + [] == line;
      BlankSuffix(line, []);
    }
  }

  /** A normalised line with an empty name reads back as nothing. */
  lemma EmptyLineReadsBack(level: nat)
    ensures ItemOf(SimpleLine(level, [])) == None
  {
    var q := Questions(level);
    SimpleLineTrimEnd(level, []);
    if level > 0 {
      QuestionRunOfSimple(level - 1, []);
      assert q == Questions(level - 1) + "?";
      assert forall k :: 0 <= k < level ==> q[k] == '?';
      assert q[level..] == [];
    }
  }

  /** A normalised line with a name reads back as its level and name. */
  lemma NamedLineReadsBack(level: nat, name: string)
    requires IsTrimmed(name) && name != []
    ensures ItemOf(SimpleLine(level, name)) == Some(Entry(level, name))
  {
    var line := SimpleLine(level, name);
    SimpleLineTrimEnd(level, name);
    QuestionRunOfSimple(level, name);
    assert line[level..] == " " + name;
    TrimPadded(" ", name, []);
    assert " " + name + [] == " " + name;
  }

  /** Reading a normalised line gives back its level and name; a line with an empty name gives nothing. */
  lemma SimpleLineReadsBack(level: nat, name: string)
    requires IsTrimmed(name)
    ensures ItemOf(SimpleLine(level, name)) == if name == [] then None else Some(Entry(level, name))
  {
    if name == [] {
      EmptyLineReadsBack(level);
    } else {
      NamedLineReadsBack(level, name);
    }
  }

  lemma NamedSnoc(entries: seq<Entry>, e: Entry)
    ensures Named(entries + [e]) == Named(entries) + (if e.name == [] then [] else [e])
  {
    assert (entries + [e])[..|entries|] == entries;
  }

  lemma ItemsAppend(lines: seq<string>, more: seq<string>)
    requires |more| <= 1
    ensures Items(lines + more) == Items(lines) + (if more == [] then [] else Items(more))
  {
    if more == [] {
      assert lines + more == lines;
    } else {
      assert (lines + more)[..|lines|] == lines;
      assert more[..0] == [];
    }
  }

  /** The loop reads back, from the pre-converted lines, the entries of the lines that have a name. */
  lemma {:induction false} ItemsOfSimplified(lines: seq<string>)
    ensures Items(Simplified(lines)) == Named(Entries(lines))
  {
    if lines != [] {
      var init, line := lines[..|lines| - 1], lines[|lines| - 1];
      ItemsOfSimplified(init);
      assert Simplified(lines) == Simplified(init) + SimplifyLine(line);
      ItemsAppend(Simplified(init), SimplifyLine(line));
      if IsKept(line) {
        var e := Entry(Level(line), ItemName(line));
        assert Entries(lines) == Entries(init) + [e];
        NamedSnoc(Entries(init), e);
        SimpleLineReadsBack(e.level, e.name);
        assert [SimpleLine(e.level, e.name)][..0] == [];
      } else {
        assert Entries(lines) == Entries(init);
      }
    }
  }

  /** The items of a non-blank tree text are the entries of its kept lines that have a name. */
  lemma ConvertedItems(treeText: string)
    requires !IsBlank(treeText)
    ensures Items(PreConverted(treeText)) == Named(Entries(SplitLines(treeText)))
  {
    ItemsOfSimplified(SplitLines(treeText));
  }

  predicate EndsWith(s: string, suffix: string) {
    |suffix| <= |s| && s[|s| - |suffix|..] == suffix
  }

  /** `itemName.EndsWith("/") || !itemName.Contains(".")`. */
  predicate IsDirectoryName(name: string) {
    EndsWith(name, "/") || '.' !in name
  }

  /** The id of the item at index `k`: node1 for the first. */
  function NodeIdOf(k: nat): string {
    "node" + NatToString(k + 1)
  }

  /** Distinct items have distinct ids. */
  lemma NodeIdInjective(a: nat, b: nat)
    ensures NodeIdOf(a) == NodeIdOf(b) <==> a == b
  {
    if NodeIdOf(a) == NodeIdOf(b) {
      assert NodeIdOf(a)[4..] == NatToString(a + 1);
      assert NodeIdOf(b)[4..] == NatToString(b + 1);
      NatToStringInjective(a + 1, b + 1);
    }
  }

  // ---------------- parents and paths ----------------

  /** Item `j` is a directory and no item after it, before `k`, is at its level or above. */
  predicate OpenAt(items: seq<Entry>, j: nat, k: nat)
    requires j < k <= |items|
  {
    IsDirectoryName(items[j].name) && forall i :: j < i < k ==> items[i].level > items[j].level
  }

  /** Item `j` could be the parent of the last item: open, and at a lower level. */
  predicate IsParentCandidate(items: seq<Entry>, j: nat)
    requires items != []
  {
    j < |items| - 1 && OpenAt(items, j, |items| - 1) && items[j].level < items[|items| - 1].level
  }

  /** The greatest candidate below `j`. */
  function CandidateBelow(items: seq<Entry>, j: nat): (r: Option<nat>)
    requires items != [] && j < |items|
    ensures r.Some? ==> r.value < j && IsParentCandidate(items, r.value)
    ensures r.Some? ==> forall q :: r.value < q < j ==> !IsParentCandidate(items, q)
    ensures r.None? ==> forall q :: 0 <= q < j ==> !IsParentCandidate(items, q)
  {
    if j == 0 then None
    else if IsParentCandidate(items, j - 1) then Some(j - 1)
    else CandidateBelow(items, j - 1)
  }

  /** The index of the parent of the last item: the nearest candidate. */
  function ParentOfLast(items: seq<Entry>): (r: Option<nat>)
    requires items != []
    ensures r.Some? ==> IsParentCandidate(items, r.value)
    ensures r.Some? ==> forall q :: r.value < q ==> !IsParentCandidate(items, q)
    ensures r.None? ==> forall q: nat :: !IsParentCandidate(items, q)
  {
    CandidateBelow(items, |items| - 1)
  }

  /** The full path of the last item: its parent's path, a slash and its name. */
  function PathOfLast(items: seq<Entry>): string
    requires items != []
    decreases |items|
  {
    var name := items[|items| - 1].name;
    match ParentOfLast(items)
    case None => name
    case Some(p) => PathOfLast(items[..p + 1]) + "/" + name
  }

  /** The node recorded for the last item. */
  function NodeOfLast(items: seq<Entry>): TreeNode
    requires items != []
  {
    var e := items[|items| - 1];
    TreeNode(e.name, IsDirectoryName(e.name), e.level, NodeIdOf(|items| - 1), Some(PathOfLast(items)), [])
  }

  /** The statement line emitted for the last item. */
  function LineOfLast(items: seq<Entry>): string
    requires items != []
  {
    var e := items[|items| - 1];
    var display := Display(IsDirectoryName(e.name), e.name);
    match ParentOfLast(items)
    case None => Indent + DeclarationText(NodeIdOf(|items| - 1), display)
    case Some(p) => Indent + EdgeText(NodeIdOf(p), NodeIdOf(|items| - 1), display)
  }

  function Nodes(items: seq<Entry>): seq<TreeNode> {
    seq(|items|, k requires 0 <= k < |items| => NodeOfLast(items[..k + 1]))
  }

  function StatementLines(items: seq<Entry>): seq<string> {
    seq(|items|, k requires 0 <= k < |items| => LineOfLast(items[..k + 1]))
  }

  /** The lines the StringBuilder receives. */
  function DiagramLines(items: seq<Entry>): seq<string> {
    [Header] + StatementLines(items)
  }

  /** What ConvertTreeToMermaid returns. */
  function ConvertedTree(treeText: string): ConversionResult {
    if IsBlank(treeText) then ConversionResult([], [], false, Some(EmptyInputMessage))
    else
      var items := Items(PreConverted(treeText));
      ConversionResult(JoinLines(DiagramLines(items)), Nodes(items), true, None)
  }

  // ---------------- the parent stack ----------------

  /** A parent stack entry: node id, level and full path. */
  type Frame = (string, nat, string)

  function FrameOf(items: seq<Entry>, j: nat): Frame
    requires j < |items|
  {
    (NodeIdOf(j), items[j].level, PathOfLast(items[..j + 1]))
  }

  /** Entry `t` of the stack is the frame of item `idx[t]`. */
  ghost predicate Framed(items: seq<Entry>, stack: seq<Frame>, idx: seq<nat>) {
    && |stack| == |idx|
    && (forall t :: 0 <= t < |idx| ==> idx[t] < |items| && stack[t] == FrameOf(items, idx[t]))
  }

  /** Indices and levels strictly increase from the bottom of the stack to its top. */
  ghost predicate Increasing(stack: seq<Frame>, idx: seq<nat>)
    requires |stack| == |idx|
  {
    forall s, t :: 0 <= s < t < |idx| ==> idx[s] < idx[t] && stack[s].1 < stack[t].1
  }

  /** The stack holds exactly the items that are still open. */
  ghost predicate HoldsOpen(items: seq<Entry>, idx: seq<nat>) {
    forall j :: 0 <= j < |items| ==> (j in idx <==> OpenAt(items, j, |items|))
  }

  ghost predicate StackOf(items: seq<Entry>, stack: seq<Frame>, idx: seq<nat>) {
    Framed(items, stack, idx) && Increasing(stack, idx) && HoldsOpen(items, idx)
  }

  /** Only directories are ever on the stack. */
  lemma StackHoldsDirectories(items: seq<Entry>, stack: seq<Frame>, idx: seq<nat>)
    requires StackOf(items, stack, idx)
    ensures forall t :: 0 <= t < |idx| ==> IsDirectoryName(items[idx[t]].name)
  {
    forall t | 0 <= t < |idx|
      ensures IsDirectoryName(items[idx[t]].name)
    {
      assert idx[t] in idx;
    }
  }

  /** The pop loop: drops the entries at `level` or above from the top. */
  method PopTo(stack: seq<Frame>, ghost idx: seq<nat>, level: nat) returns (s: seq<Frame>, ghost sIdx: seq<nat>)
    requires |stack| == |idx| && Increasing(stack, idx)
    ensures |s| <= |stack| && s == stack[..|s|] && sIdx == idx[..|s|]
    ensures forall t :: 0 <= t < |s| ==> s[t].1 < level
    ensures forall t :: |s| <= t < |stack| ==> stack[t].1 >= level
  {
    s, sIdx := stack, idx;
    while |s| > 0 && s[|s| - 1].1 >= level
      invariant |s| <= |stack| && s == stack[..|s|] && sIdx == idx[..|s|]
      invariant forall t :: |s| <= t < |stack| ==> stack[t].1 >= level
    {
      s, sIdx := s[..|s| - 1], sIdx[..|s| - 1];
    }
  }

  /** What the pop loop leaves: a prefix of the stack below `level`, the rest at `level` or above. */
  ghost predicate Popped(stack: seq<Frame>, idx: seq<nat>, s: seq<Frame>, sIdx: seq<nat>, level: nat) {
    && |s| <= |stack| && s == stack[..|s|] && |idx| == |stack| && sIdx == idx[..|s|]
    && (forall t :: 0 <= t < |s| ==> s[t].1 < level)
    && (forall t :: |s| <= t < |stack| ==> stack[t].1 >= level)
  }

  /** Adding an item keeps the earlier items open exactly when the new one is deeper. */
  lemma OpenAtExtend(items: seq<Entry>, e: Entry, j: nat)
    requires j < |items|
    ensures OpenAt(items + [e], j, |items|) <==> OpenAt(items, j, |items|)
    ensures OpenAt(items + [e], j, |items| + 1) <==> OpenAt(items, j, |items|) && e.level > items[j].level
  {
    var it := items + [e];
    assert forall i :: 0 <= i < |items| ==> it[i] == items[i];
    assert it[|items|] == e;
  }

  /** Adding an item changes no earlier frame. */
  lemma FrameExtend(items: seq<Entry>, e: Entry, j: nat)
    requires j < |items|
    ensures FrameOf(items + [e], j) == FrameOf(items, j)
  {
    assert (items + [e])[..j + 1] == items[..j + 1];
  }

  /** After popping, the stack holds exactly the open items below the new item's level. */
  lemma KeptAfterPop(items: seq<Entry>, e: Entry, stack: seq<Frame>, idx: seq<nat>, s: seq<Frame>, sIdx: seq<nat>, j: nat)
    requires StackOf(items, stack, idx) && Popped(stack, idx, s, sIdx, e.level)
    requires j < |items|
    ensures j in sIdx <==> OpenAt(items, j, |items|) && items[j].level < e.level
  {
    if j in sIdx {
      var t :| 0 <= t < |sIdx| && sIdx[t] == j;
      assert idx[t] == j && j in idx;
      assert s[t] == stack[t] == FrameOf(items, j);
    }
    if OpenAt(items, j, |items|) && items[j].level < e.level {
      assert j in idx;
      var t :| 0 <= t < |idx| && idx[t] == j;
      assert stack[t] == FrameOf(items, j);
      assert stack[t].1 == items[j].level;
      assert t < |s|;
      assert sIdx[t] == j;
    }
  }

  /** A parent candidate of the new item is on the popped stack, at or below its top. */
  lemma CandidateOnStack(items: seq<Entry>, e: Entry, stack: seq<Frame>, idx: seq<nat>, s: seq<Frame>, sIdx: seq<nat>, q: nat)
    requires StackOf(items, stack, idx) && Popped(stack, idx, s, sIdx, e.level)
    requires IsParentCandidate(items + [e], q)
    ensures |s| > 0 && q <= sIdx[|s| - 1]
  {
    var it := items + [e];
    assert it[|items|] == e;
    OpenAtExtend(items, e, q);
    assert it[q] == items[q];
    KeptAfterPop(items, e, stack, idx, s, sIdx, q);
    var t :| 0 <= t < |sIdx| && sIdx[t] == q;
    if t < |s| - 1 {
      assert idx[t] < idx[|s| - 1];
    }
  }

  /** Every parent candidate of the new item is on the popped stack, so none lies above its top. */
  lemma CandidatesBelowTop(items: seq<Entry>, e: Entry, stack: seq<Frame>, idx: seq<nat>, s: seq<Frame>, sIdx: seq<nat>)
    requires StackOf(items, stack, idx) && Popped(stack, idx, s, sIdx, e.level)
    ensures forall q: nat :: IsParentCandidate(items + [e], q) ==> |s| > 0 && q <= sIdx[|s| - 1]
  {
    forall q: nat | IsParentCandidate(items + [e], q)
      ensures |s| > 0 && q <= sIdx[|s| - 1]
    {
      CandidateOnStack(items, e, stack, idx, s, sIdx, q);
    }
  }

  /** The top of a non-empty popped stack is a parent candidate of the new item. */
  lemma TopIsCandidate(items: seq<Entry>, e: Entry, stack: seq<Frame>, idx: seq<nat>, s: seq<Frame>, sIdx: seq<nat>)
    requires StackOf(items, stack, idx) && Popped(stack, idx, s, sIdx, e.level) && |s| > 0
    ensures IsParentCandidate(items + [e], sIdx[|s| - 1])
  {
    var it := items + [e];
    var top := sIdx[|s| - 1];
    assert it[|items|] == e;
    assert top == idx[|s| - 1] && top < |items|;
    KeptAfterPop(items, e, stack, idx, s, sIdx, top);
    OpenAtExtend(items, e, top);
    assert it[top] == items[top];
  }

  /** The top of the popped stack is the parent the specification names. */
  lemma ParentFromStack(items: seq<Entry>, e: Entry, stack: seq<Frame>, idx: seq<nat>, s: seq<Frame>, sIdx: seq<nat>)
    requires StackOf(items, stack, idx) && Popped(stack, idx, s, sIdx, e.level)
    ensures ParentOfLast(items + [e]) == (if |s| == 0 then None else Some(sIdx[|s| - 1]))
  {
    CandidatesBelowTop(items, e, stack, idx, s, sIdx);
    if |s| > 0 {
      TopIsCandidate(items, e, stack, idx, s, sIdx);
    }
  }

  /** Pushing the new item when it is a directory restores the stack invariant. */
  lemma PushStack(items: seq<Entry>, e: Entry, stack: seq<Frame>, idx: seq<nat>, s: seq<Frame>, sIdx: seq<nat>)
    requires StackOf(items, stack, idx) && Popped(stack, idx, s, sIdx, e.level)
    ensures var push := IsDirectoryName(e.name);
      StackOf(items + [e],
        s + (if push then [FrameOf(items + [e], |items|)] else []),
        sIdx + (if push then [|items|] else []))
  {
    var it := items + [e];
    var k := |items|;
    var push := IsDirectoryName(e.name);
    var s' := s + (if push then [FrameOf(it, k)] else []);
    var sIdx' := sIdx + (if push then [k] else []);
    forall t | 0 <= t < |sIdx|
      ensures sIdx[t] < k && s[t] == FrameOf(it, sIdx[t])
    {
      assert sIdx[t] == idx[t] && s[t] == stack[t];
      FrameExtend(items, e, sIdx[t]);
    }
    assert Framed(it, s', sIdx');
    assert Increasing(s', sIdx') by {
      forall a, b | 0 <= a < b < |sIdx'|
        ensures sIdx'[a] < sIdx'[b] && s'[a].1 < s'[b].1
      {
        if b < |sIdx| {
          assert sIdx[a] == idx[a] && sIdx[b] == idx[b];
          assert s[a] == stack[a] && s[b] == stack[b];
        } else {
          assert s'[b] == FrameOf(it, k) && s'[b].1 == e.level;
        }
      }
    }
    forall j | 0 <= j < |it|
      ensures j in sIdx' <==> OpenAt(it, j, |it|)
    {
      if j < k {
        OpenAtExtend(items, e, j);
        KeptAfterPop(items, e, stack, idx, s, sIdx, j);
        assert it[j] == items[j];
        assert j in sIdx' <==> j in sIdx;
      } else {
        assert k !in sIdx;
        assert OpenAt(it, k, k + 1) <==> push;
      }
    }
  }

  /** Recording one more item appends one node and one statement line. */
  lemma PrefixSnoc(items: seq<Entry>, e: Entry, k: nat)
    requires k <= |items|
    ensures (items + [e])[..k + 1] == if k < |items| then items[..k + 1] else items + [e]
  {
  }

  lemma NodesSnoc(items: seq<Entry>, e: Entry)
    ensures Nodes(items + [e]) == Nodes(items) + [NodeOfLast(items + [e])]
    ensures DiagramLines(items + [e]) == DiagramLines(items) + [LineOfLast(items + [e])]
  {
    var it := items + [e];
    var nodes := Nodes(items) + [NodeOfLast(it)];
    var lines := StatementLines(items) + [LineOfLast(it)];
    forall k | 0 <= k < |it|
      ensures Nodes(it)[k] == nodes[k] && StatementLines(it)[k] == lines[k]
    {
      PrefixSnoc(items, e, k);
    }
    assert Nodes(it) == nodes;
    assert StatementLines(it) == lines;
    assert [Header] + lines == DiagramLines(items) + [LineOfLast(it)];
  }


  lemma ItemsSnoc(lines: seq<string>, n: nat)
    requires n < |lines|
    ensures Items(lines[..n + 1])
      == Items(lines[..n]) + (match ItemOf(lines[n]) case None => [] case Some(e) => [e])
  {
    assert lines[..n + 1][..n] == lines[..n];
  }

  /** The path and the statement of a new item follow from the top of the popped stack. */
  lemma Emission(items: seq<Entry>, e: Entry, stack: seq<Frame>, idx: seq<nat>, s: seq<Frame>, sIdx: seq<nat>)
    requires StackOf(items, stack, idx) && Popped(stack, idx, s, sIdx, e.level)
    ensures var it, k, display := items + [e], |items|, Display(IsDirectoryName(e.name), e.name);
      if s == [] then
        PathOfLast(it) == e.name && LineOfLast(it) == Indent + DeclarationText(NodeIdOf(k), display)
      else
        PathOfLast(it) == s[|s| - 1].2 + "/" + e.name
        && LineOfLast(it) == Indent + EdgeText(s[|s| - 1].0, NodeIdOf(k), display)
  {
    var it := items + [e];
    ParentFromStack(items, e, stack, idx, s, sIdx);
    assert it[|items|] == e;
    if s != [] {
      var p := sIdx[|s| - 1];
      assert s[|s| - 1] == stack[|s| - 1] && p == idx[|s| - 1];
      FrameExtend(items, e, p);
    }
  }

  /** Handles one item: pops the stack, emits the statement, records the node, pushes a directory. */
  method AddItem(ghost items: seq<Entry>, nodeId: string, level: nat, itemName: string,
                 parentStack: seq<Frame>, ghost stackIdx: seq<nat>)
    returns (statement: string, node: TreeNode, newStack: seq<Frame>, ghost newIdx: seq<nat>)
    requires StackOf(items, parentStack, stackIdx) && nodeId == NodeIdOf(|items|)
    ensures var it := items + [Entry(level, itemName)];
      statement == LineOfLast(it) && node == NodeOfLast(it) && StackOf(it, newStack, newIdx)
  {
    ghost var e := Entry(level, itemName);
    ghost var it := items + [e];
    var isDirectory := IsDirectoryName(itemName);
    var displayName := Display(isDirectory, itemName);
    var stack, idx := PopTo(parentStack, stackIdx, level);
    Emission(items, e, parentStack, stackIdx, stack, idx);
    PushStack(items, e, parentStack, stackIdx, stack, idx);
    var fullPath;
    if |stack| == 0 {
      fullPath := itemName;
      statement := Indent + DeclarationText(nodeId, displayName);
    } else {
      var parent := stack[|stack| - 1];
      fullPath := parent.2 + "/" + itemName;
      statement := Indent + EdgeText(parent.0, nodeId, displayName);
    }
    node := TreeNode(itemName, isDirectory, level, nodeId, Some(fullPath), []);
    var frame := (nodeId, level, fullPath);
    assert it[..|items| + 1] == it;
    assert frame == FrameOf(it, |items|);
    newStack, newIdx := stack, idx;
    if isDirectory {
      newStack, newIdx := stack + [frame], idx + [|items|];
    } else {
      assert stack + [] == stack && idx + [] == idx;
    }
    assert newStack == stack + (if isDirectory then [FrameOf(it, |items|)] else []);
    assert newIdx == idx + (if isDirectory then [|items|] else []);
  }

  /** TreeToMermaidConverter.ConvertTreeToMermaid. */
  method ConvertTreeToMermaid(treeText: string) returns (result: ConversionResult)
    ensures result == ConvertedTree(treeText)
  {
    if IsBlank(treeText) {
      return ConversionResult([], [], false, Some(EmptyInputMessage));
    }
    var preConvertedLines := PreConvertTree(treeText);
    var output := [Header];
    var nodeCounter := 0;
    var parsedNodes := [];
    var parentStack: seq<Frame> := [];
    ghost var items: seq<Entry> := [];
    ghost var stackIdx: seq<nat> := [];
    for n := 0 to |preConvertedLines|
      invariant items == Items(preConvertedLines[..n])
      invariant nodeCounter == |items|
      invariant parsedNodes == Nodes(items) && output == DiagramLines(items)
      invariant StackOf(items, parentStack, stackIdx)
    {
      ItemsSnoc(preConvertedLines, n);
      var line := preConvertedLines[n];
      var trimmedLine := TrimEnd(line);
      if trimmedLine != [] {
        var level := QuestionRun(trimmedLine);
        var itemName := Trim(trimmedLine[level..]);
        if itemName != [] {
          nodeCounter := nodeCounter + 1;
          var nodeId := "node" + NatToString(nodeCounter);
          var statement, node;
          statement, node, parentStack, stackIdx := AddItem(items, nodeId, level, itemName, parentStack, stackIdx);
          NodesSnoc(items, Entry(level, itemName));
          output := output + [statement];
          parsedNodes := parsedNodes + [node];
          items := items + [Entry(level, itemName)];
        }
      }
    }
    assert preConvertedLines[..|preConvertedLines|] == preConvertedLines;
    result := ConversionResult(JoinLines(output), parsedNodes, true, None);
  }

  /**
   * The node recorded for item `k`: id node(k+1), the item's name and
   * level, a directory by the name rule, and as path its name under no
   * parent or, under its parent, an earlier directory at a lower level, that
   * directory's path, a slash and its name.
   */
  lemma NodeFacts(items: seq<Entry>, k: nat)
    requires k < |items|
    ensures var nodes, e, parent := Nodes(items), items[k], ParentOfLast(items[..k + 1]);
      && nodes[k].nodeId == NodeIdOf(k) && nodes[k].name == e.name && nodes[k].level == e.level
      && nodes[k].isDirectory == IsDirectoryName(e.name)
      && (parent.None? ==> nodes[k].fullPath == Some(e.name))
      && (parent.Some? ==>
            && parent.value < k && nodes[parent.value].isDirectory
            && nodes[parent.value].level < e.level
            && nodes[k].fullPath == Some(nodes[parent.value].fullPath.value + "/" + e.name))
  {
    var prefix := items[..k + 1];
    var parent := ParentOfLast(prefix);
    if parent.Some? {
      var p := parent.value;
      assert prefix[..p + 1] == items[..p + 1];
      assert prefix[p] == items[p];
    }
  }

  /**
   * ConvertTreeToMermaid succeeds exactly on text that is not blank; blank
   * text gives the empty-input message, an empty diagram and no nodes.
   * Otherwise there is one node per item, described by NodeFacts, and the
   * diagram is the header line followed by one statement line per node.
   */
  lemma ConvertedOutcome(treeText: string)
    ensures var r := ConvertedTree(treeText);
      && (r.isSuccess <==> !IsBlank(treeText))
      && (r.isSuccess <==> r.errorMessage.None?)
      && (!r.isSuccess ==> r.mermaidDiagram == [] && r.parsedNodes == [] && r.errorMessage == Some(EmptyInputMessage))
      && (r.isSuccess ==>
            && |r.parsedNodes| == |Items(PreConverted(treeText))|
            && r.mermaidDiagram == JoinLines([Header] + StatementLines(Items(PreConverted(treeText))))
            && |StatementLines(Items(PreConverted(treeText)))| == |r.parsedNodes|)
  {
  }

  // ---------------- Mermaid back to nodes ----------------

  /**
   * What ParseMermaidToNodes returns: nothing for blank text, for an
   * exception while reading the statements or for a child named twice;
   * otherwise the resolved dictionary's nodes ordered by level then path.
   */
  ghost predicate ParsesTo(mermaidDiagram: string, nodes: seq<TreeNode>) {
    if IsBlank(mermaidDiagram) then nodes == []
    else
      var c := Collect(SkipFirst(SplitLines(mermaidDiagram)), TreeToMermaidRules);
      if c.Failure? || !NoDuplicateChild(c.value.edges) then nodes == []
      else exists r :: Resolved(c.value.table.nodes, c.value.edges, r, false)
                       && SortedValues(r, c.value.table.order, nodes)
  }

  /** A successful parse and resolution is what ParsesTo describes. */
  lemma ParsesOnSuccess(mermaidDiagram: string, c: Collected, r: NodeMap, nodes: seq<TreeNode>)
    requires !IsBlank(mermaidDiagram)
    requires Collect(SkipFirst(SplitLines(mermaidDiagram)), TreeToMermaidRules) == Success(c)
    requires NoDuplicateChild(c.edges) && Resolved(c.table.nodes, c.edges, r, false)
    requires SortedValues(r, c.table.order, nodes)
    ensures ParsesTo(mermaidDiagram, nodes)
  {
  }

  /** TreeToMermaidConverter.ParseMermaidToNodes with CalculateNodeLevelsAndPaths. */
  method ParseMermaidToNodes(mermaidDiagram: string) returns (nodes: seq<TreeNode>)
    ensures ParsesTo(mermaidDiagram, nodes)
  {
    nodes := [];
    if IsBlank(mermaidDiagram) {
      return;
    }
    var lines := SplitLines(mermaidDiagram);
    var collected := CollectStatements(SkipFirst(lines), TreeToMermaidRules);
    if collected.Failure? {
      return;
    }
    var table, edges := collected.value.table, collected.value.edges;
    var resolved := Resolve(table, edges, false);
    if resolved.Failure? {
      return;
    }
    assert forall i :: 0 <= i < |table.order| ==> table.order[i] in resolved.value by {
      assert resolved.value.Keys == table.nodes.Keys;
    }
    nodes := SortBy(ValuesInOrder(resolved.value, table.order), ByLevelThenPath);
    ParsesOnSuccess(mermaidDiagram, collected.value, resolved.value, nodes);
  }

  /** ParseMermaidToNodes has one result per diagram. */
  lemma ParsesToUnique(mermaidDiagram: string, nodes1: seq<TreeNode>, nodes2: seq<TreeNode>)
    requires ParsesTo(mermaidDiagram, nodes1) && ParsesTo(mermaidDiagram, nodes2)
    ensures nodes1 == nodes2
  {
    if !IsBlank(mermaidDiagram) {
      var c := Collect(SkipFirst(SplitLines(mermaidDiagram)), TreeToMermaidRules);
      if c.Success? && NoDuplicateChild(c.value.edges) {
        var r1 :| Resolved(c.value.table.nodes, c.value.edges, r1, false) && SortedValues(r1, c.value.table.order, nodes1);
        var r2 :| Resolved(c.value.table.nodes, c.value.edges, r2, false) && SortedValues(r2, c.value.table.order, nodes2);
        ResolvedUnique(c.value.table.nodes, c.value.edges, r1, r2, false);
      }
    }
  }

  /** The parsed nodes come out ordered by level, then by path. */
  lemma ParsedSorted(mermaidDiagram: string, nodes: seq<TreeNode>)
    requires ParsesTo(mermaidDiagram, nodes)
    ensures Sorted(nodes, ByLevelThenPath)
  {
    if !IsBlank(mermaidDiagram) {
      var c := Collect(SkipFirst(SplitLines(mermaidDiagram)), TreeToMermaidRules);
      if c.Success? && NoDuplicateChild(c.value.edges) {
        var r :| Resolved(c.value.table.nodes, c.value.edges, r, false) && SortedValues(r, c.value.table.order, nodes);
        ByLevelThenPathIsTotalPreorder();
        SortBySorted(ValuesInOrder(r, c.value.table.order), ByLevelThenPath);
      }
    }
  }

  /** The parsed nodes are the resolved dictionary's nodes, each once. */
  lemma ParsedValues(mermaidDiagram: string, nodes: seq<TreeNode>)
    requires ParsesTo(mermaidDiagram, nodes) && !IsBlank(mermaidDiagram)
    requires var c := Collect(SkipFirst(SplitLines(mermaidDiagram)), TreeToMermaidRules);
      c.Success? && NoDuplicateChild(c.value.edges)
    ensures var c := Collect(SkipFirst(SplitLines(mermaidDiagram)), TreeToMermaidRules).value;
      exists r :: Resolved(c.table.nodes, c.edges, r, false)
        && |nodes| == |r.Keys| && forall n :: n in nodes <==> n in r.Values
  {
    var c := Collect(SkipFirst(SplitLines(mermaidDiagram)), TreeToMermaidRules).value;
    var r :| Resolved(c.table.nodes, c.edges, r, false) && SortedValues(r, c.table.order, nodes);
    assert r.Keys == c.table.nodes.Keys;
    SortedValuesElements(r, c.table.order, nodes);
  }
}
