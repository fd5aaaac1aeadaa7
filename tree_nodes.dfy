/**
 * The node record both converters build (TreeToMermaidConverter.TreeNode and
 * MermaidToTreeConverter.TreeNode, the latter with a Children list), the
 * node dictionary with its enumeration order, and the faults .NET raises
 * inside the converters.
 */
module TreeNodes {
  import opened Wrappers
  import opened Text
  import opened Sorting

  /**
   * One node. `fullPath` is None while the property is still null;
   * `children` holds the ids of the nodes added to the Children list. A
   * node object lives in exactly one dictionary entry, under its own id, so
   * an id stands for the object reference.
   */
  datatype TreeNode = TreeNode(
    name: string,
    isDirectory: bool,
    level: nat,
    nodeId: string,
    fullPath: Option<string>,
    children: seq<string>)

  /** A node as the diagram parsers first create it: level 0, no path, no children. */
  function NewNode(id: string, name: string, isDirectory: bool): TreeNode {
    TreeNode(name, isDirectory, 0, id, None, [])
  }

  type NodeMap = map<string, TreeNode>

  predicate Distinct<T(==)>(s: seq<T>) {
    forall i, j :: 0 <= i < j < |s| ==> s[i] != s[j]
  }

  /** A duplicate-free listing of a set has as many elements as the set. */
  lemma {:induction false} DistinctCardinality<T>(s: seq<T>, keys: set<T>)
    requires Distinct(s) && forall x :: x in keys <==> x in s
    ensures |keys| == |s|
  {
    if s != [] {
      var rest := keys - {s[0]};
      forall x
        ensures x in rest <==> x in s[1..]
      {
        if x in s[1..] {
          var i :| 0 <= i < |s[1..]| && s[1..][i] == x;
          assert s[i + 1] == x;
        }
      }
      assert Distinct(s[1..]) by {
        forall i, j | 0 <= i < j < |s[1..]|
          ensures s[1..][i] != s[1..][j]
        {
          assert s[1..][i] == s[i + 1] && s[1..][j] == s[j + 1];
        }
      }
      DistinctCardinality(s[1..], rest);
      assert keys == rest + {s[0]};
    }
  }

  /**
   * A Dictionary<string, TreeNode> that is only ever added to: its entries
   * and its enumeration order, which is insertion order.
   */
  datatype NodeTable = NodeTable(nodes: NodeMap, order: seq<string>)

  ghost predicate ValidTable(t: NodeTable) {
    && Distinct(t.order)
    && (forall id :: id in t.nodes <==> id in t.order)
    && (forall id :: id in t.nodes ==> t.nodes[id].nodeId == id)
  }

  const EmptyTable := NodeTable(map[], [])

  /** nodeMap[node.NodeId] = node for an id not yet present. */
  function AddNode(t: NodeTable, n: TreeNode): (r: NodeTable)
    requires ValidTable(t) && n.nodeId !in t.nodes
    ensures ValidTable(r)
    ensures r.nodes == t.nodes[n.nodeId := n] && r.order == t.order + [n.nodeId]
  {
    NodeTable(t.nodes[n.nodeId := n], t.order + [n.nodeId])
  }

  /** Listing every key of `m` gives every value of `m`, and nothing else. */
  lemma ValuesInOrderElements(m: NodeMap, order: seq<string>)
    requires forall i :: 0 <= i < |order| ==> order[i] in m
    requires forall id :: id in m ==> id in order
    ensures forall n :: n in ValuesInOrder(m, order) <==> n in m.Values
  {
    var values := ValuesInOrder(m, order);
    forall n
      ensures n in values <==> n in m.Values
    {
      if n in values {
        var i :| 0 <= i < |values| && values[i] == n;
        assert order[i] in m;
      }
      if n in m.Values {
        var id :| id in m && m[id] == n;
        var i :| 0 <= i < |order| && order[i] == id;
        assert values[i] == n;
      }
    }
  }

  /** Every node is still as the parsers created it. */
  predicate Unresolved(m: NodeMap) {
    forall id :: id in m ==> m[id].level == 0 && m[id].fullPath == None && m[id].children == []
  }

  /** nodeMap.Values: the nodes of `m` in the order `order` enumerates them. */
  function ValuesInOrder(m: NodeMap, order: seq<string>): (r: seq<TreeNode>)
    requires forall i :: 0 <= i < |order| ==> order[i] in m
    ensures |r| == |order| && forall i :: 0 <= i < |order| ==> r[i] == m[order[i]]
  {
    if order == [] then [] else [m[order[0]]] + ValuesInOrder(m, order[1..])
  }

  /** Null sorts before every string, strings in ordinal order. */
  predicate PathLe(a: Option<string>, b: Option<string>) {
    a.None? || (b.Some? && LexLe(a.value, b.value))
  }

  /** The key of `OrderBy(n => n.Level).ThenBy(n => n.FullPath)`. */
  predicate ByLevelThenPath(a: TreeNode, b: TreeNode) {
    a.level < b.level || (a.level == b.level && PathLe(a.fullPath, b.fullPath))
  }

  /** Ordering by level, then by path with null first, orders every pair and is transitive. */
  lemma ByLevelThenPathIsTotalPreorder()
    ensures IsTotalPreorder(ByLevelThenPath)
  {
    forall a: TreeNode, b: TreeNode
      ensures ByLevelThenPath(a, b) || ByLevelThenPath(b, a)
    {
      if a.fullPath.Some? && b.fullPath.Some? {
        LexLeTotal(a.fullPath.value, b.fullPath.value);
      }
    }
    forall a: TreeNode, b: TreeNode, c: TreeNode | ByLevelThenPath(a, b) && ByLevelThenPath(b, c)
      ensures ByLevelThenPath(a, c)
    {
      if a.level == b.level == c.level && a.fullPath.Some? && b.fullPath.Some? && c.fullPath.Some? {
        LexLeTransitive(a.fullPath.value, b.fullPath.value, c.fullPath.value);
      }
    }
  }

  /** Every listed id is a key of `r`, and `nodes` is `r`'s values in that order, sorted by level then path. */
  ghost predicate SortedValues(r: NodeMap, order: seq<string>, nodes: seq<TreeNode>) {
    && (forall i :: 0 <= i < |order| ==> order[i] in r)
    && nodes == SortBy(ValuesInOrder(r, order), ByLevelThenPath)
  }

  /** The sorted values are the values of `r`, each once. */
  lemma SortedValuesElements(r: NodeMap, order: seq<string>, nodes: seq<TreeNode>)
    requires SortedValues(r, order, nodes) && Distinct(order)
    requires forall id :: id in r <==> id in order
    ensures |nodes| == |r.Keys| && forall n :: n in nodes <==> n in r.Values
  {
    var values := ValuesInOrder(r, order);
    SortByElements(values, ByLevelThenPath);
    ValuesInOrderElements(r, order);
    DistinctCardinality(order, r.Keys);
  }

  /** The exceptions the converters can raise on their input. */
  datatype Fault =
    | SubstringOutOfRange             // String.Substring past the end of the string
    | DuplicateKey(key: string)       // Enumerable.ToDictionary meeting a key twice

  /** Exception.Message of each fault. */
  function FaultMessage(f: Fault): string {
    match f
    case SubstringOutOfRange =>
      "startIndex cannot be larger than length of string. (Parameter 'startIndex')"
    case DuplicateKey(k) => "An item with the same key has already been added. Key: " + k
  }
}
