/**
 * The breadth-first resolution both converters run after parsing
 * (TreeToMermaidConverter.CalculateNodeLevelsAndPaths and
 * MermaidToTreeConverter.BuildHierarchy): roots get level 0 and their name
 * as path, each reached child its parent's level plus one and the parent's
 * path extended by "/" and its name. BuildHierarchy also appends each
 * reached child to its parent's Children list; `link` selects that.
 */
module Hierarchy {
  import opened Wrappers
  import opened Text
  import opened TreeNodes

  type Edge = (string, string)

  /** No id is the child of two relationships. */
  predicate NoDuplicateChild(edges: seq<Edge>) {
    forall i, j :: 0 <= i < j < |edges| ==> edges[i].1 != edges[j].1
  }

  /** The parent the first relationship naming `c` as child gives it. */
  function ParentOf(edges: seq<Edge>, c: string): Option<string> {
    if edges == [] then None
    else if edges[0].1 == c then Some(edges[0].0)
    else ParentOf(edges[1..], c)
  }

  /** The group of `relationships.GroupBy(r => r.parent)` for `p`: its children in relationship order. */
  function ChildrenOf(edges: seq<Edge>, p: string): seq<string> {
    if edges == [] then []
    else (if edges[0].0 == p then [edges[0].1] else []) + ChildrenOf(edges[1..], p)
  }

  /**
   * `relationships.ToDictionary(r => r.child, r => r.parent)`: the parent
   * of each child, or the exception raised at the first relationship whose
   * child an earlier one already named.
   */
  function ChildParentMap(edges: seq<Edge>): (r: Result<map<string, string>, Fault>)
    ensures r.Success? <==> NoDuplicateChild(edges)
    ensures r.Success? ==> forall c :: c in r.value <==> ParentOf(edges, c).Some?
    ensures r.Success? ==> forall c :: c in r.value ==> Some(r.value[c]) == ParentOf(edges, c)
    ensures r.Failure? ==> exists j :: (0 < j < |edges| && r.error == DuplicateKey(edges[j].1)
      && NoDuplicateChild(edges[..j]) && exists i :: 0 <= i < j && edges[i].1 == edges[j].1)
  {
    if edges == [] then Success(map[])
    else
      var prefix, e := edges[..|edges| - 1], edges[|edges| - 1];
      ParentOfSnoc(prefix, e);
      assert edges == prefix + [e];
      match ChildParentMap(prefix)
      case Failure(f) =>
        assert forall j :: 0 < j < |prefix| ==> prefix[..j] == edges[..j];
        Failure(f)
      case Success(m) =>
        if e.1 in m then
          assert edges[..|edges| - 1] == prefix;
          ParentOfFound(prefix, e.1);
          var i :| 0 <= i < |prefix| && prefix[i].1 == e.1;
          assert edges[i].1 == edges[|edges| - 1].1;
          Failure(DuplicateKey(e.1))
        else
          assert forall i :: 0 <= i < |prefix| ==> prefix[i].1 != e.1 by {
            forall i | 0 <= i < |prefix| ensures prefix[i].1 != e.1 {
              ParentOfMissing(prefix, e.1, i);
            }
          }
          Success(m[e.1 := e.0])
  }

  lemma {:induction false} ParentOfSnoc(edges: seq<Edge>, e: Edge)
    ensures forall c :: (ParentOf(edges + [e], c) ==
      if ParentOf(edges, c).Some? then ParentOf(edges, c) else if e.1 == c then Some(e.0) else None)
  {
    if edges != [] {
      assert (edges + [e])[1..] == edges[1..] + [e];
      ParentOfSnoc(edges[1..], e);
    }
  }

  lemma {:induction false} ParentOfFound(edges: seq<Edge>, c: string)
    requires ParentOf(edges, c).Some?
    ensures exists i :: 0 <= i < |edges| && edges[i] == (ParentOf(edges, c).value, c)
  {
    if edges[0].1 != c {
      ParentOfFound(edges[1..], c);
      var i :| 0 <= i < |edges[1..]| && edges[1..][i] == (ParentOf(edges, c).value, c);
      assert edges[i + 1] == edges[1..][i];
    }
  }

  /** Appending at most one relationship, for child `c`, leaves every other parent as it was. */
  lemma ParentOfAppend(edges: seq<Edge>, rel: seq<Edge>, c: string, x: string)
    requires rel == [] || (|rel| == 1 && rel[0].1 == c)
    ensures x != c ==> ParentOf(edges + rel, x) == ParentOf(edges, x)
    ensures x == c && ParentOf(edges, c) == None ==>
      ParentOf(edges + rel, c) == (if rel == [] then None else Some(rel[0].0))
  {
    if rel == [] {
      assert edges + rel == edges;
    } else {
      ParentOfSnoc(edges, rel[0]);
      assert edges + rel == edges + [rel[0]];
    }
  }

  /** An id no relationship names as child has no parent. */
  lemma {:induction false} ParentOfAbsent(edges: seq<Edge>, c: string)
    requires forall i :: 0 <= i < |edges| ==> edges[i].1 != c
    ensures ParentOf(edges, c) == None
  {
    if edges != [] {
      assert forall i :: 0 <= i < |edges[1..]| ==> edges[1..][i] == edges[i + 1];
      ParentOfAbsent(edges[1..], c);
    }
  }

  lemma {:induction false} ParentOfMissing(edges: seq<Edge>, c: string, i: nat)
    requires ParentOf(edges, c).None? && i < |edges|
    ensures edges[i].1 != c
  {
    if i > 0 {
      ParentOfMissing(edges[1..], c, i - 1);
    }
  }

  lemma {:induction false} ChildrenOfMember(edges: seq<Edge>, p: string, c: string)
    ensures c in ChildrenOf(edges, p) <==> exists i :: 0 <= i < |edges| && edges[i] == (p, c)
  {
    if edges != [] {
      ChildrenOfMember(edges[1..], p, c);
      if exists i :: 0 <= i < |edges[1..]| && edges[1..][i] == (p, c) {
        var i :| 0 <= i < |edges[1..]| && edges[1..][i] == (p, c);
        assert edges[i + 1] == (p, c);
      }
      if exists i :: 0 <= i < |edges| && edges[i] == (p, c) {
        var i :| 0 <= i < |edges| && edges[i] == (p, c);
        if i > 0 {
          assert edges[1..][i - 1] == (p, c);
        }
      }
    }
  }

  lemma HeadChildUnique(edges: seq<Edge>)
    requires NoDuplicateChild(edges) && edges != []
    ensures forall i :: 0 <= i < |edges[1..]| ==> edges[1..][i].1 != edges[0].1
  {
    forall i | 0 <= i < |edges[1..]| ensures edges[1..][i].1 != edges[0].1 {
      assert edges[1..][i] == edges[i + 1];
    }
  }

  /** Without duplicate children, `c` is in the group of `p` exactly when `p` is its parent. */
  lemma {:induction false} ChildrenOfParent(edges: seq<Edge>, p: string, c: string)
    requires NoDuplicateChild(edges)
    ensures c in ChildrenOf(edges, p) <==> ParentOf(edges, c) == Some(p)
  {
    if edges != [] {
      var rest := edges[1..];
      assert NoDuplicateChild(rest) by {
        forall i, j | 0 <= i < j < |rest| ensures rest[i].1 != rest[j].1 {
          assert rest[i] == edges[i + 1] && rest[j] == edges[j + 1];
        }
      }
      ChildrenOfParent(rest, p, c);
      if edges[0].1 == c {
        HeadChildUnique(edges);
        ChildrenOfMember(rest, p, c);
      }
    }
  }

  /** Without duplicate children, a group lists each child once. */
  lemma {:induction false} ChildrenOfDistinct(edges: seq<Edge>, p: string)
    requires NoDuplicateChild(edges)
    ensures Distinct(ChildrenOf(edges, p))
  {
    if edges != [] {
      var rest := edges[1..];
      assert NoDuplicateChild(rest) by {
        forall i, j | 0 <= i < j < |rest| ensures rest[i].1 != rest[j].1 {
          assert rest[i] == edges[i + 1] && rest[j] == edges[j + 1];
        }
      }
      ChildrenOfDistinct(rest, p);
      if edges[0].0 == p {
        HeadChildUnique(edges);
        ChildrenOfMember(rest, p, edges[0].1);
      }
    }
  }

  /** The ids of `s` that are keys of the dictionary, in order: the `TryGetValue` filter. */
  function Present(s: seq<string>, keys: set<string>): (r: seq<string>)
    ensures forall x :: x in r <==> x in s && x in keys
  {
    if s == [] then []
    else Present(s[..|s| - 1], keys) + (if s[|s| - 1] in keys then [s[|s| - 1]] else [])
  }

  // ---------------------------------------------------------------------
  // What a resolved dictionary is.

  /** `m` holds the ids of `init`, with their names, kinds and node ids. */
  ghost predicate SameNodes(init: NodeMap, m: NodeMap) {
    && m.Keys == init.Keys
    && forall id :: id in m ==>
         m[id].name == init[id].name && m[id].isDirectory == init[id].isDirectory && m[id].nodeId == init[id].nodeId
  }

  /**
   * A reached node: a root at level 0 with its name as path, or a child one
   * level below its reached parent with "/" and its name appended to the
   * parent's path.
   */
  ghost predicate Placed(edges: seq<Edge>, m: NodeMap, id: string)
    requires id in m
  {
    match ParentOf(edges, id)
    case None => m[id].level == 0 && m[id].fullPath == Some(m[id].name)
    case Some(p) =>
      && p in m && m[p].fullPath.Some?
      && m[id].level == m[p].level + 1
      && m[id].fullPath == Some(m[p].fullPath.value + "/" + m[id].name)
  }

  /** The parent of `id` is not in the dictionary or was never reached itself. */
  ghost predicate Unreachable(edges: seq<Edge>, m: NodeMap, id: string) {
    match ParentOf(edges, id)
    case None => false
    case Some(p) => p !in m || m[p].fullPath.None?
  }

  /**
   * `r` is `init` after the breadth-first resolution: every node whose
   * ancestors lead to a root is placed, every other keeps level 0 and no
   * path, and with `link` each reached node lists its children that are in
   * the dictionary, in relationship order.
   */
  ghost predicate Resolved(init: NodeMap, edges: seq<Edge>, r: NodeMap, link: bool) {
    && SameNodes(init, r)
    && forall id :: id in r ==>
         && (r[id].fullPath.Some? ==> Placed(edges, r, id))
         && (r[id].fullPath.None? ==> r[id].level == 0 && Unreachable(edges, r, id))
         && r[id].children == (if link && r[id].fullPath.Some? then Present(ChildrenOf(edges, id), r.Keys) else [])
  }

  lemma {:induction false} ReachedAgree(init: NodeMap, edges: seq<Edge>, r1: NodeMap, r2: NodeMap, link: bool, id: string, level: nat)
    requires Resolved(init, edges, r1, link) && Resolved(init, edges, r2, link)
    requires id in r1 && r1[id].fullPath.Some? && r1[id].level == level
    ensures id in r2 && r2[id].fullPath == r1[id].fullPath && r2[id].level == level
    decreases level
  {
    assert id in r2;
    match ParentOf(edges, id)
    case None =>
    case Some(p) =>
      ReachedAgree(init, edges, r1, r2, link, p, level - 1);
  }

  /** The resolution is determined by its inputs: whatever order the queue visits nodes in, the result is the same. */
  lemma ResolvedUnique(init: NodeMap, edges: seq<Edge>, r1: NodeMap, r2: NodeMap, link: bool)
    requires Resolved(init, edges, r1, link) && Resolved(init, edges, r2, link)
    ensures r1 == r2
  {
    forall id | id in r1 ensures r1[id] == r2[id] {
      if r1[id].fullPath.Some? {
        ReachedAgree(init, edges, r1, r2, link, id, r1[id].level);
      } else if r2[id].fullPath.Some? {
        ReachedAgree(init, edges, r2, r1, link, id, r2[id].level);
      }
    }
  }

  /** Every node that is no relationship's child has its own name as path. */
  ghost predicate RootsNamed(edges: seq<Edge>, r: NodeMap) {
    forall id :: id in r && ParentOf(edges, id).None? ==> r[id].fullPath == Some(r[id].name)
  }

  /** Every node whose parent has a path has that path, a slash and its own name. */
  ghost predicate PathsExtend(edges: seq<Edge>, r: NodeMap) {
    forall id :: (id in r && ParentOf(edges, id).Some? && ParentOf(edges, id).value in r
      && r[ParentOf(edges, id).value].fullPath.Some?) ==>
      r[id].fullPath == Some(r[ParentOf(edges, id).value].fullPath.value + "/" + r[id].name)
  }

  /** The parents' paths fix every path: roots are their names, and a child of a placed node is placed below it. */
  lemma ResolvedPlacement(init: NodeMap, edges: seq<Edge>, r: NodeMap, link: bool)
    requires Resolved(init, edges, r, link)
    ensures RootsNamed(edges, r) && PathsExtend(edges, r)
  {
  }

  /** Along every relationship between two reached nodes the level grows by one and the path by one segment. */
  lemma ResolvedIsLinked(init: NodeMap, edges: seq<Edge>, r: NodeMap, link: bool, p: string, c: string)
    requires Resolved(init, edges, r, link) && NoDuplicateChild(edges)
    requires p in r && c in r && c in ChildrenOf(edges, p) && r[p].fullPath.Some?
    ensures r[c].fullPath == Some(r[p].fullPath.value + "/" + r[c].name)
    ensures r[c].level == r[p].level + 1
  {
    ChildrenOfParent(edges, p, c);
  }

  // ---------------------------------------------------------------------
  // The queue.

  /** A queue entry: the node id with the level and path it was given. */
  type Visit = (string, nat, string)

  function Ids(queue: seq<Visit>): (r: seq<string>)
    ensures |r| == |queue| && forall i :: 0 <= i < |queue| ==> r[i] == queue[i].0
  {
    if queue == [] then [] else [queue[0].0] + Ids(queue[1..])
  }

  ghost predicate ParentDone(edges: seq<Edge>, done: set<string>, id: string) {
    ParentOf(edges, id).None? || ParentOf(edges, id).value in done
  }

  /** The bookkeeping of the search: ids, queue entries and the child being expanded. */
  ghost predicate Shape(init: NodeMap, edges: seq<Edge>, m: NodeMap, queue: seq<Visit>,
                        done: set<string>, p: string, j: nat)
  {
    && j <= |ChildrenOf(edges, p)|
    && SameNodes(init, m) && NoDuplicateChild(edges)
    && done <= m.Keys
    && Distinct(Ids(queue))
    && (forall i :: 0 <= i < |queue| ==>
          && queue[i].0 in m && queue[i].0 !in done
          && m[queue[i].0].level == queue[i].1 && m[queue[i].0].fullPath == Some(queue[i].2))
  }

  /**
   * The reached nodes are exactly the dequeued and queued ones, each placed
   * below a dequeued parent; every other node is untouched; every root the
   * root loop has looked at is reached.
   */
  ghost predicate Reach(init: NodeMap, edges: seq<Edge>, m: NodeMap, queue: seq<Visit>,
                        done: set<string>, seeded: set<string>)
    requires m.Keys == init.Keys
  {
    && ReachedExactly(m, queue, done)
    && AllPlaced(edges, m, done)
    && Untouched(init, m)
    && RootsSeeded(edges, m, seeded)
  }

  ghost predicate ReachedExactly(m: NodeMap, queue: seq<Visit>, done: set<string>) {
    forall id :: id in m ==> (m[id].fullPath.Some? <==> id in done || id in Ids(queue))
  }

  ghost predicate AllPlaced(edges: seq<Edge>, m: NodeMap, done: set<string>) {
    forall id :: id in m && m[id].fullPath.Some? ==> Placed(edges, m, id) && ParentDone(edges, done, id)
  }

  ghost predicate Untouched(init: NodeMap, m: NodeMap)
    requires m.Keys == init.Keys
  {
    forall id :: id in m && m[id].fullPath.None? ==> m[id] == init[id]
  }

  ghost predicate RootsSeeded(edges: seq<Edge>, m: NodeMap, seeded: set<string>) {
    forall id :: id in m && id in seeded && ParentOf(edges, id).None? ==> m[id].fullPath.Some?
  }

  /**
   * The children of dequeued nodes that have been looked at are reached, the
   * rest of the children of `p` are not, and with `link` each dequeued node
   * lists the children looked at.
   */
  ghost predicate Kids(edges: seq<Edge>, link: bool, m: NodeMap, done: set<string>, p: string, j: nat)
    requires j <= |ChildrenOf(edges, p)|
  {
    var cs := ChildrenOf(edges, p);
    && (forall q, c :: q in done && q != p && c in ChildrenOf(edges, q) && c in m ==> m[c].fullPath.Some?)
    && (forall k :: 0 <= k < j && p in done && cs[k] in m ==> m[cs[k]].fullPath.Some?)
    && (forall k :: j <= k < |cs| && cs[k] in m ==> m[cs[k]].fullPath.None?)
    && (forall id :: id in m && id != p ==>
          m[id].children == if link && id in done then Present(ChildrenOf(edges, id), m.Keys) else [])
    && (p in m ==> m[p].children == if link && p in done then Present(cs[..j], m.Keys) else [])
  }

  /**
   * The state of the search: `done` holds the dequeued ids, `seeded` the
   * ids the root loop has looked at, and `p` is expanded up to its `j`-th
   * child.
   */
  ghost predicate Frontier(init: NodeMap, edges: seq<Edge>, link: bool, m: NodeMap, queue: seq<Visit>,
                           done: set<string>, seeded: set<string>, p: string, j: nat)
  {
    && Shape(init, edges, m, queue, done, p, j)
    && Reach(init, edges, m, queue, done, seeded)
    && Kids(edges, link, m, done, p, j)
  }

  lemma Begin(init: NodeMap, edges: seq<Edge>, link: bool)
    requires Unresolved(init) && NoDuplicateChild(edges)
    ensures Frontier(init, edges, link, init, [], {}, {}, "", |ChildrenOf(edges, "")|)
  {
  }

  function Seeded(m: NodeMap, id: string): NodeMap
    requires id in m
  {
    m[id := m[id].(level := 0, fullPath := Some(m[id].name))]
  }

  lemma SeedRootShape(init: NodeMap, edges: seq<Edge>, m: NodeMap, queue: seq<Visit>, p: string, j: nat, id: string)
    requires Shape(init, edges, m, queue, {}, p, j)
    requires id in m && id !in Ids(queue) && ParentOf(edges, id).None?
    ensures Shape(init, edges, Seeded(m, id), queue + [(id, 0, m[id].name)], {}, p, j)
  {
    assert QueueRecorded(m, queue, {});
    QueueRecordedSnoc(m, Seeded(m, id), queue, {}, (id, 0, m[id].name));
  }

  lemma SeedRootReach(init: NodeMap, edges: seq<Edge>, m: NodeMap, queue: seq<Visit>, seeded: set<string>, id: string)
    requires m.Keys == init.Keys && Reach(init, edges, m, queue, {}, seeded)
    requires id in m && id !in Ids(queue) && ParentOf(edges, id).None?
    ensures Seeded(m, id).Keys == init.Keys
    ensures Reach(init, edges, Seeded(m, id), queue + [(id, 0, m[id].name)], {}, seeded + {id})
  {
    var m' := Seeded(m, id);
    var queue' := queue + [(id, 0, m[id].name)];
    assert Ids(queue') == Ids(queue) + [id];
    forall x | x in m' && m'[x].fullPath.Some? ensures Placed(edges, m', x) {
      if x != id {
        assert Placed(edges, m, x);
      }
    }
  }

  lemma SeedRootKids(init: NodeMap, edges: seq<Edge>, link: bool, m: NodeMap, queue: seq<Visit>,
                     seeded: set<string>, p: string, j: nat, id: string)
    requires Frontier(init, edges, link, m, queue, {}, seeded, p, j)
    requires id in m && id !in Ids(queue) && ParentOf(edges, id).None?
    ensures Kids(edges, link, Seeded(m, id), {}, p, j)
  {
    var m' := Seeded(m, id);
    forall k | j <= k < |ChildrenOf(edges, p)| && ChildrenOf(edges, p)[k] in m'
      ensures m'[ChildrenOf(edges, p)[k]].fullPath.None?
    {
      ChildrenOfParent(edges, p, ChildrenOf(edges, p)[k]);
    }
  }

  lemma SeedRoot(init: NodeMap, edges: seq<Edge>, link: bool, m: NodeMap, queue: seq<Visit>,
                 seeded: set<string>, p: string, j: nat, id: string)
    requires Frontier(init, edges, link, m, queue, {}, seeded, p, j)
    requires id in m && id !in Ids(queue) && ParentOf(edges, id).None?
    ensures Frontier(init, edges, link, Seeded(m, id), queue + [(id, 0, m[id].name)], {}, seeded + {id}, p, j)
  {
    SeedRootShape(init, edges, m, queue, p, j, id);
    SeedRootReach(init, edges, m, queue, seeded, id);
    SeedRootKids(init, edges, link, m, queue, seeded, p, j, id);
  }

  lemma SeedOther(init: NodeMap, edges: seq<Edge>, link: bool, m: NodeMap, queue: seq<Visit>,
                  seeded: set<string>, p: string, j: nat, id: string)
    requires Frontier(init, edges, link, m, queue, {}, seeded, p, j)
    requires ParentOf(edges, id).Some?
    ensures Frontier(init, edges, link, m, queue, {}, seeded + {id}, p, j)
  {
  }

  lemma DequeueShape(init: NodeMap, edges: seq<Edge>, link: bool, m: NodeMap, queue: seq<Visit>,
                     done: set<string>, seeded: set<string>, p: string)
    requires Frontier(init, edges, link, m, queue, done, seeded, p, |ChildrenOf(edges, p)|) && queue != []
    ensures Shape(init, edges, m, queue[1..], done + {queue[0].0}, queue[0].0, 0)
  {
    assert Ids(queue[1..]) == Ids(queue)[1..];
    forall i | 0 <= i < |queue[1..]| ensures queue[1..][i].0 != queue[0].0 {
      assert Ids(queue)[i + 1] != Ids(queue)[0];
    }
  }

  lemma DequeueReach(init: NodeMap, edges: seq<Edge>, m: NodeMap, queue: seq<Visit>,
                     done: set<string>, seeded: set<string>)
    requires m.Keys == init.Keys && Reach(init, edges, m, queue, done, seeded) && queue != []
    ensures Reach(init, edges, m, queue[1..], done + {queue[0].0}, seeded)
  {
    assert Ids(queue) == [queue[0].0] + Ids(queue[1..]);
  }

  /** After `p` is finished, every child of a dequeued node that is in the dictionary is reached. */
  lemma DequeueKidsReached(edges: seq<Edge>, link: bool, m: NodeMap, done: set<string>, p: string, q: string)
    requires Kids(edges, link, m, done, p, |ChildrenOf(edges, p)|)
    ensures forall x, c :: x in done + {q} && x != q && c in ChildrenOf(edges, x) && c in m ==> m[c].fullPath.Some?
  {
    var cs := ChildrenOf(edges, p);
    forall x, c | x in done + {q} && x != q && c in ChildrenOf(edges, x) && c in m ensures m[c].fullPath.Some? {
      if x == p {
        var k :| 0 <= k < |cs| && cs[k] == c;
      }
    }
  }

  /** The children of the node just dequeued have not been reached: their parent was not done. */
  lemma DequeueKidsFresh(edges: seq<Edge>, m: NodeMap, done: set<string>, q: string)
    requires AllPlaced(edges, m, done) && NoDuplicateChild(edges) && q !in done
    ensures forall k :: 0 <= k < |ChildrenOf(edges, q)| && ChildrenOf(edges, q)[k] in m ==>
      m[ChildrenOf(edges, q)[k]].fullPath.None?
  {
    forall k | 0 <= k < |ChildrenOf(edges, q)| && ChildrenOf(edges, q)[k] in m
      ensures m[ChildrenOf(edges, q)[k]].fullPath.None?
    {
      var c := ChildrenOf(edges, q)[k];
      ChildrenOfParent(edges, q, c);
      assert !ParentDone(edges, done, c);
    }
  }

  /** The Children lists: complete for every done node, empty for the one just dequeued. */
  lemma DequeueKidsLists(edges: seq<Edge>, link: bool, m: NodeMap, done: set<string>, p: string, q: string)
    requires Kids(edges, link, m, done, p, |ChildrenOf(edges, p)|) && q !in done
    ensures forall id :: id in m && id != q ==>
      m[id].children == if link && id in done + {q} then Present(ChildrenOf(edges, id), m.Keys) else []
    ensures q in m ==> m[q].children == if link && q in done + {q} then Present(ChildrenOf(edges, q)[..0], m.Keys) else []
  {
    var cs := ChildrenOf(edges, p);
    assert cs[..|cs|] == cs;
    assert ChildrenOf(edges, q)[..0] == [];
  }

  lemma DequeueKids(init: NodeMap, edges: seq<Edge>, link: bool, m: NodeMap, queue: seq<Visit>,
                    done: set<string>, seeded: set<string>, p: string)
    requires Frontier(init, edges, link, m, queue, done, seeded, p, |ChildrenOf(edges, p)|) && queue != []
    ensures Kids(edges, link, m, done + {queue[0].0}, queue[0].0, 0)
  {
    var q := queue[0].0;
    assert q !in done;
    DequeueKidsReached(edges, link, m, done, p, q);
    DequeueKidsFresh(edges, m, done, q);
    DequeueKidsLists(edges, link, m, done, p, q);
  }

  /** Dequeuing the next entry: its node is reached and becomes the one expanded. */
  lemma Dequeue(init: NodeMap, edges: seq<Edge>, link: bool, m: NodeMap, queue: seq<Visit>,
                done: set<string>, seeded: set<string>, p: string)
    requires Frontier(init, edges, link, m, queue, done, seeded, p, |ChildrenOf(edges, p)|) && queue != []
    ensures queue[0].0 in m && queue[0].0 !in done
    ensures Frontier(init, edges, link, m, queue[1..], done + {queue[0].0}, seeded, queue[0].0, 0)
  {
    DequeueShape(init, edges, link, m, queue, done, seeded, p);
    DequeueReach(init, edges, m, queue, done, seeded);
    DequeueKids(init, edges, link, m, queue, done, seeded, p);
  }

  lemma SkipChildKids(edges: seq<Edge>, link: bool, m: NodeMap, done: set<string>, p: string, j: nat)
    requires j < |ChildrenOf(edges, p)| && Kids(edges, link, m, done, p, j) && ChildrenOf(edges, p)[j] !in m
    ensures Kids(edges, link, m, done, p, j + 1)
  {
    var cs := ChildrenOf(edges, p);
    assert cs[..j + 1] == cs[..j] + [cs[j]];
    assert Present(cs[..j + 1], m.Keys) == Present(cs[..j], m.Keys);
  }

  /** A child that is not in the dictionary is passed over. */
  lemma SkipChild(init: NodeMap, edges: seq<Edge>, link: bool, m: NodeMap, queue: seq<Visit>,
                  done: set<string>, seeded: set<string>, p: string, j: nat)
    requires Frontier(init, edges, link, m, queue, done, seeded, p, j)
    requires j < |ChildrenOf(edges, p)| && ChildrenOf(edges, p)[j] !in m
    ensures Frontier(init, edges, link, m, queue, done, seeded, p, j + 1)
  {
    SkipChildKids(edges, link, m, done, p, j);
  }

  /** The child given its level and path. */
  function Reached(m: NodeMap, c: string, level: nat, path: string): NodeMap
    requires c in m
  {
    m[c := m[c].(level := level + 1, fullPath := Some(path + "/" + m[c].name))]
  }

  /** The child appended to the parent's Children list, when the converter keeps one. */
  function Linked(m: NodeMap, p: string, c: string, link: bool): NodeMap
    requires p in m
  {
    if link then m[p := m[p].(children := m[p].children + [c])] else m
  }

  /** What is known of the child being expanded: it has not been reached and its parent is `p`. */
  ghost predicate Fresh(init: NodeMap, edges: seq<Edge>, m: NodeMap, queue: seq<Visit>,
                        done: set<string>, p: string, c: string)
  {
    && p in m && c in m && c in init && p in done
    && m[c].fullPath.None? && c !in done && c !in Ids(queue) && c != p
    && m[c] == init[c] && ParentOf(edges, c) == Some(p)
  }

  lemma ChildFacts(init: NodeMap, edges: seq<Edge>, link: bool, m: NodeMap, queue: seq<Visit>,
                   done: set<string>, seeded: set<string>, p: string, j: nat)
    requires Frontier(init, edges, link, m, queue, done, seeded, p, j)
    requires p in done && j < |ChildrenOf(edges, p)| && ChildrenOf(edges, p)[j] in m
    ensures Fresh(init, edges, m, queue, done, p, ChildrenOf(edges, p)[j])
  {
    ChildrenOfParent(edges, p, ChildrenOf(edges, p)[j]);
  }

  /** Each queue entry records the level and path of its node. */
  ghost predicate QueueRecorded(m: NodeMap, queue: seq<Visit>, done: set<string>) {
    forall i :: 0 <= i < |queue| ==>
      && queue[i].0 in m && queue[i].0 !in done
      && m[queue[i].0].level == queue[i].1 && m[queue[i].0].fullPath == Some(queue[i].2)
  }

  /** Queuing a node just given its level and path, while no queued node changes. */
  lemma QueueRecordedSnoc(m: NodeMap, m': NodeMap, queue: seq<Visit>, done: set<string>, v: Visit)
    requires QueueRecorded(m, queue, done) && Distinct(Ids(queue)) && v.0 !in Ids(queue)
    requires v.0 in m' && v.0 !in done && m'[v.0].level == v.1 && m'[v.0].fullPath == Some(v.2)
    requires forall x :: x in m && x != v.0 ==> x in m' && m'[x].level == m[x].level && m'[x].fullPath == m[x].fullPath
    ensures QueueRecorded(m', queue + [v], done) && Distinct(Ids(queue + [v]))
  {
    var queue' := queue + [v];
    assert Ids(queue') == Ids(queue) + [v.0];
    forall i | 0 <= i < |queue|
      ensures queue[i].0 != v.0
    {
      assert Ids(queue)[i] == queue[i].0;
    }
  }

  lemma ReachChildShape(init: NodeMap, edges: seq<Edge>, link: bool, m: NodeMap, queue: seq<Visit>,
                        done: set<string>, p: string, j: nat, level: nat, path: string)
    requires Shape(init, edges, m, queue, done, p, j) && j < |ChildrenOf(edges, p)|
    requires Fresh(init, edges, m, queue, done, p, ChildrenOf(edges, p)[j])
    ensures var c := ChildrenOf(edges, p)[j];
      Shape(init, edges, Linked(Reached(m, c, level, path), p, c, link),
            queue + [(c, level + 1, path + "/" + m[c].name)], done, p, j + 1)
  {
    var c := ChildrenOf(edges, p)[j];
    var m' := Linked(Reached(m, c, level, path), p, c, link);
    ReachedFrame(m, p, c, link, level, path);
    assert QueueRecorded(m, queue, done);
    QueueRecordedSnoc(m, m', queue, done, (c, level + 1, path + "/" + m[c].name));
    assert SameNodes(init, m');
  }

  /** Reaching `c` and linking it below `p` changes no other node's level or path, nor any node but the two. */
  lemma ReachedFrame(m: NodeMap, p: string, c: string, link: bool, level: nat, path: string)
    requires p in m && c in m && c != p
    ensures var m' := Linked(Reached(m, c, level, path), p, c, link);
      && m'.Keys == m.Keys
      && m'[c].level == level + 1 && m'[c].fullPath == Some(path + "/" + m[c].name)
      && m'[c].name == m[c].name && m'[c].children == m[c].children
      && m'[p].children == (if link then m[p].children + [c] else m[p].children)
      && (forall x :: x in m && x != c ==> m'[x].level == m[x].level && m'[x].fullPath == m[x].fullPath)
      && (forall x :: x in m && x != c && x != p ==> m'[x] == m[x])
  {
  }

  lemma PlacedKept(edges: seq<Edge>, m: NodeMap, m': NodeMap, x: string)
    requires x in m && x in m' && m.Keys == m'.Keys && Placed(edges, m, x)
    requires m'[x].level == m[x].level && m'[x].fullPath == m[x].fullPath && m'[x].name == m[x].name
    requires ParentOf(edges, x).Some? ==>
      var q := ParentOf(edges, x).value; q in m ==> m'[q].level == m[q].level && m'[q].fullPath == m[q].fullPath
    ensures Placed(edges, m', x)
  {
  }

  /** The reached nodes stay placed when the fresh child `c` is placed below `p`. */
  lemma ReachChildPlaced(init: NodeMap, edges: seq<Edge>, link: bool, m: NodeMap, queue: seq<Visit>,
                         done: set<string>, p: string, c: string, level: nat, path: string)
    requires AllPlaced(edges, m, done)
    requires Fresh(init, edges, m, queue, done, p, c)
    requires m[p].level == level && m[p].fullPath == Some(path)
    ensures AllPlaced(edges, Linked(Reached(m, c, level, path), p, c, link), done)
  {
    var m' := Linked(Reached(m, c, level, path), p, c, link);
    ReachedFrame(m, p, c, link, level, path);
    assert m'[p].name == m[p].name;
    forall x | x in m' && m'[x].fullPath.Some? ensures Placed(edges, m', x) && ParentDone(edges, done, x) {
      if x != c {
        PlacedKept(edges, m, m', x);
      }
    }
  }

  lemma ReachChildExactly(init: NodeMap, edges: seq<Edge>, link: bool, m: NodeMap, queue: seq<Visit>,
                          done: set<string>, p: string, c: string, level: nat, path: string)
    requires ReachedExactly(m, queue, done)
    requires Fresh(init, edges, m, queue, done, p, c)
    ensures ReachedExactly(Linked(Reached(m, c, level, path), p, c, link), queue + [(c, level + 1, path + "/" + m[c].name)], done)
  {
    assert Ids(queue + [(c, level + 1, path + "/" + m[c].name)]) == Ids(queue) + [c];
    ReachedFrame(m, p, c, link, level, path);
  }

  lemma ReachChildUntouched(init: NodeMap, edges: seq<Edge>, link: bool, m: NodeMap, queue: seq<Visit>,
                            done: set<string>, seeded: set<string>, p: string, c: string, level: nat, path: string)
    requires m.Keys == init.Keys && Untouched(init, m) && RootsSeeded(edges, m, seeded)
    requires Fresh(init, edges, m, queue, done, p, c) && m[p].fullPath.Some?
    ensures var m' := Linked(Reached(m, c, level, path), p, c, link);
      m'.Keys == init.Keys && Untouched(init, m') && RootsSeeded(edges, m', seeded)
  {
    ReachedFrame(m, p, c, link, level, path);
  }

  lemma ReachChildReach(init: NodeMap, edges: seq<Edge>, link: bool, m: NodeMap, queue: seq<Visit>,
                        done: set<string>, seeded: set<string>, p: string, c: string, level: nat, path: string)
    requires m.Keys == init.Keys && Reach(init, edges, m, queue, done, seeded)
    requires Fresh(init, edges, m, queue, done, p, c)
    requires m[p].level == level && m[p].fullPath == Some(path)
    ensures var m' := Linked(Reached(m, c, level, path), p, c, link);
      m'.Keys == init.Keys && Reach(init, edges, m', queue + [(c, level + 1, path + "/" + m[c].name)], done, seeded)
  {
    ReachChildExactly(init, edges, link, m, queue, done, p, c, level, path);
    ReachChildPlaced(init, edges, link, m, queue, done, p, c, level, path);
    ReachChildUntouched(init, edges, link, m, queue, done, seeded, p, c, level, path);
  }

  lemma ReachChildKidsReached(edges: seq<Edge>, link: bool, m: NodeMap, done: set<string>,
                              p: string, j: nat, level: nat, path: string)
    requires j < |ChildrenOf(edges, p)| && Kids(edges, link, m, done, p, j) && NoDuplicateChild(edges)
    requires p in m && ChildrenOf(edges, p)[j] in m && ChildrenOf(edges, p)[j] != p
    ensures var cs := ChildrenOf(edges, p); var c := cs[j];
      var m' := Linked(Reached(m, c, level, path), p, c, link);
      && (forall q, c' :: q in done && q != p && c' in ChildrenOf(edges, q) && c' in m' ==> m'[c'].fullPath.Some?)
      && (forall k :: 0 <= k < j + 1 && p in done && cs[k] in m' ==> m'[cs[k]].fullPath.Some?)
      && (forall k :: j + 1 <= k < |cs| && cs[k] in m' ==> m'[cs[k]].fullPath.None?)
  {
    var cs := ChildrenOf(edges, p);
    var c := cs[j];
    ReachedFrame(m, p, c, link, level, path);
    ChildrenOfDistinct(edges, p);
    var m' := Linked(Reached(m, c, level, path), p, c, link);
    forall k | j + 1 <= k < |cs| && cs[k] in m' ensures m'[cs[k]].fullPath.None? {
      assert cs[k] != c;
    }
    forall k | 0 <= k < j && p in done && cs[k] in m' ensures m'[cs[k]].fullPath.Some? {
      assert cs[k] != c;
    }
  }

  lemma ReachChildKidsLists(edges: seq<Edge>, link: bool, m: NodeMap, done: set<string>,
                            p: string, j: nat, level: nat, path: string)
    requires j < |ChildrenOf(edges, p)| && Kids(edges, link, m, done, p, j)
    requires p in m && p in done && ChildrenOf(edges, p)[j] in m && ChildrenOf(edges, p)[j] != p
    requires ChildrenOf(edges, p)[j] !in done
    ensures var cs := ChildrenOf(edges, p); var c := cs[j];
      var m' := Linked(Reached(m, c, level, path), p, c, link);
      && (forall id :: id in m' && id != p ==>
            m'[id].children == if link && id in done then Present(ChildrenOf(edges, id), m'.Keys) else [])
      && m'[p].children == (if link then Present(cs[..j + 1], m'.Keys) else [])
  {
    var cs := ChildrenOf(edges, p);
    var c := cs[j];
    ReachedFrame(m, p, c, link, level, path);
    assert cs[..j + 1] == cs[..j] + [c];
    assert Present(cs[..j + 1], m.Keys) == Present(cs[..j], m.Keys) + [c];
  }

  lemma ReachChildKids(init: NodeMap, edges: seq<Edge>, link: bool, m: NodeMap, queue: seq<Visit>,
                       done: set<string>, p: string, j: nat, level: nat, path: string)
    requires j < |ChildrenOf(edges, p)| && Kids(edges, link, m, done, p, j) && NoDuplicateChild(edges)
    requires Fresh(init, edges, m, queue, done, p, ChildrenOf(edges, p)[j])
    ensures var c := ChildrenOf(edges, p)[j];
      Kids(edges, link, Linked(Reached(m, c, level, path), p, c, link), done, p, j + 1)
  {
    ReachChildKidsReached(edges, link, m, done, p, j, level, path);
    ReachChildKidsLists(edges, link, m, done, p, j, level, path);
  }

  /** Expanding a child that is in the dictionary: it is reached, linked and queued. */
  lemma ReachChild(init: NodeMap, edges: seq<Edge>, link: bool, m: NodeMap, queue: seq<Visit>,
                   done: set<string>, seeded: set<string>, p: string, j: nat, level: nat, path: string)
    requires Frontier(init, edges, link, m, queue, done, seeded, p, j)
    requires p in done && j < |ChildrenOf(edges, p)| && ChildrenOf(edges, p)[j] in m
    requires m[p].level == level && m[p].fullPath == Some(path)
    ensures var c := ChildrenOf(edges, p)[j];
      Frontier(init, edges, link, Linked(Reached(m, c, level, path), p, c, link),
               queue + [(c, level + 1, path + "/" + m[c].name)], done, seeded, p, j + 1)
  {
    ChildFacts(init, edges, link, m, queue, done, seeded, p, j);
    ReachChildShape(init, edges, link, m, queue, done, p, j, level, path);
    ReachChildReach(init, edges, link, m, queue, done, seeded, p, ChildrenOf(edges, p)[j], level, path);
    ReachChildKids(init, edges, link, m, queue, done, p, j, level, path);
  }

  lemma FinishedUnreachable(init: NodeMap, edges: seq<Edge>, link: bool, m: NodeMap, done: set<string>, p: string)
    requires Frontier(init, edges, link, m, [], done, init.Keys, p, |ChildrenOf(edges, p)|)
    ensures forall id :: id in m && m[id].fullPath.None? ==> Unreachable(edges, m, id)
  {
    var cs := ChildrenOf(edges, p);
    forall id | id in m && m[id].fullPath.None? ensures Unreachable(edges, m, id) {
      match ParentOf(edges, id)
      case None =>
      case Some(q) =>
        ChildrenOfParent(edges, q, id);
        if q == p && id in cs {
          var k :| 0 <= k < |cs| && cs[k] == id;
        }
    }
  }

  lemma FinishedChildren(init: NodeMap, edges: seq<Edge>, link: bool, m: NodeMap, done: set<string>, p: string)
    requires Frontier(init, edges, link, m, [], done, init.Keys, p, |ChildrenOf(edges, p)|)
    ensures forall id :: id in m ==>
      m[id].children == (if link && m[id].fullPath.Some? then Present(ChildrenOf(edges, id), m.Keys) else [])
  {
    var cs := ChildrenOf(edges, p);
    assert cs[..|cs|] == cs;
  }

  /** An empty queue after every root was seeded is a resolved dictionary. */
  lemma Finished(init: NodeMap, edges: seq<Edge>, link: bool, m: NodeMap, done: set<string>, p: string)
    requires Unresolved(init)
    requires Frontier(init, edges, link, m, [], done, init.Keys, p, |ChildrenOf(edges, p)|)
    ensures Resolved(init, edges, m, link)
  {
    FinishedUnreachable(init, edges, link, m, done, p);
    FinishedChildren(init, edges, link, m, done, p);
    forall id | id in m ensures m[id].fullPath.None? ==> m[id].level == 0 {
      if m[id].fullPath.None? {
        assert m[id] == init[id];
      }
    }
  }

  // ---------------------------------------------------------------------
  // The resolution itself.

  /** The bookkeeping of the root loop after `i` ids of the dictionary: which are seeded, and that only those are queued. */
  ghost predicate Seeding(order: seq<string>, queue: seq<Visit>, seeded: set<string>, i: nat) {
    && i <= |order|
    && (forall x :: x in seeded <==> x in order[..i])
    && (forall x :: x in Ids(queue) ==> x in seeded)
  }

  lemma SeedStep(order: seq<string>, queue: seq<Visit>, seeded: set<string>, i: nat, root: bool, name: string)
    requires Distinct(order) && i < |order| && Seeding(order, queue, seeded, i)
    ensures order[i] !in Ids(queue)
    ensures var queue' := if root then queue + [(order[i], 0, name)] else queue;
      Seeding(order, queue', seeded + {order[i]}, i + 1)
  {
    assert order[..i + 1] == order[..i] + [order[i]];
    if root {
      assert Ids(queue + [(order[i], 0, name)]) == Ids(queue) + [order[i]];
    }
  }

  /** The root loop: every id that is no relationship's child is queued at level 0 with its name as path. */
  method EnqueueRoots(table: NodeTable, edges: seq<Edge>, link: bool, childParentMap: map<string, string>)
      returns (m: NodeMap, queue: seq<Visit>)
    requires ValidTable(table) && Unresolved(table.nodes) && NoDuplicateChild(edges)
    requires forall c :: c in childParentMap <==> ParentOf(edges, c).Some?
    ensures Frontier(table.nodes, edges, link, m, queue, {}, table.nodes.Keys, "", |ChildrenOf(edges, "")|)
  {
    ghost var init := table.nodes;
    ghost var j := |ChildrenOf(edges, "")|;
    m := table.nodes;
    queue := [];
    ghost var seeded: set<string> := {};
    Begin(init, edges, link);
    for i := 0 to |table.order|
      invariant Frontier(init, edges, link, m, queue, {}, seeded, "", j)
      invariant Seeding(table.order, queue, seeded, i)
    {
      var rootId := table.order[i];
      assert rootId in init;
      SeedStep(table.order, queue, seeded, i, rootId !in childParentMap, m[rootId].name);
      if rootId !in childParentMap {
        SeedRoot(init, edges, link, m, queue, seeded, "", j, rootId);
        queue := queue + [(rootId, 0, m[rootId].name)];
        m := m[rootId := m[rootId].(level := 0, fullPath := Some(m[rootId].name))];
      } else {
        SeedOther(init, edges, link, m, queue, seeded, "", j, rootId);
      }
      seeded := seeded + {rootId};
    }
    assert seeded == init.Keys by {
      assert table.order[..|table.order|] == table.order;
    }
  }

  /** The inner loop: each child of the dequeued node that is in the dictionary is placed, linked and queued. */
  method Expand(ghost init: NodeMap, edges: seq<Edge>, link: bool, m0: NodeMap, queue0: seq<Visit>,
                ghost done: set<string>, nodeId: string, level: nat, path: string)
      returns (m: NodeMap, queue: seq<Visit>)
    requires Frontier(init, edges, link, m0, queue0, done, init.Keys, nodeId, 0)
    requires nodeId in done && nodeId in m0 && m0[nodeId].level == level && m0[nodeId].fullPath == Some(path)
    ensures Frontier(init, edges, link, m, queue, done, init.Keys, nodeId, |ChildrenOf(edges, nodeId)|)
  {
    m, queue := m0, queue0;
    var children := ChildrenOf(edges, nodeId);
    for j := 0 to |children|
      invariant Frontier(init, edges, link, m, queue, done, init.Keys, nodeId, j)
      invariant nodeId in m && m[nodeId].level == level && m[nodeId].fullPath == Some(path)
    {
      var childId := children[j];
      if childId in m {
        ReachChild(init, edges, link, m, queue, done, init.Keys, nodeId, j, level, path);
        ChildFacts(init, edges, link, m, queue, done, init.Keys, nodeId, j);
        ReachedFrame(m, nodeId, childId, link, level, path);
        var childPath := path + "/" + m[childId].name;
        queue := queue + [(childId, level + 1, childPath)];
        m := Linked(Reached(m, childId, level, path), nodeId, childId, link);
      } else {
        SkipChild(init, edges, link, m, queue, done, init.Keys, nodeId, j);
      }
    }
  }

  /**
   * CalculateNodeLevelsAndPaths (`link` false) and BuildHierarchy (`link`
   * true) on the dictionary `table`: the exception ToDictionary raises on a
   * child named twice, or the resolved dictionary.
   */
  method Resolve(table: NodeTable, edges: seq<Edge>, link: bool) returns (r: Result<NodeMap, Fault>)
    requires ValidTable(table) && Unresolved(table.nodes)
    ensures r.Failure? <==> !NoDuplicateChild(edges)
    ensures r.Failure? ==> ChildParentMap(edges) == Failure(r.error)
    ensures r.Success? ==> Resolved(table.nodes, edges, r.value, link)
  {
    var childParent := ChildParentMap(edges);
    if childParent.Failure? {
      return Failure(childParent.error);
    }
    var m, queue := EnqueueRoots(table, edges, link, childParent.value);
    ghost var init := table.nodes;
    ghost var done: set<string> := {};
    ghost var current := "";
    while queue != []
      invariant Frontier(init, edges, link, m, queue, done, init.Keys, current, |ChildrenOf(edges, current)|)
      decreases init.Keys - done
    {
      var (nodeId, level, path) := queue[0];
      Dequeue(init, edges, link, m, queue, done, init.Keys, current);
      queue := queue[1..];
      done, current := done + {nodeId}, nodeId;
      m, queue := Expand(init, edges, link, m, queue, done, nodeId, level, path);
    }
    Finished(init, edges, link, m, done, current);
    r := Success(m);
  }
}
