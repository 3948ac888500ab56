/** The namespace tree: `FindChildren`, which resolves the parent ->
    children map and the id -> INode table into an explicit tree, the node
    count the driver sizes its output with, and `MinINodeID`.
 */
module Namespace {
  import opened Results
  import opened Bytes
  import opened Inodes
  import opened Directories

  /** `ROOT_INODE_ID`: the id of the filesystem root. */
  const ROOT_INODE_ID: u64 := 16385

  /** `INodeTree`: a node and its exclusively owned subtrees, in order. */
  datatype Tree = Tree(node: INode, children: seq<Tree>)

  /** `inodeNames[id]`, which is the zero `INode` for an id with no record. */
  function LookupINode(nodes: map<u64, INode>, id: u64): (n: INode)
    ensures id in nodes ==> n == nodes[id]
    ensures id !in nodes ==> n == ZeroINode
  {
    if id in nodes then nodes[id] else ZeroINode
  }

  /** The listed children of `id`; no entry and an empty entry both mean
      none. */
  function ChildIds(adj: Adjacency, id: u64): (ids: seq<u64>)
    ensures id in adj ==> ids == adj[id]
    ensures id !in adj ==> ids == []
  {
    if id in adj then adj[id] else []
  }

  // ---------------------------------------------------------------------
  // Reference shape of a tree.

  function Size(t: Tree): nat
    decreases t
  {
    1 + SizeAll(t.children)
  }

  function SizeAll(ts: seq<Tree>): nat
    decreases ts
  {
    if ts == [] then 0 else Size(ts[0]) + SizeAll(ts[1..])
  }

  /** Number of nodes without children. */
  function Leaves(t: Tree): (n: nat)
    ensures n >= 1
    decreases t
  {
    if t.children == [] then 1 else LeavesAll(t.children)
  }

  function LeavesAll(ts: seq<Tree>): (n: nat)
    ensures ts != [] ==> n >= 1
    decreases ts
  {
    if ts == [] then 0 else Leaves(ts[0]) + LeavesAll(ts[1..])
  }

  /** Longest downward path: 0 for a leaf. */
  function Height(t: Tree): nat
    decreases t
  {
    if t.children == [] then 0 else 1 + HeightAll(t.children)
  }

  function HeightAll(ts: seq<Tree>): nat
    decreases ts
  {
    if ts == [] then 0
    else
      var h := Height(ts[0]);
      var rest := HeightAll(ts[1..]);
      if h < rest then rest else h
  }

  /** `t` is the tree of `id` under the maps: its payload is the id's
      INode (or the zero one), and its children, in order, are the trees of
      the listed child ids. */
  ghost predicate Conforms(adj: Adjacency, nodes: map<u64, INode>, id: u64, t: Tree)
    decreases t
  {
    && t.node == LookupINode(nodes, id)
    && |t.children| == |ChildIds(adj, id)|
    && forall i :: 0 <= i < |t.children| ==> Conforms(adj, nodes, ChildIds(adj, id)[i], t.children[i])
  }

  // ---------------------------------------------------------------------
  // The builder.

  /** `FindChildren(parChildrenMap, inodeNames, id)`.  Go recurses without
      a bound and overflows its stack on a cycle; here each level of
      children costs one unit of `fuel` and running out is an error. */
  function FindChildren(adj: Adjacency, nodes: map<u64, INode>, id: u64, fuel: nat): (r: Result<Tree>)
    ensures r.Ok? ==> r.value.node == LookupINode(nodes, id)
    ensures r.Ok? ==> |r.value.children| == |ChildIds(adj, id)|
    ensures r.Ok? ==> (r.value.children == [] <==> id !in adj || adj[id] == [])
    ensures ChildIds(adj, id) == [] ==> r.Ok?
    ensures r.Err? ==> r.error == DepthExceeded
    decreases fuel, 0, 0
  {
    var kids := ChildIds(adj, id);
    if |kids| == 0 then Ok(Tree(LookupINode(nodes, id), []))
    else if fuel == 0 then Err(DepthExceeded)
    else
      var ts :- FindAll(adj, nodes, kids, fuel - 1);
      Ok(Tree(LookupINode(nodes, id), ts))
  }

  /** The loop `refs[i] = FindChildren(..., child)` over a child list. */
  function FindAll(adj: Adjacency, nodes: map<u64, INode>, ids: seq<u64>, fuel: nat): (r: Result<seq<Tree>>)
    ensures r.Ok? ==> |r.value| == |ids|
    ensures r.Err? ==> r.error == DepthExceeded
    decreases fuel, 1, |ids|
  {
    if ids == [] then Ok([])
    else
      var t :- FindChildren(adj, nodes, ids[0], fuel);
      var ts :- FindAll(adj, nodes, ids[1..], fuel);
      Ok([t] + ts)
  }

  lemma {:induction false} HeightAllBound(ts: seq<Tree>, h: nat)
    requires forall i :: 0 <= i < |ts| ==> Height(ts[i]) <= h
    ensures HeightAll(ts) <= h
    decreases ts
  {
    if ts != [] {
      HeightAllBound(ts[1..], h);
    }
  }

  lemma {:induction false} HeightAllAbove(ts: seq<Tree>, i: nat)
    requires i < |ts|
    ensures Height(ts[i]) <= HeightAll(ts)
    decreases ts
  {
    if i > 0 {
      HeightAllAbove(ts[1..], i - 1);
    }
  }

  /** What the builder returns is the tree of `id`, no taller than its fuel. */
  lemma {:induction false} FindChildrenSound(adj: Adjacency, nodes: map<u64, INode>, id: u64, fuel: nat)
    requires FindChildren(adj, nodes, id, fuel).Ok?
    ensures Conforms(adj, nodes, id, FindChildren(adj, nodes, id, fuel).value)
    ensures Height(FindChildren(adj, nodes, id, fuel).value) <= fuel
    decreases fuel, 0, 0
  {
    var kids := ChildIds(adj, id);
    if |kids| > 0 {
      FindAllSound(adj, nodes, kids, fuel - 1);
      var t := FindChildren(adj, nodes, id, fuel).value;
      assert t.children == FindAll(adj, nodes, kids, fuel - 1).value;
      HeightAllBound(t.children, fuel - 1);
    }
  }

  lemma {:induction false} FindAllSound(adj: Adjacency, nodes: map<u64, INode>, ids: seq<u64>, fuel: nat)
    requires FindAll(adj, nodes, ids, fuel).Ok?
    ensures forall i :: 0 <= i < |ids| ==>
              Conforms(adj, nodes, ids[i], FindAll(adj, nodes, ids, fuel).value[i])
              && Height(FindAll(adj, nodes, ids, fuel).value[i]) <= fuel
    decreases fuel, 1, |ids|
  {
    if ids != [] {
      FindChildrenSound(adj, nodes, ids[0], fuel);
      FindAllSound(adj, nodes, ids[1..], fuel);
      var ts := FindAll(adj, nodes, ids, fuel).value;
      assert ts == [FindChildren(adj, nodes, ids[0], fuel).value] + FindAll(adj, nodes, ids[1..], fuel).value;
      forall i | 1 <= i < |ids|
        ensures Conforms(adj, nodes, ids[i], ts[i]) && Height(ts[i]) <= fuel
      {
        assert ids[i] == ids[1..][i - 1];
      }
    }
  }

  /** Conversely, the tree of `id` is found whenever the fuel covers its
      height. */
  lemma {:induction false} FindChildrenComplete(adj: Adjacency, nodes: map<u64, INode>, id: u64, t: Tree, fuel: nat)
    requires Conforms(adj, nodes, id, t) && Height(t) <= fuel
    ensures FindChildren(adj, nodes, id, fuel) == Ok(t)
    decreases t
  {
    var kids := ChildIds(adj, id);
    if |kids| > 0 {
      forall i | 0 <= i < |t.children| ensures Height(t.children[i]) <= fuel - 1 {
        HeightAllAbove(t.children, i);
      }
      FindAllComplete(adj, nodes, kids, t.children, fuel - 1);
    }
  }

  lemma {:induction false} FindAllComplete(adj: Adjacency, nodes: map<u64, INode>, ids: seq<u64>, ts: seq<Tree>, fuel: nat)
    requires |ids| == |ts|
    requires forall i :: 0 <= i < |ids| ==> Conforms(adj, nodes, ids[i], ts[i]) && Height(ts[i]) <= fuel
    ensures FindAll(adj, nodes, ids, fuel) == Ok(ts)
    decreases ts
  {
    if ids != [] {
      FindChildrenComplete(adj, nodes, ids[0], ts[0], fuel);
      FindAllComplete(adj, nodes, ids[1..], ts[1..], fuel);
      assert ts == [ts[0]] + ts[1..];
    }
  }

  // ---------------------------------------------------------------------
  // Fuel runs out only on a cycle.

  /** Consecutive ids are parent and listed child. */
  ghost predicate IsChain(adj: Adjacency, ids: seq<u64>)
  {
    forall i :: 0 <= i < |ids| - 1 ==> ids[i + 1] in ChildIds(adj, ids[i])
  }

  /** Following listed children from `id` comes back to an id already seen. */
  ghost predicate ReachesCycle(adj: Adjacency, id: u64)
  {
    exists ids: seq<u64>, i, j :: 0 <= i < j < |ids| && IsChain(adj, ids) && ids[0] == id && ids[i] == ids[j]
  }

  /** Running out of fuel exhibits a chain of `fuel + 1` ids from `id`,
      each with a non-empty child list. */
  lemma {:induction false} DepthChain(adj: Adjacency, nodes: map<u64, INode>, id: u64, fuel: nat)
    returns (ids: seq<u64>)
    requires FindChildren(adj, nodes, id, fuel).Err?
    ensures |ids| == fuel + 1 && ids[0] == id && IsChain(adj, ids)
    ensures forall i :: 0 <= i < |ids| ==> ids[i] in adj && adj[ids[i]] != []
    decreases fuel
  {
    var kids := ChildIds(adj, id);
    if fuel == 0 {
      ids := [id];
    } else {
      var k := FindAllErr(adj, nodes, kids, fuel - 1);
      var rest := DepthChain(adj, nodes, kids[k], fuel - 1);
      ids := [id] + rest;
      assert ids[1] in ChildIds(adj, ids[0]);
      forall i | 1 <= i < |ids| - 1 ensures ids[i + 1] in ChildIds(adj, ids[i]) {
        assert ids[i] == rest[i - 1] && ids[i + 1] == rest[i];
      }
    }
  }

  lemma {:induction false} FindAllErr(adj: Adjacency, nodes: map<u64, INode>, ids: seq<u64>, fuel: nat)
    returns (k: nat)
    requires FindAll(adj, nodes, ids, fuel).Err?
    ensures k < |ids| && FindChildren(adj, nodes, ids[k], fuel).Err?
    decreases |ids|
  {
    if FindChildren(adj, nodes, ids[0], fuel).Err? {
      k := 0;
    } else {
      var k' := FindAllErr(adj, nodes, ids[1..], fuel);
      k := k' + 1;
    }
  }

  /** More elements than the set they are drawn from forces a repeat. */
  lemma {:induction false} Pigeonhole(ids: seq<u64>, s: set<u64>)
    returns (i: nat, j: nat)
    requires forall k :: 0 <= k < |ids| ==> ids[k] in s
    requires |ids| > |s|
    ensures i < j < |ids| && ids[i] == ids[j]
    decreases |ids|
  {
    if ids[0] in ids[1..] {
      var m :| 0 <= m < |ids[1..]| && ids[1..][m] == ids[0];
      i, j := 0, m + 1;
    } else {
      var s' := s - {ids[0]};
      forall k | 0 <= k < |ids[1..]| ensures ids[1..][k] in s' {
        assert ids[1..][k] == ids[k + 1];
      }
      var i', j' := Pigeonhole(ids[1..], s');
      i, j := i' + 1, j' + 1;
    }
  }

  /** With one unit of fuel per adjacency entry the builder fails only
      where Go would recurse forever: on a cycle reachable from `id`. */
  lemma DepthExceededOnlyOnCycle(adj: Adjacency, nodes: map<u64, INode>, id: u64)
    requires FindChildren(adj, nodes, id, |adj|).Err?
    ensures ReachesCycle(adj, id)
  {
    var ids := DepthChain(adj, nodes, id, |adj|);
    var i, j := Pigeonhole(ids, adj.Keys);
  }

  // ---------------------------------------------------------------------
  // CountTreeNodes.

  /** `countInSubTree`: one for a leaf, else one per child plus the
      child's own count — so every node below `t` once and every leaf a
      second time. */
  function CountInSubTree(t: Tree): (n: nat)
    ensures n == Size(t) - 1 + Leaves(t)
    decreases t
  {
    if t.children == [] then 1 else CountChildren(t.children)
  }

  /** The loop `counter++; countInSubTree(c)` over a child list. */
  function CountChildren(ts: seq<Tree>): (n: nat)
    ensures n == SizeAll(ts) + LeavesAll(ts)
    decreases ts
  {
    if ts == [] then 0 else 1 + CountInSubTree(ts[0]) + CountChildren(ts[1..])
  }

  /** `CountTreeNodes`: 1 for the root plus the loop over its children.
      A childless root gives 1; otherwise every node is counted and every
      leaf once more, so the count never falls below the number of leaves
      the path loop writes. */
  function CountTreeNodes(root: Tree): (n: nat)
    ensures root.children == [] ==> n == 1
    ensures root.children != [] ==> n == Size(root) + Leaves(root)
    ensures n >= LeavesAll(root.children) && n >= Size(root)
  {
    1 + CountChildren(root.children)
  }

  // ---------------------------------------------------------------------
  // MinINodeID.

  /** `MinINodeID`: an element of the slice no greater than any other;
      `inodeIds[0]` panics on an empty slice. */
  method MinINodeID(ids: seq<u64>) returns (r: Result<u64>)
    ensures r.Ok? <==> |ids| > 0
    ensures r.Err? ==> r.error == IndexOutOfRange
    ensures r.Ok? ==> r.value in ids && forall k :: 0 <= k < |ids| ==> r.value <= ids[k]
  {
    if |ids| == 0 {
      return Err(IndexOutOfRange);
    }
    var min := ids[0];
    var i := 0;
    while i < |ids|
      invariant 0 <= i <= |ids|
      invariant min in ids
      invariant forall k :: 0 <= k < i ==> min <= ids[k]
    {
      if ids[i] < min {
        min := ids[i];
      }
      i := i + 1;
    }
    return Ok(min);
  }
}
