/** `ConstructPath`: depth-first flattening of the tree into one path per
    leaf, written into a pre-sized slice at a shared, advancing index.
 */
module Paths {
  import opened Results
  import opened Bytes
  import opened Namespace

  /** A path is the byte string Go builds with `string(...)` concatenation. */
  type Path = seq<byte>

  const SLASH: byte := 0x2F

  /** `constructedPath + "/" + string(node.Name)`. */
  function Extend(prefix: Path, t: Tree): Path
  {
    prefix + [SLASH] + t.node.name
  }

  /** `ConstructPath(prefix, t, &paths, &index)`: a leaf writes its path at
      `paths[index]` (panicking past the end) and advances the index; any
      other node passes its extended prefix to each child in order.  The
      node type plays no part, so an empty directory is a leaf. */
  function ConstructPath(prefix: Path, t: Tree, paths: seq<Path>, index: nat): (r: Result<(seq<Path>, nat)>)
    ensures r.Ok? ==> |r.value.0| == |paths|
    ensures r.Err? ==> r.error == IndexOutOfRange
    decreases t
  {
    if t.children == [] then
      if index < |paths| then Ok((paths[index := Extend(prefix, t)], index + 1))
      else Err(IndexOutOfRange)
    else ConstructAll(Extend(prefix, t), t.children, paths, index)
  }

  /** `for _, child := range children { ConstructPath(prefix, child, ...) }`
      with the slice and the index shared by every call. */
  function ConstructAll(prefix: Path, ts: seq<Tree>, paths: seq<Path>, index: nat): (r: Result<(seq<Path>, nat)>)
    ensures r.Ok? ==> |r.value.0| == |paths|
    ensures r.Err? ==> r.error == IndexOutOfRange
    decreases ts
  {
    if ts == [] then Ok((paths, index))
    else
      var (paths', index') :- ConstructPath(prefix, ts[0], paths, index);
      ConstructAll(prefix, ts[1..], paths', index')
  }

  // ---------------------------------------------------------------------
  // Reference: the leaf paths in depth-first, left-to-right order.

  function LeafPaths(prefix: Path, t: Tree): (ps: seq<Path>)
    ensures |ps| == Leaves(t)
    decreases t
  {
    if t.children == [] then [Extend(prefix, t)]
    else LeafPathsAll(Extend(prefix, t), t.children)
  }

  function LeafPathsAll(prefix: Path, ts: seq<Tree>): (ps: seq<Path>)
    ensures |ps| == LeavesAll(ts)
    decreases ts
  {
    if ts == [] then [] else LeafPaths(prefix, ts[0]) + LeafPathsAll(prefix, ts[1..])
  }

  /** One path per leaf, each starting with the prefix and a slash. */
  lemma {:induction false} LeafPathsShape(prefix: Path, t: Tree)
    ensures forall i :: 0 <= i < |LeafPaths(prefix, t)| ==>
              |LeafPaths(prefix, t)[i]| > |prefix| && LeafPaths(prefix, t)[i][..|prefix| + 1] == prefix + [SLASH]
    decreases t
  {
    if t.children != [] {
      LeafPathsAllShape(Extend(prefix, t), t.children);
      var e := Extend(prefix, t);
      forall i | 0 <= i < |LeafPaths(prefix, t)|
        ensures |LeafPaths(prefix, t)[i]| > |prefix| && LeafPaths(prefix, t)[i][..|prefix| + 1] == prefix + [SLASH]
      {
        var p := LeafPaths(prefix, t)[i];
        assert p[..|e| + 1] == e + [SLASH];
        assert p[..|prefix| + 1] == (e + [SLASH])[..|prefix| + 1];
      }
    }
  }

  lemma {:induction false} LeafPathsAllShape(prefix: Path, ts: seq<Tree>)
    ensures forall i :: 0 <= i < |LeafPathsAll(prefix, ts)| ==>
              |LeafPathsAll(prefix, ts)[i]| > |prefix| && LeafPathsAll(prefix, ts)[i][..|prefix| + 1] == prefix + [SLASH]
    decreases ts
  {
    if ts != [] {
      LeafPathsShape(prefix, ts[0]);
      LeafPathsAllShape(prefix, ts[1..]);
      var a := LeafPaths(prefix, ts[0]);
      var b := LeafPathsAll(prefix, ts[1..]);
      forall i | 0 <= i < |a + b|
        ensures |(a + b)[i]| > |prefix| && (a + b)[i][..|prefix| + 1] == prefix + [SLASH]
      {
        if i >= |a| {
          assert (a + b)[i] == b[i - |a|];
        }
      }
    }
  }

  /** `paths` with the slots from `index` on overwritten by `written`. */
  function Splice(paths: seq<Path>, index: nat, written: seq<Path>): (s: seq<Path>)
    requires index + |written| <= |paths|
    ensures |s| == |paths|
  {
    paths[..index] + written + paths[index + |written|..]
  }

  /** The shared-index walk writes the reference leaf paths into
      consecutive slots from `index`, leaves every other slot alone and
      moves the index on by the number of leaves; with too few slots left it
      panics. */
  lemma {:induction false} ConstructPathSpec(prefix: Path, t: Tree, paths: seq<Path>, index: nat)
    ensures index + Leaves(t) <= |paths| ==>
              ConstructPath(prefix, t, paths, index)
                == Ok((Splice(paths, index, LeafPaths(prefix, t)), index + Leaves(t)))
    ensures index + Leaves(t) > |paths| ==> ConstructPath(prefix, t, paths, index) == Err(IndexOutOfRange)
    decreases t
  {
    LeafPathsShape(prefix, t);
    if t.children == [] {
      if index < |paths| {
        assert paths[index := Extend(prefix, t)] == Splice(paths, index, [Extend(prefix, t)]);
      }
    } else {
      ConstructAllSpec(Extend(prefix, t), t.children, paths, index);
    }
  }

  lemma SpliceTwice(paths: seq<Path>, index: nat, a: seq<Path>, b: seq<Path>)
    requires index + |a| + |b| <= |paths|
    ensures Splice(Splice(paths, index, a), index + |a|, b) == Splice(paths, index, a + b)
  {
  }

  lemma {:induction false} ConstructAllSpec(prefix: Path, ts: seq<Tree>, paths: seq<Path>, index: nat)
    ensures index + LeavesAll(ts) <= |paths| ==>
              ConstructAll(prefix, ts, paths, index)
                == Ok((Splice(paths, index, LeafPathsAll(prefix, ts)), index + LeavesAll(ts)))
    ensures ts != [] && index + LeavesAll(ts) > |paths| ==>
              ConstructAll(prefix, ts, paths, index) == Err(IndexOutOfRange)
    decreases ts
  {
    if ts == [] {
      if index <= |paths| {
        assert Splice(paths, index, []) == paths;
      }
    } else {
      var n0 := Leaves(ts[0]);
      ConstructPathSpec(prefix, ts[0], paths, index);
      if index + n0 <= |paths| {
        var a := LeafPaths(prefix, ts[0]);
        var b := LeafPathsAll(prefix, ts[1..]);
        var p1 := Splice(paths, index, a);
        assert ConstructAll(prefix, ts, paths, index) == ConstructAll(prefix, ts[1..], p1, index + n0);
        ConstructAllSpec(prefix, ts[1..], p1, index + n0);
        if index + LeavesAll(ts) <= |paths| {
          SpliceTwice(paths, index, a, b);
        }
      }
    }
  }
}
