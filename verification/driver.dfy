/** The driver's pipeline: trailer, section directory, the "INODE" and
    "INODE_DIR" sections, the tree from the root id, the node count that
    sizes the output slice, the path walk over the root's children with one
    shared index, the count of written paths, and the ten-path sample.
 */
module Driver {
  import opened Results
  import opened Bytes
  import opened Wire
  import opened Summary
  import opened Inodes
  import opened Directories
  import opened Namespace
  import opened Paths

  const INODE_SECTION: string := "INODE"
  const INODE_DIR_SECTION: string := "INODE_DIR"

  /** How many paths the driver prints as a sample (`paths[:10]`). */
  const SAMPLE_SIZE: nat := 10

  /** `sectionMap[name]` as the parsers see it: a missing name gives a nil
      `*FileSummary_Section`, whose getters all answer zero. */
  function SectionOrNil(sections: map<string, Section>, name: string): (s: Section)
    ensures name in sections ==> s == sections[name]
    ensures name !in sections ==> s.offset == 0 && s.length == 0
  {
    if name in sections then sections[name] else NilSection
  }

  /** `make([]string, n)`: `n` empty strings. */
  function Blank(n: nat): (ps: seq<Path>)
    ensures |ps| == n && forall i :: 0 <= i < n ==> ps[i] == []
  {
    seq(n, _ => [])
  }

  /** The loop `if len(c) != 0 { p++ }` over the slice: it counts at most
      every entry, none exactly when all are blank, and all exactly when
      none is. */
  function NonEmptyCount(paths: seq<Path>): (n: nat)
    ensures n <= |paths|
    ensures n == 0 <==> forall i :: 0 <= i < |paths| ==> paths[i] == []
    ensures n == |paths| <==> forall i :: 0 <= i < |paths| ==> paths[i] != []
  {
    if paths == [] then 0
    else (if paths[0] != [] then 1 else 0) + NonEmptyCount(paths[1..])
  }

  lemma {:induction false} NonEmptyCountAppend(a: seq<Path>, b: seq<Path>)
    ensures NonEmptyCount(a + b) == NonEmptyCount(a) + NonEmptyCount(b)
    decreases |a|
  {
    if a == [] {
      assert a + b == b;
    } else {
      assert (a + b)[1..] == a[1..] + b;
      NonEmptyCountAppend(a[1..], b);
    }
  }

  /** Counts exactly the non-empty entries: all of a run of non-empty
      paths, none of a run of blanks. */
  lemma {:induction false} NonEmptyCountOf(written: seq<Path>, blanks: nat)
    requires forall i :: 0 <= i < |written| ==> written[i] != []
    ensures NonEmptyCount(written + Blank(blanks)) == |written|
    decreases |written| + blanks
  {
    NonEmptyCountAppend(written, Blank(blanks));
    if written != [] {
      assert written == [written[0]] + written[1..];
      NonEmptyCountAppend([written[0]], written[1..]);
      NonEmptyCountOf(written[1..], 0);
      assert written[1..] + Blank(0) == written[1..];
    }
    if blanks > 0 {
      assert Blank(blanks) == [[]] + Blank(blanks - 1);
      NonEmptyCountAppend([[]], Blank(blanks - 1));
      NonEmptyCountOf([], blanks - 1);
      assert [] + Blank(blanks - 1) == Blank(blanks - 1);
    } else {
      assert NonEmptyCount(Blank(0)) == 0;
    }
  }

  /** The decoded image the tree is built from. */
  datatype Image = Image(
    sections: map<string, Section>,
    nodes: map<u64, INode>,
    counts: EntityCount,
    adj: Adjacency)

  /** The command's decoding steps: `DecodeFileSummaryLength`,
      `ParseFileSummary`, then `ParseInodeSection` and
      `ParseInodeDirectorySection` on `sectionMap["INODE"]` and
      `sectionMap["INODE_DIR"]`. */
  function DecodeImage(dec: Decoders, file: seq<byte>): (r: Result<Image>)
    ensures |file| < FILE_SUM_BYTES ==> r == Err(ReadFailed)
    ensures r.Ok? ==> KeyedById(r.value.nodes) && |r.value.nodes| <= Total(r.value.counts)
    ensures r.Ok? ==> INODE_SECTION in r.value.sections
    ensures r.Ok? && INODE_DIR_SECTION !in r.value.sections ==> r.value.adj == map[]
    ensures DecodeFileSummaryLength(file).Err? ==> r == Err(DecodeFileSummaryLength(file).error)
    ensures DecodeFileSummaryLength(file).Ok? ==>
              var summary := ParseFileSummary(dec, file, DecodeFileSummaryLength(file).value);
              && (summary.Err? ==> r == Err(summary.error))
              && (summary.Ok? ==>
                    var inodes := ParseInodeSection(dec, SectionOrNil(summary.value, INODE_SECTION), file);
                    var dirs := ParseInodeDirectorySection(dec, SectionOrNil(summary.value, INODE_DIR_SECTION), file);
                    && (r.Ok? <==> inodes.Ok? && dirs.Ok?)
                    && (inodes.Err? ==> r == Err(inodes.error))
                    && (inodes.Ok? && dirs.Err? ==> r == Err(dirs.error))
                    && (r.Ok? ==> r.value == Image(summary.value, inodes.value.0, inodes.value.1, dirs.value)))
  {
    var len :- DecodeFileSummaryLength(file);
    var sections :- ParseFileSummary(dec, file, len);
    var inodes :- ParseInodeSection(dec, SectionOrNil(sections, INODE_SECTION), file);
    var adj :- ParseInodeDirectorySection(dec, SectionOrNil(sections, INODE_DIR_SECTION), file);
    Ok(Image(sections, inodes.0, inodes.1, adj))
  }

  lemma SpliceBlank(cnt: nat, ps: seq<Path>)
    ensures |ps| <= cnt ==> Splice(Blank(cnt), 0, ps) == ps + Blank(cnt - |ps|)
  {
  }

  /** `paths := make([]string, cnt)`, then `ConstructPath("",
      child, &paths, &index)` for each child of the root in order. */
  function RootPaths(root: Tree, cnt: nat): (r: Result<seq<Path>>)
    ensures cnt >= LeavesAll(root.children) ==>
              r == Ok(LeafPathsAll([], root.children) + Blank(cnt - LeavesAll(root.children)))
    ensures root.children != [] && cnt < LeavesAll(root.children) ==> r == Err(IndexOutOfRange)
  {
    ConstructAllSpec([], root.children, Blank(cnt), 0);
    SpliceBlank(cnt, LeafPathsAll([], root.children));
    var written :- ConstructAll([], root.children, Blank(cnt), 0);
    Ok(written.0)
  }

  /** What the driver prints, less the formatting. */
  datatype Report = Report(
    image: Image,
    root: Tree,
    total: nat,
    paths: seq<Path>,
    pathCount: nat)

  /** The slice sized by `CountTreeNodes` always has room: it ends up
      holding the leaf paths below the root's children, in order, then
      blanks, and the non-empty count is the number of those leaves. */
  lemma RootPathsFit(root: Tree)
    ensures RootPaths(root, CountTreeNodes(root)).Ok?
    ensures NonEmptyCount(RootPaths(root, CountTreeNodes(root)).value) == LeavesAll(root.children)
  {
    var cnt := CountTreeNodes(root);
    LeafPathsAllShape([], root.children);
    var ps := LeafPathsAll([], root.children);
    forall i | 0 <= i < |ps| ensures ps[i] != [] {
      assert |ps[i]| > 0;
    }
    NonEmptyCountOf(ps, cnt - LeavesAll(root.children));
  }

  /** A slice of `total` entries after the walk below `root`: the leaf
      paths below the root's children, in order, then blanks. */
  predicate WalkFilled(root: Tree, total: nat, paths: seq<Path>)
  {
    && LeavesAll(root.children) <= total
    && paths == LeafPathsAll([], root.children) + Blank(total - LeavesAll(root.children))
  }

  /** Such a slice has `total` entries and starts with the leaf paths. */
  lemma WalkFilledPrefix(root: Tree, total: nat, paths: seq<Path>)
    requires WalkFilled(root, total, paths)
    ensures |paths| == total
    ensures forall i :: 0 <= i < |LeafPathsAll([], root.children)| ==> paths[i] == LeafPathsAll([], root.children)[i]
  {
  }

  /** The report for a built tree: the slice sized by `CountTreeNodes`,
      filled by the walk over the root's children, and its non-empty
      count. */
  function ReportFor(image: Image, root: Tree): (rep: Report)
    ensures rep.image == image && rep.root == root
    ensures rep.total == CountTreeNodes(root)
    ensures WalkFilled(root, rep.total, rep.paths)
    ensures rep.pathCount == LeavesAll(root.children)
  {
    RootPathsFit(root);
    var cnt := CountTreeNodes(root);
    var paths := RootPaths(root, cnt).value;
    Report(image, root, cnt, paths, NonEmptyCount(paths))
  }

  /** The command's steps after decoding: build the tree from
      `ROOT_INODE_ID`, size the slice with `CountTreeNodes`, walk the
      root's children, count the non-empty entries.  The builder gets one
      unit of depth per adjacency entry, which only a cycle exhausts. */
  function Assemble(image: Image): (r: Result<Report>)
    ensures r.Ok? ==> r.value.image == image
    ensures r.Ok? ==> Conforms(image.adj, image.nodes, ROOT_INODE_ID, r.value.root)
    ensures r.Ok? ==> r.value.total == CountTreeNodes(r.value.root)
    ensures r.Ok? ==> WalkFilled(r.value.root, r.value.total, r.value.paths)
    ensures r.Ok? ==> r.value.pathCount == LeavesAll(r.value.root.children)
    ensures r.Err? ==> r.error == DepthExceeded && ReachesCycle(image.adj, ROOT_INODE_ID)
  {
    var found := FindChildren(image.adj, image.nodes, ROOT_INODE_ID, |image.adj|);
    if found.Err? then
      DepthExceededOnlyOnCycle(image.adj, image.nodes, ROOT_INODE_ID);
      Err(found.error)
    else
      FindChildrenSound(image.adj, image.nodes, ROOT_INODE_ID, |image.adj|);
      Ok(ReportFor(image, found.value))
  }

  /** Everything the command does before printing the sample: decode the
      image, then assemble the paths. */
  function BuildPaths(dec: Decoders, file: seq<byte>): (r: Result<Report>)
    ensures r.Ok? ==> DecodeImage(dec, file) == Ok(r.value.image)
    ensures DecodeImage(dec, file).Err? ==> r == Err(DecodeImage(dec, file).error)
    ensures DecodeImage(dec, file).Ok? ==> r == Assemble(DecodeImage(dec, file).value)
  {
    var image :- DecodeImage(dec, file);
    Assemble(image)
  }

  /** `paths[:10]` as written.  A slice expression panics past the
      slice's capacity; `paths` comes straight from `make([]string, cnt)`,
      so its capacity is its length. */
  function Sample(paths: seq<Path>): (r: Result<seq<Path>>)
    ensures r.Ok? <==> |paths| >= SAMPLE_SIZE
    ensures r.Ok? ==> |r.value| == SAMPLE_SIZE && r.value == paths[..SAMPLE_SIZE]
    ensures r.Err? ==> r.error == SliceOutOfRange
  {
    if |paths| < SAMPLE_SIZE then Err(SliceOutOfRange) else Ok(paths[..SAMPLE_SIZE])
  }

  /** The sample the driver evidently means to print: the first ten paths,
      or all of them when there are fewer. */
  function SampleUpTo(paths: seq<Path>): (s: seq<Path>)
    ensures |s| == (if |paths| < SAMPLE_SIZE then |paths| else SAMPLE_SIZE)
    ensures forall i :: 0 <= i < |s| ==> s[i] == paths[i]
  {
    if |paths| < SAMPLE_SIZE then paths else paths[..SAMPLE_SIZE]
  }

  /** The whole command as written: it panics at `paths[:10]`
      when the slice holds fewer than ten entries. */
  function Run(dec: Decoders, file: seq<byte>): (r: Result<(Report, seq<Path>)>)
    ensures r.Ok? <==> BuildPaths(dec, file).Ok? && BuildPaths(dec, file).value.total >= SAMPLE_SIZE
    ensures BuildPaths(dec, file).Ok? && BuildPaths(dec, file).value.total < SAMPLE_SIZE ==>
              r == Err(SliceOutOfRange)
    ensures r.Ok? ==> Ok(r.value.0) == BuildPaths(dec, file) && r.value.1 == r.value.0.paths[..SAMPLE_SIZE]
  {
    var report :- BuildPaths(dec, file);
    var sample :- Sample(report.paths);
    Ok((report, sample))
  }

  /** The run with the intended sample: it fails only where decoding or the
      tree build fails, and the sample is the leading paths — the first
      leaf paths below the root, in order, as far as there are any. */
  function RunCorrected(dec: Decoders, file: seq<byte>): (r: Result<(Report, seq<Path>)>)
    ensures r.Ok? <==> BuildPaths(dec, file).Ok?
    ensures r.Ok? ==> Ok(r.value.0) == BuildPaths(dec, file)
    ensures r.Ok? ==> var leaves := LeafPathsAll([], r.value.0.root.children);
              && |r.value.1| == (if r.value.0.total < SAMPLE_SIZE then r.value.0.total else SAMPLE_SIZE)
              && forall i :: 0 <= i < |r.value.1| && i < |leaves| ==> r.value.1[i] == leaves[i]
  {
    var report :- BuildPaths(dec, file);
    WalkFilledPrefix(report.root, report.total, report.paths);
    Ok((report, SampleUpTo(report.paths)))
  }

  // ---------------------------------------------------------------------
  // A worked image: root 16385 lists a file "a.txt" (20) and a directory
  // "b" (21), which lists a file "c.txt" (22).

  const NameA: seq<byte> := [0x61, 0x2E, 0x74, 0x78, 0x74]
  const NameB: seq<byte> := [0x62]
  const NameC: seq<byte> := [0x63, 0x2E, 0x74, 0x78, 0x74]

  const WorkedNodes: map<u64, INode> :=
    map[][16385 := INode([], 16385, Directory)][20 := INode(NameA, 20, File)]
       [21 := INode(NameB, 21, Directory)][22 := INode(NameC, 22, File)]

  const WorkedAdj: Adjacency := map[16385 := [20, 21], 21 := [22]]

  const FileA: Tree := Tree(INode(NameA, 20, File), [])
  const FileC: Tree := Tree(INode(NameC, 22, File), [])
  const DirB: Tree := Tree(INode(NameB, 21, Directory), [FileC])
  const WorkedRoot: Tree := Tree(INode([], 16385, Directory), [FileA, DirB])

  /** The builder finds the expected tree with the driver's fuel. */
  lemma WorkedTree()
    ensures FindChildren(WorkedAdj, WorkedNodes, ROOT_INODE_ID, |WorkedAdj|) == Ok(WorkedRoot)
  {
    assert Conforms(WorkedAdj, WorkedNodes, 22, FileC);
    assert Conforms(WorkedAdj, WorkedNodes, 21, DirB);
    assert Conforms(WorkedAdj, WorkedNodes, 20, FileA);
    assert Conforms(WorkedAdj, WorkedNodes, 16385, WorkedRoot);
    assert [FileC][1..] == [] && [DirB][1..] == [] && [FileA, DirB][1..] == [DirB];
    assert Height(FileC) == 0 && Height(FileA) == 0;
    assert HeightAll([FileC]) == 0;
    assert Height(DirB) == 1;
    assert HeightAll([DirB]) == 1;
    assert Height(WorkedRoot) == 2;
    FindChildrenComplete(WorkedAdj, WorkedNodes, 16385, WorkedRoot, |WorkedAdj|);
  }

  /** The worked tree has 4 nodes and 2 leaves, so the slice gets 6 slots. */
  lemma WorkedCount()
    ensures LeavesAll(WorkedRoot.children) == 2 && CountTreeNodes(WorkedRoot) == 6
  {
    assert [FileC][1..] == [] && [FileA, DirB][1..] == [DirB] && [DirB][1..] == [];
    assert Size(FileC) == 1 && Leaves(FileC) == 1 && Leaves(FileA) == 1;
    assert SizeAll([FileC]) == 1 && LeavesAll([FileC]) == 1;
    assert Size(DirB) == 2 && Leaves(DirB) == 1;
  }

  /** The walk below the worked root writes "/a.txt", then "/b/c.txt". */
  lemma WorkedLeafPaths()
    ensures LeafPathsAll([], WorkedRoot.children) == [[SLASH] + NameA, [SLASH] + NameB + [SLASH] + NameC]
  {
    assert [FileC][1..] == [] && [FileA, DirB][1..] == [DirB] && [DirB][1..] == [];
    assert LeafPathsAll([], [FileC]) == [[] + [SLASH] + NameC];
    assert Extend([], DirB) == [SLASH] + NameB;
    assert LeafPaths([SLASH] + NameB, FileC) == [[SLASH] + NameB + [SLASH] + NameC];
    assert LeafPathsAll([SLASH] + NameB, [FileC]) == [[SLASH] + NameB + [SLASH] + NameC];
    assert LeafPaths([], DirB) == [[SLASH] + NameB + [SLASH] + NameC];
    assert Extend([], FileA) == [SLASH] + NameA;
    assert LeafPaths([], FileA) == [[SLASH] + NameA];
    assert LeafPathsAll([], [DirB]) == [[SLASH] + NameB + [SLASH] + NameC];
  }

  /** The count is 4 nodes + 2 leaves = 6; the slice holds "/a.txt",
      "/b/c.txt" and four blanks; two paths are counted; and with fewer
      than ten slots the run then fails at the sample. */
  lemma WorkedImage()
    ensures var r := Assemble(Image(map[], WorkedNodes, EntityCount(2, 2, 0), WorkedAdj));
      && r.Ok?
      && r.value.total == 6
      && r.value.paths == [[SLASH] + NameA, [SLASH] + NameB + [SLASH] + NameC, [], [], [], []]
      && r.value.pathCount == 2
      && r.value.total < SAMPLE_SIZE
  {
    WorkedTree();
    WorkedCount();
    var image := Image(map[], WorkedNodes, EntityCount(2, 2, 0), WorkedAdj);
    assert Assemble(image) == Ok(ReportFor(image, WorkedRoot));
    WorkedFilled(Assemble(image).value.paths);
  }

  /** Six slots filled below the worked root: the two paths, four blanks. */
  lemma WorkedFilled(paths: seq<Path>)
    requires WalkFilled(WorkedRoot, 6, paths)
    ensures paths == [[SLASH] + NameA, [SLASH] + NameB + [SLASH] + NameC, [], [], [], []]
  {
    WorkedCount();
    WorkedLeafPaths();
    assert Blank(4) == [[], [], [], []];
  }

  /** On the worked image the slice has six entries: the sample as written
      panics, the intended one holds both paths and four blanks. */
  lemma WorkedSample()
    ensures var r := Assemble(Image(map[], WorkedNodes, EntityCount(2, 2, 0), WorkedAdj));
      && r.Ok?
      && Sample(r.value.paths) == Err(SliceOutOfRange)
      && SampleUpTo(r.value.paths) == [[SLASH] + NameA, [SLASH] + NameB + [SLASH] + NameC, [], [], [], []]
  {
    WorkedImage();
  }
}
