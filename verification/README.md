# HDFS fsimage reader — a Dafny model

This project models the core of a reader for Hadoop HDFS fsimage files, the
protobuf-based checkpoint the NameNode writes of its namespace. The reader
works in these steps:

1. It decodes the file's 4-byte big-endian trailer, which gives the length of
   the `FileSummary`.
2. It parses the summary into a map from section name to offset and length.
3. It reads the `INODE` section into a table from inode id to name and kind,
   counting files, directories and symlinks along the way.
4. It reads the `INODE_DIR` section into a parent-to-children adjacency map.
5. It builds the namespace tree from the root inode (id 16385).
6. It sizes a path slice with `CountTreeNodes` and fills it with one
   slash-joined path per leaf, in depth-first order.
7. It counts the non-empty paths and prints the first ten.

The model is a set of pure functions, one per step.

- **The image file** is a `seq<byte>`.
- **`os.File.ReadAt`** is `Bytes.ReadAt`, which keeps Go's rules:
  - a negative offset is an error;
  - a zero-length read at a non-negative offset always succeeds;
  - a short read gives a zero-padded buffer and `io.EOF`.
- **`encoding/binary.Uvarint`** is `Varint.Uvarint`, which is exact:
  - it returns count 0 on a short buffer;
  - it returns a negative count on overflow;
  - a tenth byte above 1 is an overflow.
- **Protobuf decoding** of a `FileSummary`, an `INodeSection` header, an
  `INode` and a `DirEntry` is opaque. It is a function-typed field of
  `Wire.Decoders`, and it returns `None` where `proto.Unmarshal` fails.
- **Every `log.Fatal` and runtime panic** becomes an `Err` of `Results.Error`.
  This covers a slice past its end, `make` with a negative length, and
  `paths[:10]` on a short slice.
- **`FindChildren`** recurses without a bound in Go. Here it takes a fuel
  argument, and the driver supplies one unit per adjacency entry.
  `Namespace.DepthExceededOnlyOnCycle` proves that this bound fails only
  where Go itself would recurse forever: on a parent/child cycle reachable
  from the root.

The modules follow the program:

| Module | What it models |
|---|---|
| `Results` | `Option`, `Result`, `Error` |
| `Seqs` | the last position of a key in a sequence, which is what a map-building loop keeps |
| `Bytes` | bytes, `int64(uint64)`, `ReadAt`, big-endian int32 |
| `Varint` | `binary.Uvarint`, `PutUvarint` |
| `Wire` | section reads, length-delimited records |
| `Summary` | `DecodeFileSummaryLength`, `ParseFileSummary` |
| `Inodes` | `ParseInodeSection` |
| `Directories` | `ParseInodeDirectorySection` |
| `Namespace` | `FindChildren`, `CountTreeNodes`, `MinINodeID` |
| `Paths` | `ConstructPath` |
| `Driver` | the command's flow from reading the file to printing the sample |

## Behaviour worth knowing

- **A repeated `DirEntry` for one parent replaces the earlier one.**
  `util.go:310` assigns the children list to the map, so the last entry for a
  parent wins (`Directories.AssignAllLast`).
- **Empty directories are listed.** `ConstructPath` decides leaf-ness by
  structure, so an empty directory, or one with no `DirEntry`, gets a path
  like any file (`Paths.LeafPathsShape`).
- **A child id with no inode record is not skipped.** `inodeNames[id]` yields
  the zero `INode`, whose name is empty, so its path ends in a bare `/`
  (`Namespace.LookupINode`).

## Model

| member | source | states |
|---|---|---|
| Bytes.Int64OfUint64 | pkg/hadoop/hdfs/fsimage/util.go:243 | a section offset is reinterpreted as a signed 64-bit value; offsets of 2^63 and more become negative |
| Bytes.ReadAt | pkg/hadoop/hdfs/fsimage/util.go:186-193 | the read fails exactly for a negative offset; it is complete exactly when the requested bytes lie in the file or none are requested; otherwise the bytes present are returned, zero-padded, with end-of-file |
| Bytes.BigEndianInt32 | pkg/hadoop/hdfs/fsimage/util.go:194-196 | four bytes read as a big-endian two's-complement int32, in range, with the sign taken from the top bit |
| Bytes.Int32BigEndian | pkg/hadoop/hdfs/fsimage/util.go:194-196 | the big-endian encoding of any int32 is four bytes that the trailer decoder reads back as that int32 |
| Varint.Uvarint | pkg/hadoop/hdfs/fsimage/util.go:217-220 | count 0 exactly when the buffer ends inside a varint of at most ten bytes; a positive count comes exactly when some byte among the first ten ends the varint (the first byte without the continuation bit, at most 1 if it is the tenth), the count is one past that byte and the value is the base-128 number of the bytes up to it; -11 exactly when more than ten bytes follow and the first ten all carry the continuation bit; -10 exactly when the tenth byte ends the varint with a value above 1; no other negative count; a non-positive count comes with value 0 |
| Varint.NonMinimalZero | pkg/hadoop/hdfs/fsimage/util.go:217-220 | a zero padded to two bytes is accepted as 0 with count 2, as Go does |
| Varint.PutUvarintRoundTrip | pkg/hadoop/hdfs/fsimage/util.go:246-251 | the varint encoding of any 64-bit value, followed by anything, decodes to that value and consumes exactly the encoding |
| Wire.ReadSection | pkg/hadoop/hdfs/fsimage/util.go:236-244 | a section read succeeds exactly when its offset is below 2^63 and it lies inside the file (or is empty), and then yields exactly those bytes; a short read is fatal |
| Wire.NextRecord | pkg/hadoop/hdfs/fsimage/util.go:246-251 | a bad varint is reported with its count; otherwise the record is the bytes after the prefix, up to prefix plus value, computed modulo 2^64, and with a good varint it fails, always as a slice error, exactly when that end is past the buffer or has wrapped |
| Wire.NextRecordFrameOf | pkg/hadoop/hdfs/fsimage/util.go:250-251 | a length-prefixed body, followed by anything, is read back as that body with the right size |
| Summary.DecodeFileSummaryLength | pkg/hadoop/hdfs/fsimage/util.go:181-198 | succeeds exactly when the file has at least four bytes, and then gives the big-endian int32 of its last four bytes |
| Summary.TrailerRoundTrip | pkg/hadoop/hdfs/fsimage/util.go:181-198 | any file ending in the big-endian encoding of an int32 decodes to that int32 |
| Summary.SectionMap | pkg/hadoop/hdfs/fsimage/util.go:227-230 | a name is a key exactly when some section carries it, and maps to the last section with that name |
| Summary.ParseSummaryBytes | pkg/hadoop/hdfs/fsimage/util.go:217-231 | a bad length varint is fatal with its count; an undecodable message fails; a good varint followed by a decodable message always succeeds, and the map is built from the decoded sections |
| Summary.ParseFileSummary | pkg/hadoop/hdfs/fsimage/util.go:200-232 | a negative length fails in make; a length reaching before the file start fails the read; a zero length fails the varint; otherwise the summary is the bytes just before the trailer |
| Summary.SummaryRoundTrip | pkg/hadoop/hdfs/fsimage/util.go:200-232 | a file ending in a length-delimited summary and its trailer parses to the map of the decoded sections |
| Inodes.KindOf | pkg/hadoop/hdfs/fsimage/util.go:271-282 | wire type 1 is a file, 2 a directory, and every other code a symlink |
| Inodes.Tally | pkg/hadoop/hdfs/fsimage/util.go:273-282 | exactly the counter of the record's kind grows by one |
| Inodes.InsertAllLast | pkg/hadoop/hdfs/fsimage/util.go:272-282 | an id is in the table exactly when some record has it, and maps to the last record with that id |
| Inodes.InsertAllCounts | pkg/hadoop/hdfs/fsimage/util.go:272-284 | the three counters together grow by the number of records, and the table by at most that many |
| Inodes.InodeLoop | pkg/hadoop/hdfs/fsimage/util.go:259-283 | when the loop finishes, the counters have grown by exactly the header's count, the table by at most that many, every key still equals its inode's id; a framing error on the next record is passed on |
| Inodes.InodeLoopFrames | pkg/hadoop/hdfs/fsimage/util.go:259-283 | over k framed records, the loop yields the table and counts of inserting the decoded records in order |
| Inodes.InodeLoopUnderrun | pkg/hadoop/hdfs/fsimage/util.go:259-264 | when the header promises more records than the section holds, the loop fails with a too-small varint |
| Inodes.ParseInodeSection | pkg/hadoop/hdfs/fsimage/util.go:234-286 | a failed read is fatal; an empty or missing section fails at the header varint; a successful parse read a header record whose `numInodes` equals files + directories + symlinks counted, keys every inode by its own id, and has no more entries than inodes counted |
| Inodes.InodeSectionFrames | pkg/hadoop/hdfs/fsimage/util.go:234-286 | a well-formed section parses to the inserted records, and the counters add up to the header's count |
| Directories.AssignAllLast | pkg/hadoop/hdfs/fsimage/util.go:308-310 | a parent is a key exactly when some entry names it, and maps to the children of the last such entry (overwrite, not append) |
| Directories.DirLoop | pkg/hadoop/hdfs/fsimage/util.go:298-313 | an exhausted buffer ends the loop; a framing error is propagated; existing parents stay keys |
| Directories.DirLoopFrames | pkg/hadoop/hdfs/fsimage/util.go:298-313 | consuming framed entries is assigning their decoded contents in order |
| Directories.DirLoopOverrun | pkg/hadoop/hdfs/fsimage/util.go:303-304 | a record whose length prefix exceeds the remaining bytes is a slice error |
| Directories.ParseInodeDirectorySection | pkg/hadoop/hdfs/fsimage/util.go:288-315 | a failed read is fatal, and an empty or missing section gives an empty adjacency |
| Directories.DirSectionFrames | pkg/hadoop/hdfs/fsimage/util.go:288-315 | a section of framed entries parses to the map of those entries, last one winning |
| Directories.DirSectionOverrun | pkg/hadoop/hdfs/fsimage/util.go:288-315 | a section whose last record is cut short is a slice error |
| Namespace.LookupINode | pkg/hadoop/hdfs/fsimage/util.go:161 | a known id gives its inode; an unknown id gives the zero inode |
| Namespace.FindChildren | pkg/hadoop/hdfs/fsimage/util.go:158-173 | the node is the inode of the id; it has one subtree per child id; it is a leaf exactly when the id has no entry or an empty list; it always succeeds without children; it can fail only by depth |
| Namespace.FindAll | pkg/hadoop/hdfs/fsimage/util.go:168-171 | one subtree per child id, or a depth failure |
| Namespace.FindChildrenSound | pkg/hadoop/hdfs/fsimage/util.go:158-173 | a built tree agrees with the adjacency and inode table at every node |
| Namespace.FindChildrenComplete | pkg/hadoop/hdfs/fsimage/util.go:158-173 | any tree that agrees with the maps is what the builder returns, given fuel at least its height |
| Namespace.DepthExceededOnlyOnCycle | pkg/hadoop/hdfs/fsimage/util.go:168-171 | with one unit of fuel per adjacency entry, a failure implies a parent/child cycle reachable from the id |
| Namespace.CountInSubTree | pkg/hadoop/hdfs/fsimage/util.go:132-142 | the counter grows by the number of nodes below the node plus its number of leaves |
| Namespace.CountChildren | pkg/hadoop/hdfs/fsimage/util.go:138-141 | a child list contributes its total size plus its total leaves |
| Namespace.CountTreeNodes | pkg/hadoop/hdfs/fsimage/util.go:122-130 | a childless root counts 1; otherwise size plus leaves; never fewer than the leaves below the root |
| Namespace.MinINodeID | pkg/hadoop/hdfs/fsimage/util.go:112-120 | an empty slice panics; otherwise the result is an element no greater than any other |
| Paths.ConstructPath | pkg/hadoop/hdfs/fsimage/util.go:144-156 | the path slice keeps its length, and the only failure is an index past its end |
| Paths.ConstructAll | pkg/hadoop/hdfs/fsimage/util.go:151-154 | the loop over the children, sharing the slice and the index (also the driver's loop over the root's children): the slice keeps its length, and the only failure is an index past its end; what it writes is stated by `Paths.ConstructAllSpec` |
| Paths.LeafPathsShape | pkg/hadoop/hdfs/fsimage/util.go:146-153 | one path per leaf, each starting with the prefix and a slash and strictly longer than the prefix |
| Paths.ConstructPathSpec | pkg/hadoop/hdfs/fsimage/util.go:144-156 | with room, the leaf paths are written in depth-first order from the index and the index advances by the leaf count; without room it fails |
| Paths.ConstructAllSpec | pkg/hadoop/hdfs/fsimage/util.go:151-154 | the same for a list of siblings, written one after another |
| Driver.SectionOrNil | cmd/hdfs-fsimage-parse/main.go:60-63 | a present section is returned; a missing one reads as offset 0, length 0 |
| Driver.NonEmptyCount | cmd/hdfs-fsimage-parse/main.go:77-83 | the count of non-empty paths is at most the slice length, 0 exactly when every entry is blank, and the length exactly when none is |
| Driver.NonEmptyCountOf | cmd/hdfs-fsimage-parse/main.go:77-83 | written paths followed by unused slots count as the written paths |
| Driver.DecodeImage | cmd/hdfs-fsimage-parse/main.go:56-64 | the first failing step among trailer, summary, inode section and directory section decides the error; decoding succeeds exactly when all four steps do, and the image is made of their results; a file under four bytes fails; a decoded image has an inode section, a table keyed by id no bigger than its counters, and an empty adjacency when there is no directory section |
| Driver.RootPaths | cmd/hdfs-fsimage-parse/main.go:70-76 | with enough slots, the leaf paths under the root followed by blanks; too few slots fail |
| Driver.RootPathsFit | cmd/hdfs-fsimage-parse/main.go:70-83 | the node count always leaves room, and the non-empty paths are exactly the leaves below the root |
| Driver.ReportFor | cmd/hdfs-fsimage-parse/main.go:70-84 | for a built tree the slice has `CountTreeNodes` entries, holds the leaf paths then blanks, and the printed count is the number of leaves |
| Driver.Assemble | cmd/hdfs-fsimage-parse/main.go:69-84 | the tree agrees with the maps; the slice holds the leaf paths then blanks; the printed count is the number of leaves; the only failure is a reachable cycle |
| Driver.BuildPaths | cmd/hdfs-fsimage-parse/main.go:56-84 | decoding errors pass through; after a successful decode the result is the assembly of the decoded image |
| Driver.Sample | cmd/hdfs-fsimage-parse/main.go:86 | the sample exists exactly when the slice has at least ten entries, and is its first ten |
| Driver.SampleUpTo | cmd/hdfs-fsimage-parse/main.go:85-86 | the first ten entries, or all when fewer |
| Driver.Run | cmd/hdfs-fsimage-parse/main.go:56-86 | the run succeeds exactly when the build succeeds with a slice of ten or more; a smaller slice panics |
| Driver.RunCorrected | cmd/hdfs-fsimage-parse/main.go:56-86 | the run with the intended sample succeeds whenever the build does, and its sample begins with the leaf paths in order |
| Driver.WorkedImage | cmd/hdfs-fsimage-parse/main.go:69-84 | for a root with file `a.txt` and directory `b` holding `c.txt`: six slots, paths `/a.txt` and `/b/c.txt` then four blanks, a count of two |
| Driver.WorkedSample | cmd/hdfs-fsimage-parse/main.go:86 | on that image the sample as written panics, and the intended sample is the two paths and four blanks |

## Left out

- File access (`os.Stat`, `os.Open`, `Close`) is left out. The file is a byte sequence, and its length is that sequence's length.
- Log and print output is left out: `log.Println`/`Printf`, the "Processing" lines, printing the counters, the section map and the sample.
- `proto.Unmarshal` and the generated protobuf types are opaque decoders. Their field layout is not modelled.
- The sort helpers (`SortByNameCount`, `SortByChildCount` and their `Len`/`Less`/`Swap`) and the `String` methods are not used by the flow above, so they are not modelled.
- `logIfErr` is not a member. Every place it is called becomes an `Err` result.
- Inodes.InodeLoop: the three counters are unbounded naturals, so the uint32 wrap after 2^32 inodes of one kind is not modelled.
- Namespace.CountTreeNodes: the uint32 result is an unbounded natural, so a wrap past 2^32 does not shrink the path slice.
- Namespace.FindChildren: the fuel bound stands in for unbounded recursion. On a cycle Go overflows its stack; the model returns `DepthExceeded`. Without a cycle the two agree (`Namespace.FindChildrenComplete` with `Namespace.DepthExceededOnlyOnCycle`).
- Inodes.ParseInodeSection: a section length too large to allocate panics in Go's `make` before the read. Here it is reported as a failed read. Both are fatal.
- Bytes.ReadAt: a read that fails for reasons other than position (device errors) is not modelled.
- The model takes the file length passed around by the reader to be the length of the byte sequence. It does not model a file that changes between the `Stat` and the reads.

## Findings

| source | as written | input that shows it | evidently intended | confidence | as-written member | corrected member |
|---|---|---|---|---|---|---|
| cmd/hdfs-fsimage-parse/main.go:86 | `paths[:10]` slices ten entries whatever the slice's length | a root holding file `a.txt` and directory `b` with `c.txt` gives a slice of six entries, so the slice expression panics | print the first ten paths, or all of them when there are fewer | high (not executed) | Driver.Run, Driver.WorkedSample | Driver.RunCorrected |
