/** The inode section: a header record giving `numInodes`, then that many
    inode records, folded into the id -> INode table and the counts.
 */
module Inodes {
  import opened Results
  import opened Bytes
  import opened Varint
  import opened Wire
  import opened Seqs

  /** The reader's own type constants, `FILE`, `DIRECTORY`, `SYMLINK`
      (0, 1 and 2 in the Go code; `FILE` is the zero value). */
  datatype Kind = File | Directory | Symlink

  /** The reader's `INode`: name, id and kind. */
  datatype INode = INode(name: seq<byte>, id: u64, kind: Kind)

  /** Go's zero `INode{}`: empty name, id 0, type 0, which is `FILE`. */
  const ZeroINode: INode := INode([], 0, File)

  datatype EntityCount = EntityCount(files: nat, directories: nat, symlinks: nat)

  function Total(c: EntityCount): nat
  {
    c.files + c.directories + c.symlinks
  }

  /** Wire type 1 is a file, 2 a directory, and every other code,
      unknown ones included, a symlink. */
  function KindOf(typeCode: int): (k: Kind)
    ensures k == File <==> typeCode == 1
    ensures k == Directory <==> typeCode == 2
    ensures k == Symlink <==> typeCode != 1 && typeCode != 2
  {
    if typeCode == 1 then File
    else if typeCode == 2 then Directory
    else Symlink
  }

  /** The table entry built from one record. */
  function ToINode(rec: InodeRecord): INode
  {
    INode(rec.name, rec.id, KindOf(rec.typeCode))
  }

  /** Bumps the counter of one kind. */
  function Tally(c: EntityCount, k: Kind): (c': EntityCount)
    ensures Total(c') == Total(c) + 1
    ensures c'.files == c.files + (if k == File then 1 else 0)
    ensures c'.directories == c.directories + (if k == Directory then 1 else 0)
    ensures c'.symlinks == c.symlinks + (if k == Symlink then 1 else 0)
  {
    match k
    case File => c.(files := c.files + 1)
    case Directory => c.(directories := c.directories + 1)
    case Symlink => c.(symlinks := c.symlinks + 1)
  }

  /** Every entry is stored under its own id. */
  ghost predicate KeyedById(table: map<u64, INode>)
  {
    forall id :: id in table ==> table[id].id == id
  }

  /** Reference fold: the records applied in order to a table and counts. */
  function InsertAll(records: seq<InodeRecord>, table: map<u64, INode>, counts: EntityCount)
    : (r: (map<u64, INode>, EntityCount))
    decreases |records|
  {
    if |records| == 0 then (table, counts)
    else
      var node := ToINode(records[0]);
      InsertAll(records[1..], table[node.id := node], Tally(counts, node.kind))
  }

  /** Index of the last record with id `id`, or -1 when none has it. */
  function LastWithId(records: seq<InodeRecord>, id: u64): int
  {
    LastIndex(records, (r: InodeRecord) => r.id, id)
  }

  lemma InsertAllSnoc(records: seq<InodeRecord>, rec: InodeRecord, table: map<u64, INode>, counts: EntityCount)
    ensures var (t, c) := InsertAll(records, table, counts);
      InsertAll(records + [rec], table, counts) == (t[rec.id := ToINode(rec)], Tally(c, ToINode(rec).kind))
    decreases |records|
  {
    if records != [] {
      assert (records + [rec])[1..] == records[1..] + [rec];
      var node := ToINode(records[0]);
      InsertAllSnoc(records[1..], rec, table[node.id := node], Tally(counts, node.kind));
    }
  }

  /** A repeated id keeps its last record, and an id no record carries is
      absent; so every entry sits under its own id. */
  lemma {:induction false} InsertAllLast(records: seq<InodeRecord>)
    ensures var t := InsertAll(records, map[], EntityCount(0, 0, 0)).0;
      && (forall id :: id in t <==> LastWithId(records, id) >= 0)
      && (forall id :: id in t ==> t[id] == ToINode(records[LastWithId(records, id)]))
      && KeyedById(t)
    decreases |records|
  {
    if records != [] {
      var init := records[..|records| - 1];
      var last := records[|records| - 1];
      assert records == init + [last];
      InsertAllLast(init);
      InsertAllSnoc(init, last, map[], EntityCount(0, 0, 0));
    }
  }

  /** Every record is counted once under its kind, while the table holds at
      most one entry per record. */
  lemma {:induction false} InsertAllCounts(records: seq<InodeRecord>, table: map<u64, INode>, counts: EntityCount)
    ensures var (t, c) := InsertAll(records, table, counts);
      Total(c) == Total(counts) + |records| && |t| <= |table| + |records|
    decreases |records|
  {
    if records != [] {
      var node := ToINode(records[0]);
      assert table[node.id := node].Keys == table.Keys + {node.id};
      InsertAllCounts(records[1..], table[node.id := node], Tally(counts, node.kind));
    }
  }

  /** The record loop of `ParseInodeSection`: exactly `k` more records,
      each cut out where the previous one ended; bytes after the last one
      are never looked at. */
  function InodeLoop(dec: Decoders, buf: seq<byte>, k: nat, table: map<u64, INode>, counts: EntityCount)
    : (r: Result<(map<u64, INode>, EntityCount)>)
    requires |buf| < TWO_64
    ensures r.Ok? ==> Total(r.value.1) == Total(counts) + k
    ensures r.Ok? ==> |r.value.0| <= |table| + k
    ensures r.Ok? && KeyedById(table) ==> KeyedById(r.value.0)
    ensures k > 0 && NextRecord(buf).Err? ==> r == Err(NextRecord(buf).error)
    decreases k
  {
    if k == 0 then Ok((table, counts))
    else
      var f :- NextRecord(buf);
      var rec :- Need(dec.inode(f.body), UnmarshalFailed);
      var node := ToINode(rec);
      assert |table[rec.id := node].Keys| <= |table.Keys| + 1 by {
        assert table[rec.id := node].Keys == table.Keys + {rec.id};
      }
      InodeLoop(dec, buf[f.size..], k - 1, table[rec.id := node], Tally(counts, node.kind))
  }

  /** One turn of the loop on a framed body that decodes: the record is
      inserted and counted, and the loop goes on right after the frame. */
  lemma InodeLoopStep(dec: Decoders, body: seq<byte>, rest: seq<byte>, k: nat,
                      table: map<u64, INode>, counts: EntityCount)
    requires k > 0 && dec.inode(body).Some?
    requires |FrameOf(body) + rest| < TWO_64
    ensures var node := ToINode(dec.inode(body).value);
      InodeLoop(dec, FrameOf(body) + rest, k, table, counts)
        == InodeLoop(dec, rest, k - 1, table[node.id := node], Tally(counts, node.kind))
  {
    NextRecordFrameOf(body, rest);
    NextRecordRest(body, rest);
  }

  /** Bodies that frame and decode cleanly give the reference fold of their
      records, whatever bytes follow the last one. */
  lemma {:induction false} InodeLoopFrames(dec: Decoders, bodies: seq<seq<byte>>, records: seq<InodeRecord>,
                                           junk: seq<byte>, table: map<u64, INode>, counts: EntityCount)
    requires |bodies| == |records|
    requires forall i :: 0 <= i < |bodies| ==> dec.inode(bodies[i]) == Some(records[i])
    requires |FrameAll(bodies) + junk| < TWO_64
    ensures InodeLoop(dec, FrameAll(bodies) + junk, |bodies|, table, counts) == Ok(InsertAll(records, table, counts))
    decreases |bodies|
  {
    if bodies != [] {
      var rest := FrameAll(bodies[1..]) + junk;
      FrameAllCons(bodies, junk);
      InodeLoopStep(dec, bodies[0], rest, |bodies|, table, counts);
      var node := ToINode(records[0]);
      InodeLoopFrames(dec, bodies[1..], records[1..], junk, table[node.id := node], Tally(counts, node.kind));
    }
  }

  /** On an exhausted buffer the loop stops at the varint of the next
      record: `binary.Uvarint` of no bytes reports a count of 0. */
  lemma InodeLoopEmpty(dec: Decoders, k: nat, table: map<u64, INode>, counts: EntityCount)
    requires k > 0
    ensures InodeLoop(dec, [], k, table, counts) == Err(BadVarint(0))
  {
    assert Uvarint([]).count == 0;
  }

  /** A section holding fewer records than the header promises, and nothing
      after them, runs out of bytes in the varint of the missing record. */
  lemma {:induction false} InodeLoopUnderrun(dec: Decoders, bodies: seq<seq<byte>>, k: nat,
                                             table: map<u64, INode>, counts: EntityCount)
    requires k > |bodies|
    requires forall i :: 0 <= i < |bodies| ==> dec.inode(bodies[i]).Some?
    requires |FrameAll(bodies)| < TWO_64
    ensures InodeLoop(dec, FrameAll(bodies), k, table, counts) == Err(BadVarint(0))
    decreases |bodies|
  {
    if bodies == [] {
      InodeLoopEmpty(dec, k, table, counts);
    } else {
      var rest := FrameAll(bodies[1..]);
      assert FrameAll(bodies) == FrameOf(bodies[0]) + rest;
      InodeLoopStep(dec, bodies[0], rest, k, table, counts);
      var node := ToINode(dec.inode(bodies[0]).value);
      forall i | 0 <= i < |bodies[1..]| ensures dec.inode(bodies[1..][i]).Some? {
        assert bodies[1..][i] == bodies[i + 1];
      }
      InodeLoopUnderrun(dec, bodies[1..], k - 1, table[node.id := node], Tally(counts, node.kind));
    }
  }

  /** `ParseInodeSection`: read the section, decode the header record for
      `numInodes`, then exactly that many inode records. */
  function ParseInodeSection(dec: Decoders, info: Section, file: seq<byte>)
    : (r: Result<(map<u64, INode>, EntityCount)>)
    ensures r.Ok? ==> KeyedById(r.value.0) && |r.value.0| <= Total(r.value.1)
    ensures ReadSection(file, info).Err? ==> r == Err(ReadFailed)
    ensures info.length == 0 && ReadSection(file, info).Ok? ==> r == Err(BadVarint(0))
    ensures r.Ok? ==>
              && ReadSection(file, info).Ok?
              && NextRecord(ReadSection(file, info).value).Ok?
              && dec.inodeHeader(NextRecord(ReadSection(file, info).value).value.body).Some?
              && Total(r.value.1) == dec.inodeHeader(NextRecord(ReadSection(file, info).value).value.body).value
  {
    var bytes :- ReadSection(file, info);
    var header :- NextRecord(bytes);
    var numInodes :- Need(dec.inodeHeader(header.body), UnmarshalFailed);
    InodeLoop(dec, bytes[header.size..], numInodes, map[], EntityCount(0, 0, 0))
  }

  /** A section laid out as the format describes — header record, then the
      promised number of inode records, then anything — yields exactly the
      reference fold of the records. */
  lemma InodeSectionFrames(dec: Decoders, file: seq<byte>, info: Section, header: seq<byte>,
                           bodies: seq<seq<byte>>, records: seq<InodeRecord>, junk: seq<byte>)
    requires |bodies| == |records| && |bodies| < TWO_64
    requires dec.inodeHeader(header) == Some(|bodies| as u64)
    requires forall i :: 0 <= i < |bodies| ==> dec.inode(bodies[i]) == Some(records[i])
    requires info.offset < TWO_63 && info.offset + info.length <= |file|
    requires file[info.offset..info.offset + info.length] == FrameOf(header) + (FrameAll(bodies) + junk)
    ensures ParseInodeSection(dec, info, file) == Ok(InsertAll(records, map[], EntityCount(0, 0, 0)))
    ensures Total(ParseInodeSection(dec, info, file).value.1) == |records|
  {
    var bytes := FrameOf(header) + (FrameAll(bodies) + junk);
    ReadSectionOf(file, info, bytes);
    NextRecordFrameOf(header, FrameAll(bodies) + junk);
    NextRecordRest(header, FrameAll(bodies) + junk);
    InodeLoopFrames(dec, bodies, records, junk, map[], EntityCount(0, 0, 0));
    InsertAllCounts(records, map[], EntityCount(0, 0, 0));
  }
}
