/** The wire layer: the record types the protobuf decoder yields, the
    decoders themselves (opaque here), section reads and the
    `[varint length][body]` framing every section is made of.
 */
module Wire {
  import opened Results
  import opened Bytes
  import opened Varint

  /** One `FileSummary.Section`: a named byte range of the image. */
  datatype Section = Section(name: string, offset: u64, length: u64)

  /** What the generated getters report on a nil `*FileSummary_Section`:
      every field at its zero value. */
  const NilSection: Section := Section("", 0, 0)

  /** One `INodeSection.INode` record: id, name and wire type code
      (1 file, 2 directory, 3 symlink in the image format). */
  datatype InodeRecord = InodeRecord(id: u64, name: seq<byte>, typeCode: int)

  /** One `INodeDirectorySection.DirEntry` record. */
  datatype DirEntry = DirEntry(parent: u64, children: seq<u64>)

  /** `proto.Unmarshal` into each message type the reader uses; `None` is an
      unmarshal error.  The header decoder yields `INodeSection.numInodes`. */
  datatype Decoders = Decoders(
    summary: seq<byte> -> Option<seq<Section>>,
    inodeHeader: seq<byte> -> Option<u64>,
    inode: seq<byte> -> Option<InodeRecord>,
    dirEntry: seq<byte> -> Option<DirEntry>)

  /** Reads a whole section the way the section parsers do:
      `ReadAt(make([]byte, length), int64(offset))` with every error fatal,
      `io.EOF` from a short read included. */
  function ReadSection(file: seq<byte>, info: Section): (r: Result<seq<byte>>)
    ensures r.Ok? <==> info.offset < TWO_63 && (info.length == 0 || info.offset + info.length <= |file|)
    ensures r.Ok? ==> |r.value| == info.length
    ensures r.Ok? && info.length > 0 ==> r.value == file[info.offset..info.offset + info.length]
    ensures r.Err? ==> r.error == ReadFailed
  {
    var rd := ReadAt(file, Int64OfUint64(info.offset), info.length);
    if rd.status != Complete then Err(ReadFailed) else Ok(rd.buf)
  }

  /** A section lying wholly inside the file reads as its byte range. */
  lemma ReadSectionOf(file: seq<byte>, info: Section, bytes: seq<byte>)
    requires info.offset < TWO_63 && info.offset + info.length <= |file|
    requires file[info.offset..info.offset + info.length] == bytes
    ensures ReadSection(file, info) == Ok(bytes)
  {
  }

  /** A record cut out of a buffer and the bytes it took, prefix included. */
  datatype Frame = Frame(body: seq<byte>, size: nat)

  /** One step of every record loop in the reader:
      `i, c := binary.Uvarint(buf)`, abort if `c <= 0`,
      `newPos := uint64(c) + i` (wrapping at 2^64), `buf[c:newPos]`. */
  function NextRecord(buf: seq<byte>): (r: Result<Frame>)
    requires |buf| < TWO_64
    ensures Uvarint(buf).count <= 0 ==> r == Err(BadVarint(Uvarint(buf).count))
    ensures Uvarint(buf).count > 0 ==>
              (r.Ok? <==> Uvarint(buf).count + Uvarint(buf).value <= |buf|)
    ensures r.Err? ==> r.error == BadVarint(Uvarint(buf).count) || r.error == SliceOutOfRange
    ensures Uvarint(buf).count > 0 && r.Err? ==> r.error == SliceOutOfRange
    ensures r.Ok? ==>
              && 1 <= r.value.size <= |buf|
              && |r.value.body| == Uvarint(buf).value
              && r.value.size == Uvarint(buf).count + |r.value.body|
              && r.value.body == buf[Uvarint(buf).count..r.value.size]
  {
    var d := Uvarint(buf);
    if d.count <= 0 then Err(BadVarint(d.count))
    else
      WrappedEnd(d.count, d.value);
      var newPos := (d.count + d.value) % TWO_64;
      if newPos < d.count || newPos > |buf| then Err(SliceOutOfRange)
      else Ok(Frame(buf[d.count..newPos], newPos))
  }

  /** `uint64(c) + i` in Go: the sum, less 2^64 when it does not fit. */
  lemma WrappedEnd(c: nat, v: u64)
    requires c <= MAX_VARINT_LEN64
    ensures (c + v) % TWO_64 == if c + v < TWO_64 then c + v else c + v - TWO_64
  {
  }

  /** The framing a writer puts around a record body. */
  function FrameOf(body: seq<byte>): seq<byte>
  {
    PutUvarint(|body|) + body
  }

  /** Several records framed back to back. */
  function FrameAll(bodies: seq<seq<byte>>): seq<byte>
  {
    if bodies == [] then [] else FrameOf(bodies[0]) + FrameAll(bodies[1..])
  }

  /** Where the varint reads a length `v` in `c` bytes and the buffer
      holds that many more bytes, the record is exactly those bytes. */
  lemma NextRecordAt(buf: seq<byte>, v: u64, c: int)
    requires |buf| < TWO_64 && Uvarint(buf) == Decoded(v, c)
    requires c > 0 && c + v <= |buf|
    ensures NextRecord(buf) == Ok(Frame(buf[c..c + v], c + v))
  {
  }

  /** The framed buffer is the varint, then the body, then the rest. */
  lemma FrameOfLayout(body: seq<byte>, rest: seq<byte>)
    ensures FrameOf(body) + rest == PutUvarint(|body|) + (body + rest)
    ensures (FrameOf(body) + rest)[|PutUvarint(|body|)|..|FrameOf(body)|] == body
  {
    var c := |PutUvarint(|body|)|;
    assert (FrameOf(body) + rest)[c..c + |body|] == body;
  }

  /** A framed body is cut out again intact, whatever follows it. */
  lemma NextRecordFrameOf(body: seq<byte>, rest: seq<byte>)
    requires |FrameOf(body) + rest| < TWO_64
    ensures NextRecord(FrameOf(body) + rest) == Ok(Frame(body, |FrameOf(body)|))
  {
    FrameOfLayout(body, rest);
    PutUvarintRoundTrip(|body|, body + rest);
    NextRecordAt(FrameOf(body) + rest, |body|, |PutUvarint(|body|)|);
  }

  lemma FrameAllCons(bodies: seq<seq<byte>>, rest: seq<byte>)
    requires bodies != []
    ensures FrameAll(bodies) + rest == FrameOf(bodies[0]) + (FrameAll(bodies[1..]) + rest)
  {
  }

  /** The bytes after the framed record. */
  lemma NextRecordRest(body: seq<byte>, rest: seq<byte>)
    requires |FrameOf(body) + rest| < TWO_64
    ensures (FrameOf(body) + rest)[|FrameOf(body)|..] == rest
  {
  }
}
