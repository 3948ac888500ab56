/** The trailer and the section directory at the end of the image:
    `[ ... sections ... ][varint][FileSummary][4-byte big-endian length]`.
 */
module Summary {
  import opened Results
  import opened Bytes
  import opened Varint
  import opened Wire
  import opened Seqs

  /** `FILE_SUM_BYTES`: size of the trailer holding the summary length. */
  const FILE_SUM_BYTES: nat := 4

  /** `DecodeFileSummaryLength`: the last four bytes as a big-endian
      `int32`.  A file shorter than the trailer makes the read offset
      negative, which `ReadAt` refuses and the program treats as fatal;
      the `io.EOF` it tolerates cannot occur at this offset. */
  function DecodeFileSummaryLength(file: seq<byte>): (r: Result<int>)
    ensures r.Ok? <==> |file| >= FILE_SUM_BYTES
    ensures r.Ok? ==> r.value == BigEndianInt32(file[|file| - FILE_SUM_BYTES..])
    ensures r.Ok? ==> -0x8000_0000 <= r.value < 0x8000_0000
    ensures r.Err? ==> r.error == ReadFailed
  {
    var rd := ReadAt(file, |file| - FILE_SUM_BYTES, FILE_SUM_BYTES);
    if rd.status == Failed then Err(ReadFailed)
    else Ok(BigEndianInt32(rd.buf))
  }

  /** Whatever precedes it, a trailer written with `binary.Write` is read
      back as the value written. */
  lemma TrailerRoundTrip(prefix: seq<byte>, len: int)
    requires -0x8000_0000 <= len < 0x8000_0000
    ensures DecodeFileSummaryLength(prefix + Int32BigEndian(len)) == Ok(len)
  {
    var file := prefix + Int32BigEndian(len);
    assert file[|file| - FILE_SUM_BYTES..] == Int32BigEndian(len);
  }

  /** Index of the last section carrying `name`, or -1 when none does. */
  function LastNamed(sections: seq<Section>, name: string): int
  {
    LastIndex(sections, (s: Section) => s.name, name)
  }

  /** The loop `sectionMap[value.GetName()] = value` over the summary's
      sections in order: each name maps to the last section carrying it. */
  function SectionMap(sections: seq<Section>): (m: map<string, Section>)
    ensures forall name :: name in m <==> LastNamed(sections, name) >= 0
    ensures forall name :: name in m ==> m[name] == sections[LastNamed(sections, name)]
    decreases |sections|
  {
    if sections == [] then map[]
    else
      var init := sections[..|sections| - 1];
      var last := sections[|sections| - 1];
      SectionMap(init)[last.name := last]
  }

  /** What follows the read of the summary bytes: drop one varint whose
      value is never looked at, unmarshal the rest, index the sections. */
  function ParseSummaryBytes(dec: Decoders, buf: seq<byte>): (r: Result<map<string, Section>>)
    ensures Uvarint(buf).count <= 0 ==> r == Err(BadVarint(Uvarint(buf).count))
    ensures r.Ok? ==> var rest := buf[Uvarint(buf).count..];
              dec.summary(rest).Some? && r.value == SectionMap(dec.summary(rest).value)
    ensures r.Err? && Uvarint(buf).count > 0 ==> r.error == UnmarshalFailed
    ensures Uvarint(buf).count > 0 && dec.summary(buf[Uvarint(buf).count..]).Some? ==> r.Ok?
  {
    var d := Uvarint(buf);
    if d.count <= 0 then Err(BadVarint(d.count))
    else
      var sections :- Need(dec.summary(buf[d.count..]), UnmarshalFailed);
      Ok(SectionMap(sections))
  }

  /** `ParseFileSummary`: the summary is the `len` bytes just before the
      trailer.  A negative `len` fails in `make`, one larger than the room
      before the trailer makes the read offset negative, and `len == 0`
      leaves no byte for the varint. */
  function ParseFileSummary(dec: Decoders, file: seq<byte>, len: int): (r: Result<map<string, Section>>)
    ensures len < 0 ==> r == Err(NegativeLength)
    ensures len > |file| - FILE_SUM_BYTES && len >= 0 ==> r == Err(ReadFailed)
    ensures len == 0 && |file| >= FILE_SUM_BYTES ==> r == Err(BadVarint(0))
    ensures 0 <= len <= |file| - FILE_SUM_BYTES ==>
              r == ParseSummaryBytes(dec, file[|file| - len - FILE_SUM_BYTES..|file| - FILE_SUM_BYTES])
  {
    if len < 0 then Err(NegativeLength)
    else
      var readAt := |file| - len - FILE_SUM_BYTES;
      var rd := ReadAt(file, readAt, len);
      if rd.status == Failed then Err(ReadFailed)
      else ParseSummaryBytes(dec, rd.buf)
  }

  /** An image laid out as the format describes — any sections, a varint,
      the summary record, the trailer — yields the section map of that
      record, whatever the varint says. */
  lemma SummaryRoundTrip(dec: Decoders, sections: seq<byte>, outer: u64, body: seq<byte>)
    requires |PutUvarint(outer) + body| < 0x8000_0000
    ensures var len := |PutUvarint(outer) + body|;
      var file := sections + (PutUvarint(outer) + body) + Int32BigEndian(len);
      && DecodeFileSummaryLength(file) == Ok(len)
      && ParseFileSummary(dec, file, len) ==
           (match dec.summary(body)
            case Some(ss) => Ok(SectionMap(ss))
            case None => Err(UnmarshalFailed))
  {
    var summary := PutUvarint(outer) + body;
    var len := |summary|;
    var file := sections + summary + Int32BigEndian(len);
    TrailerRoundTrip(sections + summary, len);
    assert file[|file| - len - FILE_SUM_BYTES..|file| - FILE_SUM_BYTES] == summary;
    PutUvarintRoundTrip(outer, body);
    assert summary[|PutUvarint(outer)|..] == body;
  }
}
