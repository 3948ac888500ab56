/** The inode-directory section: records `(parent, children)` one after
    another until the section's declared length is used up, folded into
    the parent -> children map.
 */
module Directories {
  import opened Results
  import opened Bytes
  import opened Varint
  import opened Wire
  import opened Seqs

  type Adjacency = map<u64, seq<u64>>

  /** Reference fold: `parChildrenMap[parent] = children` for each entry in
      order — assignment, so a later entry for a parent replaces an
      earlier one rather than adding to it. */
  function AssignAll(entries: seq<DirEntry>, adj: Adjacency): Adjacency
    decreases |entries|
  {
    if |entries| == 0 then adj
    else AssignAll(entries[1..], adj[entries[0].parent := entries[0].children])
  }

  /** Index of the last entry naming `parent`, or -1 when none does. */
  function LastForParent(entries: seq<DirEntry>, parent: u64): int
  {
    LastIndex(entries, (e: DirEntry) => e.parent, parent)
  }

  lemma AssignAllSnoc(entries: seq<DirEntry>, e: DirEntry, adj: Adjacency)
    ensures AssignAll(entries + [e], adj) == AssignAll(entries, adj)[e.parent := e.children]
    decreases |entries|
  {
    if entries != [] {
      assert (entries + [e])[1..] == entries[1..] + [e];
      AssignAllSnoc(entries[1..], e, adj[entries[0].parent := entries[0].children]);
    }
  }

  /** Each parent maps to the children of the LAST entry naming it, in that
      entry's order; earlier entries for the same parent are lost. */
  lemma {:induction false} AssignAllLast(entries: seq<DirEntry>)
    ensures var adj := AssignAll(entries, map[]);
      && (forall p :: p in adj <==> LastForParent(entries, p) >= 0)
      && (forall p :: p in adj ==> adj[p] == entries[LastForParent(entries, p)].children)
    decreases |entries|
  {
    if entries != [] {
      var init := entries[..|entries| - 1];
      var last := entries[|entries| - 1];
      assert entries == init + [last];
      AssignAllLast(init);
      AssignAllSnoc(init, last, map[]);
    }
  }

  /** The loop of `ParseInodeDirectorySection`, with the Go counter `a`
      being the length of what is left: stop when nothing is left, else
      cut out one record, decode it, assign, and go on after it. */
  function DirLoop(dec: Decoders, buf: seq<byte>, adj: Adjacency): (r: Result<Adjacency>)
    requires |buf| < TWO_64
    ensures buf == [] ==> r == Ok(adj)
    ensures buf != [] && NextRecord(buf).Err? ==> r == Err(NextRecord(buf).error)
    ensures r.Ok? ==> adj.Keys <= r.value.Keys
    decreases |buf|
  {
    if |buf| == 0 then Ok(adj)
    else
      var f :- NextRecord(buf);
      var e :- Need(dec.dirEntry(f.body), UnmarshalFailed);
      DirLoop(dec, buf[f.size..], adj[e.parent := e.children])
  }

  /** Whole framed records at the front of the buffer are folded in order
      and the loop carries on with what follows them. */
  lemma {:induction false} DirLoopFrames(dec: Decoders, bodies: seq<seq<byte>>, entries: seq<DirEntry>,
                                         rest: seq<byte>, adj: Adjacency)
    requires |bodies| == |entries|
    requires forall i :: 0 <= i < |bodies| ==> dec.dirEntry(bodies[i]) == Some(entries[i])
    requires |FrameAll(bodies) + rest| < TWO_64
    ensures DirLoop(dec, FrameAll(bodies) + rest, adj) == DirLoop(dec, rest, AssignAll(entries, adj))
    decreases |bodies|
  {
    if bodies == [] {
      assert FrameAll(bodies) + rest == rest;
    } else {
      var tail := FrameAll(bodies[1..]) + rest;
      FrameAllCons(bodies, rest);
      NextRecordFrameOf(bodies[0], tail);
      NextRecordRest(bodies[0], tail);
      var e := entries[0];
      DirLoopFrames(dec, bodies[1..], entries[1..], rest, adj[e.parent := e.children]);
    }
  }

  /** A record whose declared length runs past the end of the section
      aborts the whole section instead of being truncated. */
  lemma DirLoopOverrun(dec: Decoders, n: u64, partial: seq<byte>, adj: Adjacency)
    requires |partial| < n
    requires |PutUvarint(n) + partial| < TWO_64
    ensures DirLoop(dec, PutUvarint(n) + partial, adj) == Err(SliceOutOfRange)
  {
    PutUvarintRoundTrip(n, partial);
  }

  /** `ParseInodeDirectorySection`: read the section, run the loop over it
      from an empty map. */
  function ParseInodeDirectorySection(dec: Decoders, info: Section, file: seq<byte>): (r: Result<Adjacency>)
    ensures ReadSection(file, info).Err? ==> r == Err(ReadFailed)
    ensures info.length == 0 && ReadSection(file, info).Ok? ==> r == Ok(map[])
  {
    var bytes :- ReadSection(file, info);
    DirLoop(dec, bytes, map[])
  }

  /** A section that is exactly a run of framed entries yields their
      reference fold; the same run followed by one record that overruns the
      section aborts. */
  lemma DirSectionFrames(dec: Decoders, file: seq<byte>, info: Section, bodies: seq<seq<byte>>,
                         entries: seq<DirEntry>)
    requires |bodies| == |entries|
    requires forall i :: 0 <= i < |bodies| ==> dec.dirEntry(bodies[i]) == Some(entries[i])
    requires info.offset < TWO_63 && info.offset + info.length <= |file|
    requires file[info.offset..info.offset + info.length] == FrameAll(bodies)
    ensures ParseInodeDirectorySection(dec, info, file) == Ok(AssignAll(entries, map[]))
  {
    var bytes := FrameAll(bodies);
    ReadSectionOf(file, info, bytes);
    assert bytes + [] == bytes;
    DirLoopFrames(dec, bodies, entries, [], map[]);
  }

  lemma DirSectionOverrun(dec: Decoders, file: seq<byte>, info: Section, bodies: seq<seq<byte>>,
                          entries: seq<DirEntry>, n: u64, partial: seq<byte>)
    requires |bodies| == |entries|
    requires forall i :: 0 <= i < |bodies| ==> dec.dirEntry(bodies[i]) == Some(entries[i])
    requires |partial| < n
    requires info.offset < TWO_63 && info.offset + info.length <= |file|
    requires file[info.offset..info.offset + info.length] == FrameAll(bodies) + (PutUvarint(n) + partial)
    ensures ParseInodeDirectorySection(dec, info, file) == Err(SliceOutOfRange)
  {
    var bytes := FrameAll(bodies) + (PutUvarint(n) + partial);
    ReadSectionOf(file, info, bytes);
    assert ParseInodeDirectorySection(dec, info, file) == DirLoop(dec, bytes, map[]);
    DirLoopFrames(dec, bodies, entries, PutUvarint(n) + partial, map[]);
    DirLoopOverrun(dec, n, partial, AssignAll(entries, map[]));
  }
}
