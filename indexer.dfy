/**
 * The full scan of `analyze_all_riffs`: every chunk of every file of the session in
 * order, carrying one running frame record `vf` (pts, steer, throttle, ...) across
 * chunks and files, and recording one index entry per readable `h264` chunk; then
 * the pts normalisation pass.
 */
module Indexer {
  import opened Bytes
  import opened Container
  import opened Telemetry

  /** Payload bytes the viewer reads from each chunk. */
  const ViewerReadLimit: nat := 1024
  /** An access unit is indexed only when more payload bytes than this were read. */
  const MinIndexedPayload: nat := 16
  /** Bytes of a `pdts` payload: presentation and decode timestamps, 64 bits each. */
  const PdtsLength: nat := 16

  /** The effect of one chunk at pos on the running record and the index. */
  function IndexChunk(f: RiffFile, pos: nat, hdr: ChunkHeader, vf: VideoFrame, frames: seq<VideoFrame>)
    : (VideoFrame, seq<VideoFrame>)
  {
    if hdr.tag == TagInfo then (vf, frames)
    else if hdr.tag == TagPdts then
      var d := ReadPayload(f.contents, pos, [], ViewerReadLimit);
      if d.ok && |d.data| >= PdtsLength then
        var p := U64At(d.data, 0);
        (vf.(pts := p, time := p), frames)
      else (vf, frames)
    else if hdr.tag == TagTime then
      var d := ReadPayload(f.contents, pos, [], ViewerReadLimit);
      if d.ok then
        var st := Walk(d.data, FirstRecord, Steering(vf.steer, vf.throttle));
        (vf.(steer := st.steer, throttle := st.throttle), frames)
      else (vf, frames)
    else if hdr.tag == TagH264 then
      var d := ReadPayload(f.contents, pos, [], ViewerReadLimit);
      if d.ok && |d.data| > MinIndexedPayload then
        var e := vf.(keyframe := StartsWithKeyframe(d.data), offset := pos, size := hdr.size, index := |frames|);
        (e, frames + [e])
      else (vf, frames)
    else (vf, frames)
  }

  /**
   * Whether the chunk at pos fails its payload read. With the read limit of 1024
   * bytes such a read leaves the stream failed (FailedReadLeavesStreamFailed), so
   * the next `header_at` fails and the file's loop ends.
   */
  predicate StopsScan(f: RiffFile, pos: nat, hdr: ChunkHeader)
  {
    && (hdr.tag == TagPdts || hdr.tag == TagTime || hdr.tag == TagH264)
    && !ReadPayload(f.contents, pos, [], ViewerReadLimit).ok
  }

  /** The header loop over one file from chunk position pos. */
  function IndexFile(f: RiffFile, pos: nat, vf: VideoFrame, frames: seq<VideoFrame>)
    : (VideoFrame, seq<VideoFrame>)
    decreases if pos <= f.size then f.size - pos else 0
  {
    match HeaderAt(f.contents, f.size, pos)
    case None => (vf, frames)
    case Some(h) =>
      var r := IndexChunk(f, pos, h.header, vf, frames);
      if StopsScan(f, pos, h.header) then r
      else IndexFile(f, h.next, r.0, r.1)
  }

  /** The loop over the session's files from files[from] on; `vf.file` names the file being read. */
  function IndexFiles(files: seq<RiffFile>, from: nat, vf: VideoFrame, frames: seq<VideoFrame>)
    : (VideoFrame, seq<VideoFrame>)
    decreases |files| - from
  {
    if from >= |files| then (vf, frames)
    else
      var r := IndexFile(files[from], 0, vf.(file := from), frames);
      IndexFiles(files, from + 1, r.0, r.1)
  }

  /** e is the access unit at chunk position e.offset of file e.file, read as the scan reads it. */
  predicate IsIndexedChunk(files: seq<RiffFile>, e: VideoFrame)
  {
    && e.file < |files|
    && var f := files[e.file];
    && var h := HeaderAt(f.contents, f.size, e.offset);
    && h.Some? && h.value.header.tag == TagH264 && h.value.header.size == e.size
    && var d := ReadPayload(f.contents, e.offset, [], ViewerReadLimit);
    && d.ok && |d.data| > MinIndexedPayload
    && e.keyframe == StartsWithKeyframe(d.data)
  }

  /** Chunk a lies before chunk position pos of file fid in session order. */
  predicate Before(a: VideoFrame, fid: nat, pos: nat)
  {
    a.file < fid || (a.file == fid && a.offset < pos)
  }

  /**
   * What the scan promises of its index: each entry's index is its position, its
   * time is its pts, it is an indexed access unit, and entries follow file order.
   */
  predicate WellIndexed(files: seq<RiffFile>, frames: seq<VideoFrame>)
  {
    && (forall i :: 0 <= i < |frames| ==>
          frames[i].index == i && frames[i].time == frames[i].pts && IsIndexedChunk(files, frames[i]))
    && (forall i, j :: 0 <= i < j < |frames| ==> Before(frames[i], frames[j].file, frames[j].offset))
  }

  /** Appending an indexed access unit that comes after every entry keeps the index well formed. */
  lemma AppendWellIndexed(files: seq<RiffFile>, frames: seq<VideoFrame>, e: VideoFrame)
    requires WellIndexed(files, frames)
    requires e.index == |frames| && e.time == e.pts && IsIndexedChunk(files, e)
    requires forall i :: 0 <= i < |frames| ==> Before(frames[i], e.file, e.offset)
    ensures WellIndexed(files, frames + [e])
  {
  }

  lemma {:induction false} IndexChunkWellIndexed(files: seq<RiffFile>, fid: nat, pos: nat, h: HeaderRead,
                                                 vf: VideoFrame, frames: seq<VideoFrame>)
    requires fid < |files| && vf.file == fid && vf.time == vf.pts
    requires HeaderAt(files[fid].contents, files[fid].size, pos) == Some(h)
    requires WellIndexed(files, frames)
    requires forall i :: 0 <= i < |frames| ==> Before(frames[i], fid, pos)
    ensures var r := IndexChunk(files[fid], pos, h.header, vf, frames);
      && WellIndexed(files, r.1) && r.0.file == fid && r.0.time == r.0.pts
      && |r.1| >= |frames| && r.1[..|frames|] == frames
      && (forall i :: 0 <= i < |r.1| ==> Before(r.1[i], fid, h.next))
  {
    var f := files[fid];
    var r := IndexChunk(f, pos, h.header, vf, frames);
    var d := ReadPayload(f.contents, pos, [], ViewerReadLimit);
    if h.header.tag == TagH264 && d.ok && |d.data| > MinIndexedPayload {
      var e := vf.(keyframe := StartsWithKeyframe(d.data), offset := pos, size := h.header.size, index := |frames|);
      assert r.1 == frames + [e];
      assert IsIndexedChunk(files, e);
      AppendWellIndexed(files, frames, e);
    } else {
      assert r.1 == frames;
    }
  }

  /** One step of the header loop over a file. */
  lemma IndexFileStep(f: RiffFile, pos: nat, h: HeaderRead, vf: VideoFrame, frames: seq<VideoFrame>)
    requires HeaderAt(f.contents, f.size, pos) == Some(h)
    ensures var r := IndexChunk(f, pos, h.header, vf, frames);
      IndexFile(f, pos, vf, frames) == if StopsScan(f, pos, h.header) then r else IndexFile(f, h.next, r.0, r.1)
  {
  }

  lemma {:induction false} IndexFileWellIndexed(files: seq<RiffFile>, fid: nat, pos: nat,
                                                vf: VideoFrame, frames: seq<VideoFrame>)
    requires fid < |files| && vf.file == fid && vf.time == vf.pts
    requires WellIndexed(files, frames)
    requires forall i :: 0 <= i < |frames| ==> Before(frames[i], fid, pos)
    ensures var r := IndexFile(files[fid], pos, vf, frames);
      && WellIndexed(files, r.1) && r.0.file == fid && r.0.time == r.0.pts
      && |r.1| >= |frames| && r.1[..|frames|] == frames
      && (forall i :: 0 <= i < |r.1| ==> r.1[i].file <= fid)
    decreases if pos <= files[fid].size then files[fid].size - pos else 0
  {
    var f := files[fid];
    match HeaderAt(f.contents, f.size, pos)
    case None =>
    case Some(h) =>
      IndexChunkWellIndexed(files, fid, pos, h, vf, frames);
      var r := IndexChunk(f, pos, h.header, vf, frames);
      if !StopsScan(f, pos, h.header) {
        IndexFileWellIndexed(files, fid, h.next, r.0, r.1);
        var r2 := IndexFile(f, h.next, r.0, r.1);
        assert r2.1[..|frames|] == r2.1[..|r.1|][..|frames|];
      }
  }

  /** The whole session scan yields a well-formed index (see WellIndexed). */
  lemma {:induction false} IndexFilesWellIndexed(files: seq<RiffFile>, from: nat, vf: VideoFrame, frames: seq<VideoFrame>)
    requires vf.time == vf.pts
    requires WellIndexed(files, frames)
    requires forall i :: 0 <= i < |frames| ==> frames[i].file < from
    ensures WellIndexed(files, IndexFiles(files, from, vf, frames).1)
    decreases |files| - from
  {
    if from < |files| {
      IndexFileWellIndexed(files, from, 0, vf.(file := from), frames);
      var r := IndexFile(files[from], 0, vf.(file := from), frames);
      IndexFilesWellIndexed(files, from + 1, r.0, r.1);
    }
  }

  /** The body of the chunk loop of `analyze_all_riffs`: one chunk's effect on vf and the index. */
  method IndexOneChunk(rp: RiffFile, pos: nat, hdr: ChunkHeader, vf: VideoFrame, frames: seq<VideoFrame>)
    returns (vf': VideoFrame, frames': seq<VideoFrame>, failed: bool)
    ensures (vf', frames') == IndexChunk(rp, pos, hdr, vf, frames)
    ensures failed == StopsScan(rp, pos, hdr)
  {
    vf', frames', failed := vf, frames, false;
    var data: seq<byte> := [];
    if hdr.tag == TagInfo {
      // ignored
    } else if hdr.tag == TagPdts {
      var got;
      got, data := rp.ReadData(pos, data, ViewerReadLimit);
      failed := !got;
      if got && |data| >= PdtsLength {
        vf' := vf'.(pts := U64At(data, 0));
        vf' := vf'.(time := vf'.pts);
      }
    } else if hdr.tag == TagTime {
      var got;
      got, data := rp.ReadData(pos, data, ViewerReadLimit);
      failed := !got;
      if got {
        var st := WalkTrain(data, Steering(vf'.steer, vf'.throttle));
        vf' := vf'.(steer := st.steer, throttle := st.throttle);
      }
    } else if hdr.tag == TagH264 {
      var got;
      got, data := rp.ReadData(pos, data, ViewerReadLimit);
      failed := !got;
      if got && |data| > MinIndexedPayload {
        vf' := vf'.(keyframe := StartsWithKeyframe(data));
        vf' := vf'.(offset := pos, size := hdr.size, index := |frames'|);
        frames' := frames' + [vf'];
      }
    }
  }

  /** The chunk loops of `analyze_all_riffs` (viewtune.cpp), before normalisation. */
  method ScanRiffs(files: seq<RiffFile>) returns (frames: seq<VideoFrame>)
    ensures frames == IndexFiles(files, 0, EmptyFrame, []).1
    ensures WellIndexed(files, frames)
  {
    IndexFilesWellIndexed(files, 0, EmptyFrame, []);
    var vf := EmptyFrame;
    frames := [];
    var k := 0;
    while k < |files|
      invariant k <= |files|
      invariant IndexFiles(files, k, vf, frames) == IndexFiles(files, 0, EmptyFrame, [])
    {
      var rp := files[k];
      vf := vf.(file := k);
      ghost var start := (vf, frames);
      var pos := 0;
      while true
        invariant IndexFile(rp, pos, vf, frames) == IndexFile(rp, 0, start.0, start.1)
        decreases if pos <= rp.size then rp.size - pos else 0
      {
        var ok, hdr, nextpos := rp.ReadHeader(pos);
        if !ok {
          break;
        }
        IndexFileStep(rp, pos, HeaderRead(hdr, nextpos), vf, frames);
        var failed;
        vf, frames, failed := IndexOneChunk(rp, pos, hdr, vf, frames);
        if failed {
          // the stream's fail bit is now set: the next header_at fails
          break;
        }
        pos := nextpos;
      }
      k := k + 1;
    }
  }

  /** A chunk of the session: file position and chunk position in that file. */
  datatype Chunk = Chunk(file: nat, pos: nat)

  /**
   * The chunks the loop over file fid reads from pos on, in order: every chunk whose
   * header reads, up to the first header that does not and after none whose
   * payload read fails the stream.
   */
  function FileChunks(files: seq<RiffFile>, fid: nat, pos: nat): seq<Chunk>
    requires fid < |files|
    decreases if pos <= files[fid].size then files[fid].size - pos else 0
  {
    var f := files[fid];
    match HeaderAt(f.contents, f.size, pos)
    case None => []
    case Some(h) =>
      [Chunk(fid, pos)] + if StopsScan(f, pos, h.header) then [] else FileChunks(files, fid, h.next)
  }

  /** The chunks of files[from..], one file after another. */
  function SessionChunks(files: seq<RiffFile>, from: nat): seq<Chunk>
    decreases |files| - from
  {
    if from >= |files| then [] else FileChunks(files, from, 0) + SessionChunks(files, from + 1)
  }

  /** The header of chunk c, when it reads. */
  function HeaderOf(files: seq<RiffFile>, c: Chunk): Option<ChunkHeader>
  {
    if c.file >= |files| then None
    else match HeaderAt(files[c.file].contents, files[c.file].size, c.pos)
      case None => None
      case Some(h) => Some(h.header)
  }

  /** What `data_at(pos, data, 1024)` gives for chunk c. */
  function PayloadOf(files: seq<RiffFile>, c: Chunk): DataRead
  {
    if c.file < |files| then ReadPayload(files[c.file].contents, c.pos, [], ViewerReadLimit) else DataRead(false, [])
  }

  /** Chunk c is an `h264` chunk whose read gives more than 16 bytes: an access unit the viewer indexes. */
  predicate IsAccessUnit(files: seq<RiffFile>, c: Chunk)
  {
    && HeaderOf(files, c).Some? && HeaderOf(files, c).value.tag == TagH264
    && PayloadOf(files, c).ok && |PayloadOf(files, c).data| > MinIndexedPayload
  }

  /** The presentation timestamp chunk c carries: a `pdts` chunk read with at least 16 bytes. */
  function PdtsOf(files: seq<RiffFile>, c: Chunk): Option<u64>
  {
    var d := PayloadOf(files, c);
    if HeaderOf(files, c).Some? && HeaderOf(files, c).value.tag == TagPdts && d.ok && |d.data| >= PdtsLength
    then Some(U64At(d.data, 0))
    else None
  }

  /** The record train chunk c carries: a `time` chunk whose read succeeds. */
  function TrainOf(files: seq<RiffFile>, c: Chunk): Option<seq<byte>>
  {
    var d := PayloadOf(files, c);
    if HeaderOf(files, c).Some? && HeaderOf(files, c).value.tag == TagTime && d.ok then Some(d.data) else None
  }

  /** The pts of the last chunk of cs that carries one, or 0. */
  function LastPts(files: seq<RiffFile>, cs: seq<Chunk>): u64
  {
    if cs == [] then 0
    else match PdtsOf(files, cs[|cs| - 1])
      case Some(p) => p
      case None => LastPts(files, cs[..|cs| - 1])
  }

  /** Steer and throttle after the trains of cs in order: the last steer record's, or 0. */
  function LastSteering(files: seq<RiffFile>, cs: seq<Chunk>): Steering
  {
    if cs == [] then Steering(0, 0)
    else
      var prev := LastSteering(files, cs[..|cs| - 1]);
      match TrainOf(files, cs[|cs| - 1])
      case Some(v) => Walk(v, FirstRecord, prev)
      case None => prev
  }

  /** The positions in cs of its access units, in order. */
  function AccessUnitPositions(files: seq<RiffFile>, cs: seq<Chunk>): (ks: seq<nat>)
    ensures forall i :: 0 <= i < |ks| ==> ks[i] < |cs|
  {
    if cs == [] then []
    else AccessUnitPositions(files, cs[..|cs| - 1]) + if IsAccessUnit(files, cs[|cs| - 1]) then [|cs| - 1] else []
  }

  /**
   * The index entry for access unit c as entry i, after the chunks before: their
   * pts (as its time too) and steering, c's file and position, its header's size,
   * and whether its payload starts with the keyframe prefix.
   */
  function EntryFor(files: seq<RiffFile>, before: seq<Chunk>, c: Chunk, i: nat): VideoFrame
  {
    var p := LastPts(files, before);
    var st := LastSteering(files, before);
    var size := if HeaderOf(files, c).Some? then HeaderOf(files, c).value.size else 0;
    VideoFrame(p, p, c.pos, c.file, st.steer, st.throttle, size, i, StartsWithKeyframe(PayloadOf(files, c).data))
  }

  /** The index the chunks cs give: one EntryFor per access unit, in order. */
  function Entries(files: seq<RiffFile>, cs: seq<Chunk>): seq<VideoFrame>
  {
    if cs == [] then []
    else
      var before := cs[..|cs| - 1];
      var es := Entries(files, before);
      es + if IsAccessUnit(files, cs[|cs| - 1]) then [EntryFor(files, before, cs[|cs| - 1], |es|)] else []
  }

  /** The scan's state after reading the chunks done: its running record and its index. */
  predicate Follows(files: seq<RiffFile>, done: seq<Chunk>, vf: VideoFrame, frames: seq<VideoFrame>)
  {
    && vf.pts == LastPts(files, done) && vf.time == vf.pts
    && Steering(vf.steer, vf.throttle) == LastSteering(files, done)
    && frames == Entries(files, done)
  }

  /** One chunk's effect on the running record and the index, in terms of what the chunk carries. */
  lemma IndexChunkEffect(files: seq<RiffFile>, fid: nat, pos: nat, h: HeaderRead, vf: VideoFrame, frames: seq<VideoFrame>)
    requires fid < |files|
    requires HeaderAt(files[fid].contents, files[fid].size, pos) == Some(h)
    ensures var c := Chunk(fid, pos);
      var r := IndexChunk(files[fid], pos, h.header, vf, frames);
      var p := PdtsOf(files, c);
      var v := TrainOf(files, c);
      && r.0.file == vf.file
      && r.0.pts == (if p.Some? then p.value else vf.pts)
      && r.0.time == (if p.Some? then p.value else vf.time)
      && Steering(r.0.steer, r.0.throttle)
         == (if v.Some? then Walk(v.value, FirstRecord, Steering(vf.steer, vf.throttle)) else Steering(vf.steer, vf.throttle))
      && r.1 == frames + (if IsAccessUnit(files, c) then [r.0] else [])
      && (IsAccessUnit(files, c) ==>
            r.0 == vf.(keyframe := StartsWithKeyframe(PayloadOf(files, c).data), offset := pos, size := h.header.size, index := |frames|))
  {
    assert HeaderOf(files, Chunk(fid, pos)) == Some(h.header);
  }

  /** Reading one more chunk keeps the scan's state the state of the chunks read. */
  lemma {:induction false} IndexChunkFollows(files: seq<RiffFile>, done: seq<Chunk>, fid: nat, pos: nat, h: HeaderRead,
                                             vf: VideoFrame, frames: seq<VideoFrame>)
    requires fid < |files| && vf.file == fid
    requires HeaderAt(files[fid].contents, files[fid].size, pos) == Some(h)
    requires Follows(files, done, vf, frames)
    ensures var r := IndexChunk(files[fid], pos, h.header, vf, frames);
      Follows(files, done + [Chunk(fid, pos)], r.0, r.1) && r.0.file == fid
  {
    IndexChunkEffect(files, fid, pos, h, vf, frames);
    var done' := done + [Chunk(fid, pos)];
    assert done'[..|done'| - 1] == done;
  }

  lemma {:induction false} IndexFileFollows(files: seq<RiffFile>, done: seq<Chunk>, fid: nat, pos: nat,
                                            vf: VideoFrame, frames: seq<VideoFrame>)
    requires fid < |files| && vf.file == fid
    requires Follows(files, done, vf, frames)
    ensures var r := IndexFile(files[fid], pos, vf, frames);
      Follows(files, done + FileChunks(files, fid, pos), r.0, r.1)
    decreases if pos <= files[fid].size then files[fid].size - pos else 0
  {
    var f := files[fid];
    match HeaderAt(f.contents, f.size, pos)
    case None =>
      assert done + [] == done;
    case Some(h) =>
      var c := Chunk(fid, pos);
      IndexChunkFollows(files, done, fid, pos, h, vf, frames);
      var r := IndexChunk(f, pos, h.header, vf, frames);
      if StopsScan(f, pos, h.header) {
        assert FileChunks(files, fid, pos) == [c];
        assert IndexFile(f, pos, vf, frames) == r;
      } else {
        IndexFileFollows(files, done + [c], fid, h.next, r.0, r.1);
        assert IndexFile(f, pos, vf, frames) == IndexFile(f, h.next, r.0, r.1);
        assert FileChunks(files, fid, pos) == [c] + FileChunks(files, fid, h.next);
        ConcatAssoc(done, [c], FileChunks(files, fid, h.next));
      }
  }

  lemma {:induction false} IndexFilesFollows(files: seq<RiffFile>, done: seq<Chunk>, from: nat,
                                             vf: VideoFrame, frames: seq<VideoFrame>)
    requires Follows(files, done, vf, frames)
    ensures var r := IndexFiles(files, from, vf, frames);
      Follows(files, done + SessionChunks(files, from), r.0, r.1)
    decreases |files| - from
  {
    if from >= |files| {
      assert done + [] == done;
    } else {
      var vf0 := vf.(file := from);
      IndexFileFollows(files, done, from, 0, vf0, frames);
      var r := IndexFile(files[from], 0, vf0, frames);
      var done' := done + FileChunks(files, from, 0);
      IndexFilesFollows(files, done', from + 1, r.0, r.1);
      SessionChunksSplit(files, done, from);
      IndexFilesUnfold(files, from, vf, frames);
    }
  }

  lemma SessionChunksSplit(files: seq<RiffFile>, done: seq<Chunk>, from: nat)
    requires from < |files|
    ensures done + SessionChunks(files, from) == (done + FileChunks(files, from, 0)) + SessionChunks(files, from + 1)
  {
    ConcatAssoc(done, FileChunks(files, from, 0), SessionChunks(files, from + 1));
  }

  lemma IndexFilesUnfold(files: seq<RiffFile>, from: nat, vf: VideoFrame, frames: seq<VideoFrame>)
    requires from < |files|
    ensures var r := IndexFile(files[from], 0, vf.(file := from), frames);
      IndexFiles(files, from, vf, frames) == IndexFiles(files, from + 1, r.0, r.1)
  {
  }


  /** The session scan's index is the index of the chunks it reads. */
  lemma IndexFilesGivesEntries(files: seq<RiffFile>)
    ensures IndexFiles(files, 0, EmptyFrame, []).1 == Entries(files, SessionChunks(files, 0))
  {
    IndexFilesFollows(files, [], 0, EmptyFrame, []);
    assert [] + SessionChunks(files, 0) == SessionChunks(files, 0);
  }

  /** AccessUnitPositions lists every access unit of cs, and nothing else, in increasing order. */
  lemma {:induction false} AccessUnitPositionsExact(files: seq<RiffFile>, cs: seq<Chunk>)
    ensures var ks := AccessUnitPositions(files, cs);
      && (forall i, j :: 0 <= i < j < |ks| ==> ks[i] < ks[j])
      && (forall k :: 0 <= k < |cs| ==> (IsAccessUnit(files, cs[k]) <==> k in ks))
  {
    if cs != [] {
      var pre := cs[..|cs| - 1];
      AccessUnitPositionsExact(files, pre);
      forall k | 0 <= k < |pre| ensures cs[k] == pre[k] { }
    }
  }

  /** Entries has one entry per access unit of cs. */
  lemma {:induction false} EntriesCount(files: seq<RiffFile>, cs: seq<Chunk>)
    ensures |Entries(files, cs)| == |AccessUnitPositions(files, cs)|
  {
    if cs != [] {
      EntriesCount(files, cs[..|cs| - 1]);
    }
  }

  /** Entry i of Entries is EntryFor the i-th access unit of cs, after the chunks before it. */
  lemma {:induction false} EntryAt(files: seq<RiffFile>, cs: seq<Chunk>, i: nat)
    requires i < |AccessUnitPositions(files, cs)|
    ensures var ks := AccessUnitPositions(files, cs);
      i < |Entries(files, cs)| && Entries(files, cs)[i] == EntryFor(files, cs[..ks[i]], cs[ks[i]], i)
  {
    var pre := cs[..|cs| - 1];
    var ks := AccessUnitPositions(files, pre);
    var ks' := AccessUnitPositions(files, cs);
    EntriesCount(files, pre);
    EntriesCount(files, cs);
    assert ks'[..|ks|] == ks;
    if i < |ks| {
      EntryAt(files, pre, i);
      assert ks'[i] == ks[i];
      assert cs[..ks[i]] == pre[..ks[i]];
      assert cs[ks[i]] == pre[ks[i]];
      assert Entries(files, cs)[i] == Entries(files, pre)[i];
    }
  }

  /** Entries has one entry per access unit of cs: entry i is EntryFor the i-th, after the chunks before it. */
  lemma EntriesAreAccessUnits(files: seq<RiffFile>, cs: seq<Chunk>)
    ensures var ks := AccessUnitPositions(files, cs);
      var es := Entries(files, cs);
      && |es| == |ks|
      && forall i :: 0 <= i < |es| ==> es[i] == EntryFor(files, cs[..ks[i]], cs[ks[i]], i)
  {
    EntriesCount(files, cs);
    var ks := AccessUnitPositions(files, cs);
    forall i | 0 <= i < |ks| ensures Entries(files, cs)[i] == EntryFor(files, cs[..ks[i]], cs[ks[i]], i) {
      EntryAt(files, cs, i);
    }
  }

  /**
   * The session scan indexes exactly the access units among the chunks it reads, in
   * order: entry i is the i-th access unit, with the pts of the last `pdts` chunk
   * before it and the steering of the steer records before it, carried across files.
   */
  lemma IndexFilesIndexesEveryAccessUnit(files: seq<RiffFile>)
    ensures var cs := SessionChunks(files, 0);
      var ks := AccessUnitPositions(files, cs);
      var frames := IndexFiles(files, 0, EmptyFrame, []).1;
      && |frames| == |ks|
      && (forall k :: 0 <= k < |cs| ==> (IsAccessUnit(files, cs[k]) <==> k in ks))
      && forall i :: 0 <= i < |frames| ==> frames[i] == EntryFor(files, cs[..ks[i]], cs[ks[i]], i)
  {
    IndexFilesGivesEntries(files);
    EntriesAreAccessUnits(files, SessionChunks(files, 0));
    AccessUnitPositionsExact(files, SessionChunks(files, 0));
  }

  /** LastPts is 0 when no chunk of cs carries a pts. */
  lemma {:induction false} LastPtsWithoutPdts(files: seq<RiffFile>, cs: seq<Chunk>)
    requires forall k :: 0 <= k < |cs| ==> PdtsOf(files, cs[k]).None?
    ensures LastPts(files, cs) == 0
  {
    if cs != [] {
      var pre := cs[..|cs| - 1];
      assert forall k :: 0 <= k < |pre| ==> pre[k] == cs[k];
      LastPtsWithoutPdts(files, pre);
    }
  }

  /** LastPts is the pts of the last chunk of cs that carries one. */
  lemma {:induction false} LastPtsIsLastPdts(files: seq<RiffFile>, cs: seq<Chunk>, k: nat)
    requires k < |cs| && PdtsOf(files, cs[k]).Some?
    requires forall j :: k < j < |cs| ==> PdtsOf(files, cs[j]).None?
    ensures LastPts(files, cs) == PdtsOf(files, cs[k]).value
  {
    if k < |cs| - 1 {
      var pre := cs[..|cs| - 1];
      assert forall j :: k <= j < |pre| ==> pre[j] == cs[j];
      LastPtsIsLastPdts(files, pre, k);
    }
  }


  /** Chunk c reads no steer record: it has no train, or its walk reads no 'S' record. */
  predicate QuietChunk(files: seq<RiffFile>, c: Chunk)
  {
    match TrainOf(files, c)
    case None => true
    case Some(v) => forall i :: 0 <= i < |Visited(v, FirstRecord)| ==> !IsSteerRecord(v, Visited(v, FirstRecord)[i])
  }

  /** Chunks that read no steer record leave the steering as it was. */
  lemma {:induction false} LastSteeringSkipsQuiet(files: seq<RiffFile>, cs: seq<Chunk>, n: nat)
    requires n <= |cs|
    requires forall j :: n <= j < |cs| ==> QuietChunk(files, cs[j])
    ensures LastSteering(files, cs) == LastSteering(files, cs[..n])
  {
    if n < |cs| {
      var pre := cs[..|cs| - 1];
      assert forall j :: n <= j < |pre| ==> pre[j] == cs[j];
      LastSteeringSkipsQuiet(files, pre, n);
      assert pre[..n] == cs[..n];
      match TrainOf(files, cs[|cs| - 1])
      case None =>
      case Some(v) => WalkWithoutSteer(v, FirstRecord, LastSteering(files, pre));
    } else {
      assert cs[..n] == cs;
    }
  }

  /** With no steer record in cs, the steering stays 0. */
  lemma LastSteeringWithoutSteer(files: seq<RiffFile>, cs: seq<Chunk>)
    requires forall j :: 0 <= j < |cs| ==> QuietChunk(files, cs[j])
    ensures LastSteering(files, cs) == Steering(0, 0)
  {
    LastSteeringSkipsQuiet(files, cs, 0);
  }

  /**
   * The steering after cs is that of its last steer record: record r of the train
   * of chunk k, when no later record of that train and no later chunk has one.
   */
  lemma LastSteeringIsLastSteer(files: seq<RiffFile>, cs: seq<Chunk>, k: nat, r: nat)
    requires k < |cs| && TrainOf(files, cs[k]).Some?
    requires var v := TrainOf(files, cs[k]).value;
      && r < |Visited(v, FirstRecord)| && IsSteerRecord(v, Visited(v, FirstRecord)[r])
      && forall q :: r < q < |Visited(v, FirstRecord)| ==> !IsSteerRecord(v, Visited(v, FirstRecord)[q])
    requires forall j :: k < j < |cs| ==> QuietChunk(files, cs[j])
    ensures var v := TrainOf(files, cs[k]).value;
      LastSteering(files, cs) == SteerAt(v, Visited(v, FirstRecord)[r])
  {
    LastSteeringSkipsQuiet(files, cs, k + 1);
    var upto := cs[..k + 1];
    assert upto[..|upto| - 1] == cs[..k];
    assert upto[|upto| - 1] == cs[k];
    var v := TrainOf(files, cs[k]).value;
    WalkTakesLastSteer(v, FirstRecord, LastSteering(files, cs[..k]), r);
  }

  /** Timestamps with the top bit set (and 0) are not real timestamps. */
  const PtsInvalidFrom: nat := 0x8000_0000_0000_0000

  predicate HasValidPts(e: VideoFrame)
  {
    e.pts != 0 && e.pts < PtsInvalidFrom
  }

  /** The normalisation offset: max(pts[0], pts[1]) for two frames or more, else 0. */
  function PtsOffset(frames: seq<VideoFrame>): (r: u64)
    ensures |frames| < 2 ==> r == 0
    ensures |frames| >= 2 ==> r >= frames[0].pts && r >= frames[1].pts && (r == frames[0].pts || r == frames[1].pts)
  {
    if |frames| > 1 then (if frames[0].pts >= frames[1].pts then frames[0].pts else frames[1].pts) else 0
  }

  /** The running `prev` on reaching entry i: the normalised pts of the last valid entry before i, else 0. */
  function PrevPts(frames: seq<VideoFrame>, off: u64, i: nat): u64
    requires i <= |frames|
  {
    if i == 0 then 0
    else if HasValidPts(frames[i - 1]) then SubU64(frames[i - 1].pts, off)
    else PrevPts(frames, off, i - 1)
  }

  /** Entry i after normalisation with offset off. */
  function NormalizedAt(frames: seq<VideoFrame>, off: u64, i: nat): VideoFrame
    requires i < |frames|
  {
    var e := frames[i];
    if HasValidPts(e) then e.(pts := SubU64(e.pts, off), time := SubU64(e.time, off))
    else
      var p := PrevPts(frames, off, i);
      e.(pts := p, time := p)
  }

  /**
   * The normalisation loop: valid entries have the offset subtracted (modulo 2^64)
   * from pts and time; other entries take the previous normalised pts as both.
   */
  method NormalizePts(frames: seq<VideoFrame>) returns (out: seq<VideoFrame>)
    ensures |out| == |frames|
    ensures forall i :: 0 <= i < |frames| ==> out[i] == NormalizedAt(frames, PtsOffset(frames), i)
  {
    var ptsOffset := 0;
    if |frames| > 1 {
      ptsOffset := if frames[0].pts >= frames[1].pts then frames[0].pts else frames[1].pts;
    }
    var prev: u64 := 0;
    out := frames;
    var i := 0;
    while i < |out|
      invariant i <= |out| == |frames|
      invariant prev == PrevPts(frames, ptsOffset, i)
      invariant forall j :: 0 <= j < i ==> out[j] == NormalizedAt(frames, ptsOffset, j)
      invariant forall j :: i <= j < |out| ==> out[j] == frames[j]
    {
      var frm := out[i];
      if frm.pts != 0 && frm.pts < PtsInvalidFrom {
        frm := frm.(pts := SubU64(frm.pts, ptsOffset), time := SubU64(frm.time, ptsOffset));
        prev := frm.pts;
      } else {
        frm := frm.(pts := prev, time := prev);
      }
      out := out[i := frm];
      i := i + 1;
    }
  }

  /**
   * `prev` is the normalised pts of the last valid entry before i (every entry
   * between them is invalid), or 0 when no entry before i is valid.
   */
  lemma {:induction false} PrevPtsIsLastValid(frames: seq<VideoFrame>, off: u64, i: nat)
    requires i <= |frames|
    ensures (forall j :: 0 <= j < i ==> !HasValidPts(frames[j])) ==> PrevPts(frames, off, i) == 0
    ensures forall j :: 0 <= j < i && HasValidPts(frames[j]) && (forall k :: j < k < i ==> !HasValidPts(frames[k])) ==>
      PrevPts(frames, off, i) == NormalizedAt(frames, off, j).pts
  {
    if i > 0 && !HasValidPts(frames[i - 1]) {
      PrevPtsIsLastValid(frames, off, i - 1);
    }
  }

  /** An entry whose time equals its pts still does after normalisation. */
  lemma NormalizedKeepsTimeIsPts(frames: seq<VideoFrame>, off: u64, i: nat)
    requires i < |frames| && frames[i].time == frames[i].pts
    ensures NormalizedAt(frames, off, i).time == NormalizedAt(frames, off, i).pts
  {
  }

  /** `analyze_all_riffs` without its progress window: scan, then normalise. */
  method AnalyzeAllRiffs(files: seq<RiffFile>) returns (frames: seq<VideoFrame>)
    ensures var raw := IndexFiles(files, 0, EmptyFrame, []).1;
      && |frames| == |raw|
      && (forall i :: 0 <= i < |raw| ==> frames[i] == NormalizedAt(raw, PtsOffset(raw), i))
    ensures forall i :: 0 <= i < |frames| ==> frames[i].time == frames[i].pts && frames[i].index == i
  {
    var raw := ScanRiffs(files);
    frames := NormalizePts(raw);
  }
}
