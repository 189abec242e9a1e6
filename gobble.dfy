/**
 * The batch decoder's indexing: the per-file splitter that turns keyframe positions
 * into byte ranges (`RiffFileWork::work`), and the per-range re-scan that rebuilds a
 * local frame index for one range (`KeyframeWork::work`, `KeyframeWork::next_frame`).
 */
module Gobble {
  import opened Bytes
  import opened Container
  import opened Telemetry

  /** Payload bytes the range re-scan reads from each chunk. */
  const ProbeReadLimit: nat := 256
  /** Payload bytes the splitter peeks at to classify an access unit. */
  const PeekLength: nat := 16
  /** A `pdts` timestamp that never replaces the running pts (besides 0). */
  const NoPts: nat := 0x8000_0000_0000_0000
  /** Bytes of a `pdts` payload the re-scan needs: one 64-bit timestamp. */
  const PtsLength: nat := 8

  /** The running values of the re-scan: pts and steer/throttle. */
  datatype Running = Running(pts: u64, steering: Steering)

  const Start := Running(0, Steering(0, 0))

  /** One chunk of the re-scan: update the running values, or append an entry for `h264`. */
  function ScanChunk(fileId: nat, pos: nat, hdr: ChunkHeader, v: seq<byte>, run: Running, frames: seq<VideoFrame>)
    : (Running, seq<VideoFrame>)
  {
    if hdr.tag == TagTime then
      (run.(steering := Walk(v, FirstRecord, run.steering)), frames)
    else if hdr.tag == TagPdts then
      if |v| >= PtsLength then
        var p := U64At(v, 0);
        if p != 0 && p != NoPts then (run.(pts := p), frames) else (run, frames)
      else (run, frames)
    else if hdr.tag == TagH264 then
      var vf := VideoFrame(run.pts, run.pts, pos, fileId, run.steering.steer, run.steering.throttle,
                           hdr.size, |frames|, |frames| == 0);
      (run, frames + [vf])
    else (run, frames)
  }

  /**
   * The re-scan loop from pos while pos < end, stopping at the first failed read. Each
   * step is `data_header_at(pos, ch, v, 256)`, which no file of the source defines; it
   * is taken to be `header_at` followed by `data_at(pos, v, 256)` into an empty buffer,
   * failing if either fails.
   */
  function ScanRange(f: RiffFile, fileId: nat, pos: nat, end: nat, run: Running, frames: seq<VideoFrame>)
    : seq<VideoFrame>
    decreases if pos <= f.size then f.size - pos else 0
  {
    if pos >= end then frames
    else
      match HeaderAt(f.contents, f.size, pos)
      case None => frames
      case Some(h) =>
        var d := ReadPayload(f.contents, pos, [], ProbeReadLimit);
        if !d.ok then frames
        else
          var r := ScanChunk(fileId, pos, h.header, d.data, run, frames);
          ScanRange(f, fileId, h.next, end, r.0, r.1)
  }

  /** One successful step of the re-scan. */
  lemma ScanRangeStep(f: RiffFile, fileId: nat, pos: nat, end: nat, run: Running, frames: seq<VideoFrame>,
                      h: HeaderRead, v: seq<byte>)
    requires pos < end && HeaderAt(f.contents, f.size, pos) == Some(h)
    requires ReadPayload(f.contents, pos, [], ProbeReadLimit) == DataRead(true, v)
    ensures var r := ScanChunk(fileId, pos, h.header, v, run, frames);
      ScanRange(f, fileId, pos, end, run, frames) == ScanRange(f, fileId, h.next, end, r.0, r.1)
  {
  }

  /** The entry is the access unit at chunk position e.offset of f, inside [start, end). */
  predicate IsRangeChunk(f: RiffFile, start: nat, end: nat, e: VideoFrame)
  {
    && start <= e.offset < end
    && var h := HeaderAt(f.contents, f.size, e.offset);
    && h.Some? && h.value.header.tag == TagH264 && h.value.header.size == e.size
  }

  /**
   * What the re-scan promises of its frames: index is the position, only the first
   * entry is a keyframe, time equals pts, pts is never the 0x8000000000000000 marker,
   * every entry is an access unit of the range, and chunk positions increase.
   */
  predicate RangeIndexed(f: RiffFile, fileId: nat, start: nat, end: nat, frames: seq<VideoFrame>)
  {
    && (forall i :: 0 <= i < |frames| ==>
          && frames[i].index == i && frames[i].keyframe == (i == 0)
          && frames[i].time == frames[i].pts && frames[i].pts != NoPts
          && frames[i].file == fileId && IsRangeChunk(f, start, end, frames[i]))
    && (forall i, j :: 0 <= i < j < |frames| ==> frames[i].offset < frames[j].offset)
  }

  /** One chunk keeps the re-scan's promises and only ever appends. */
  lemma ScanChunkIndexed(f: RiffFile, fileId: nat, start: nat, end: nat, pos: nat, hdr: ChunkHeader,
                         v: seq<byte>, run: Running, frames: seq<VideoFrame>)
    requires start <= pos < end && run.pts != NoPts
    requires HeaderAt(f.contents, f.size, pos).Some? && HeaderAt(f.contents, f.size, pos).value.header == hdr
    requires RangeIndexed(f, fileId, start, end, frames)
    requires forall i :: 0 <= i < |frames| ==> frames[i].offset < pos
    ensures var r := ScanChunk(fileId, pos, hdr, v, run, frames);
      && r.0.pts != NoPts && RangeIndexed(f, fileId, start, end, r.1)
      && |r.1| >= |frames| && r.1[..|frames|] == frames
      && forall i :: 0 <= i < |r.1| ==> r.1[i].offset <= pos
  {
    var r := ScanChunk(fileId, pos, hdr, v, run, frames);
    if hdr.tag == TagH264 {
      var vf := r.1[|frames|];
      assert r.1 == frames + [vf];
      assert IsRangeChunk(f, start, end, vf);
    } else {
      assert r.1 == frames;
    }
  }

  lemma {:induction false} ScanRangeIndexed(f: RiffFile, fileId: nat, start: nat, pos: nat, end: nat,
                                            run: Running, frames: seq<VideoFrame>)
    requires start <= pos && run.pts != NoPts
    requires RangeIndexed(f, fileId, start, end, frames)
    requires forall i :: 0 <= i < |frames| ==> frames[i].offset < pos
    ensures var out := ScanRange(f, fileId, pos, end, run, frames);
      RangeIndexed(f, fileId, start, end, out) && |out| >= |frames| && out[..|frames|] == frames
    decreases if pos <= f.size then f.size - pos else 0
  {
    if pos < end {
      match HeaderAt(f.contents, f.size, pos)
      case None =>
      case Some(h) =>
        var d := ReadPayload(f.contents, pos, [], ProbeReadLimit);
        if d.ok {
          var r := ScanChunk(fileId, pos, h.header, d.data, run, frames);
          ScanChunkIndexed(f, fileId, start, end, pos, h.header, d.data, run, frames);
          ScanRangeIndexed(f, fileId, start, h.next, end, r.0, r.1);
          var out := ScanRange(f, fileId, h.next, end, r.0, r.1);
          assert out[..|frames|] == out[..|r.1|][..|frames|];
        }
    }
  }

  /**
   * The chunk positions the re-scan reads from pos while pos < end, in order: each
   * chunk whose header and payload read, up to the first that does not.
   */
  function RangeChunks(f: RiffFile, pos: nat, end: nat): seq<nat>
    decreases if pos <= f.size then f.size - pos else 0
  {
    if pos >= end then []
    else
      match HeaderAt(f.contents, f.size, pos)
      case None => []
      case Some(h) =>
        if !ReadPayload(f.contents, pos, [], ProbeReadLimit).ok then []
        else [pos] + RangeChunks(f, h.next, end)
  }

  /** The header of the chunk at q, when it reads. */
  function ProbeHeader(f: RiffFile, q: nat): Option<ChunkHeader>
  {
    match HeaderAt(f.contents, f.size, q)
    case None => None
    case Some(h) => Some(h.header)
  }

  /** The up to 256 payload bytes the re-scan reads at q. */
  function Probe(f: RiffFile, q: nat): seq<byte>
  {
    ReadPayload(f.contents, q, [], ProbeReadLimit).data
  }

  /** The pts the chunk at q sets: a `pdts` chunk of at least 8 bytes whose value is neither 0 nor 2^63. */
  function ProbedPts(f: RiffFile, q: nat): Option<u64>
  {
    var v := Probe(f, q);
    if ProbeHeader(f, q).Some? && ProbeHeader(f, q).value.tag == TagPdts && |v| >= PtsLength
       && U64At(v, 0) != 0 && U64At(v, 0) != NoPts
    then Some(U64At(v, 0))
    else None
  }

  /** The record train of the chunk at q, when it is a `time` chunk. */
  function ProbedTrain(f: RiffFile, q: nat): Option<seq<byte>>
  {
    if ProbeHeader(f, q).Some? && ProbeHeader(f, q).value.tag == TagTime then Some(Probe(f, q)) else None
  }

  predicate IsProbedAccessUnit(f: RiffFile, q: nat)
  {
    ProbeHeader(f, q).Some? && ProbeHeader(f, q).value.tag == TagH264
  }

  /** The pts set by the last chunk of ps that sets one, or 0. */
  function RangePts(f: RiffFile, ps: seq<nat>): u64
  {
    if ps == [] then 0
    else match ProbedPts(f, ps[|ps| - 1])
      case Some(p) => p
      case None => RangePts(f, ps[..|ps| - 1])
  }

  /** Steer and throttle after the trains of ps in order. */
  function RangeSteering(f: RiffFile, ps: seq<nat>): Steering
  {
    if ps == [] then Steering(0, 0)
    else
      var prev := RangeSteering(f, ps[..|ps| - 1]);
      match ProbedTrain(f, ps[|ps| - 1])
      case Some(v) => Walk(v, FirstRecord, prev)
      case None => prev
  }

  /** The indices in ps of its `h264` chunks, in order. */
  function RangeAccessUnits(f: RiffFile, ps: seq<nat>): (ks: seq<nat>)
    ensures forall i :: 0 <= i < |ks| ==> ks[i] < |ps|
  {
    if ps == [] then []
    else RangeAccessUnits(f, ps[..|ps| - 1]) + if IsProbedAccessUnit(f, ps[|ps| - 1]) then [|ps| - 1] else []
  }

  /**
   * The re-scan's entry i for the `h264` chunk at q, after the chunks before: their
   * pts (as its time too) and steering, position q, the header's size, and a
   * keyframe flag set on the first entry only.
   */
  function RangeEntryFor(f: RiffFile, fileId: nat, before: seq<nat>, q: nat, i: nat): VideoFrame
  {
    var p := RangePts(f, before);
    var st := RangeSteering(f, before);
    var size := if ProbeHeader(f, q).Some? then ProbeHeader(f, q).value.size else 0;
    VideoFrame(p, p, q, fileId, st.steer, st.throttle, size, i, i == 0)
  }

  /** The frames the chunks ps give: one RangeEntryFor per `h264` chunk, in order. */
  function RangeEntries(f: RiffFile, fileId: nat, ps: seq<nat>): seq<VideoFrame>
  {
    if ps == [] then []
    else
      var before := ps[..|ps| - 1];
      var es := RangeEntries(f, fileId, before);
      es + if IsProbedAccessUnit(f, ps[|ps| - 1]) then [RangeEntryFor(f, fileId, before, ps[|ps| - 1], |es|)] else []
  }

  /** One read chunk's effect, in terms of what the chunk carries. */
  lemma ScanChunkEffect(f: RiffFile, fileId: nat, pos: nat, h: HeaderRead, run: Running, frames: seq<VideoFrame>)
    requires HeaderAt(f.contents, f.size, pos) == Some(h)
    ensures var r := ScanChunk(fileId, pos, h.header, Probe(f, pos), run, frames);
      var p := ProbedPts(f, pos);
      var v := ProbedTrain(f, pos);
      && r.0.pts == (if p.Some? then p.value else run.pts)
      && r.0.steering == (if v.Some? then Walk(v.value, FirstRecord, run.steering) else run.steering)
      && r.1 == frames + if IsProbedAccessUnit(f, pos) then
           [VideoFrame(run.pts, run.pts, pos, fileId, run.steering.steer, run.steering.throttle, h.header.size, |frames|, |frames| == 0)]
         else []
  {
    assert ProbeHeader(f, pos) == Some(h.header);
  }

  lemma {:induction false} ScanRangeFollows(f: RiffFile, fileId: nat, done: seq<nat>, pos: nat, end: nat,
                                            run: Running, frames: seq<VideoFrame>)
    requires run == Running(RangePts(f, done), RangeSteering(f, done))
    requires frames == RangeEntries(f, fileId, done)
    ensures ScanRange(f, fileId, pos, end, run, frames) == RangeEntries(f, fileId, done + RangeChunks(f, pos, end))
    decreases if pos <= f.size then f.size - pos else 0
  {
    if pos >= end {
      assert done + [] == done;
    } else {
      match HeaderAt(f.contents, f.size, pos)
      case None =>
        assert done + [] == done;
      case Some(h) =>
        if !ReadPayload(f.contents, pos, [], ProbeReadLimit).ok {
          assert done + [] == done;
        } else {
          ScanChunkEffect(f, fileId, pos, h, run, frames);
          var r := ScanChunk(fileId, pos, h.header, Probe(f, pos), run, frames);
          var done' := done + [pos];
          assert done'[..|done'| - 1] == done;
          ScanRangeFollows(f, fileId, done', h.next, end, r.0, r.1);
          RangeChunksSplit(f, done, pos, end, h);
        }
    }
  }

  lemma RangeChunksSplit(f: RiffFile, done: seq<nat>, pos: nat, end: nat, h: HeaderRead)
    requires pos < end && HeaderAt(f.contents, f.size, pos) == Some(h)
    requires ReadPayload(f.contents, pos, [], ProbeReadLimit).ok
    ensures done + RangeChunks(f, pos, end) == (done + [pos]) + RangeChunks(f, h.next, end)
  {
    assert RangeChunks(f, pos, end) == [pos] + RangeChunks(f, h.next, end);
  }

  /** RangeAccessUnits lists every `h264` chunk of ps, and nothing else, in increasing order. */
  lemma {:induction false} RangeAccessUnitsExact(f: RiffFile, ps: seq<nat>)
    ensures var ks := RangeAccessUnits(f, ps);
      && (forall i, j :: 0 <= i < j < |ks| ==> ks[i] < ks[j])
      && (forall k :: 0 <= k < |ps| ==> (IsProbedAccessUnit(f, ps[k]) <==> k in ks))
  {
    if ps != [] {
      var pre := ps[..|ps| - 1];
      RangeAccessUnitsExact(f, pre);
      forall k | 0 <= k < |pre| ensures ps[k] == pre[k] { }
    }
  }

  /** RangeEntries has one entry per `h264` chunk of ps: entry i is RangeEntryFor the i-th. */
  lemma {:induction false} RangeEntriesAreAccessUnits(f: RiffFile, fileId: nat, ps: seq<nat>)
    ensures var ks := RangeAccessUnits(f, ps);
      var es := RangeEntries(f, fileId, ps);
      && |es| == |ks|
      && forall i :: 0 <= i < |es| ==> es[i] == RangeEntryFor(f, fileId, ps[..ks[i]], ps[ks[i]], i)
  {
    if ps != [] {
      var pre := ps[..|ps| - 1];
      RangeEntriesAreAccessUnits(f, fileId, pre);
      var ks := RangeAccessUnits(f, pre);
      forall i | 0 <= i < |ks| ensures ps[..ks[i]] == pre[..ks[i]] && ps[ks[i]] == pre[ks[i]] { }
    }
  }

  /**
   * The re-scan of a range yields one entry per `h264` chunk it reads, in order:
   * entry i has the pts of the last `pdts` chunk before it that is neither 0 nor
   * 2^63 (else 0), the steering of the steer records before it, and is a keyframe
   * exactly when it is the first.
   */
  lemma ScanRangeIndexesEveryAccessUnit(f: RiffFile, fileId: nat, pos: nat, end: nat)
    ensures var ps := RangeChunks(f, pos, end);
      var ks := RangeAccessUnits(f, ps);
      var out := ScanRange(f, fileId, pos, end, Start, []);
      && |out| == |ks|
      && (forall k :: 0 <= k < |ps| ==> (IsProbedAccessUnit(f, ps[k]) <==> k in ks))
      && forall i :: 0 <= i < |out| ==> out[i] == RangeEntryFor(f, fileId, ps[..ks[i]], ps[ks[i]], i)
  {
    ScanRangeFollows(f, fileId, [], pos, end, Start, []);
    assert [] + RangeChunks(f, pos, end) == RangeChunks(f, pos, end);
    RangeEntriesAreAccessUnits(f, fileId, RangeChunks(f, pos, end));
    RangeAccessUnitsExact(f, RangeChunks(f, pos, end));
  }

  /** RangePts is 0 when no chunk of ps sets a pts. */
  lemma {:induction false} RangePtsWithoutPdts(f: RiffFile, ps: seq<nat>)
    requires forall k :: 0 <= k < |ps| ==> ProbedPts(f, ps[k]).None?
    ensures RangePts(f, ps) == 0
  {
    if ps != [] {
      var pre := ps[..|ps| - 1];
      assert forall k :: 0 <= k < |pre| ==> pre[k] == ps[k];
      RangePtsWithoutPdts(f, pre);
    }
  }

  /** RangePts is the pts of the last chunk of ps that sets one. */
  lemma {:induction false} RangePtsIsLastPdts(f: RiffFile, ps: seq<nat>, k: nat)
    requires k < |ps| && ProbedPts(f, ps[k]).Some?
    requires forall j :: k < j < |ps| ==> ProbedPts(f, ps[j]).None?
    ensures RangePts(f, ps) == ProbedPts(f, ps[k]).value
  {
    if k < |ps| - 1 {
      var pre := ps[..|ps| - 1];
      assert forall j :: k <= j < |pre| ==> pre[j] == ps[j];
      RangePtsIsLastPdts(f, pre, k);
    }
  }

  /** The chunk at q reads no steer record: it is not a `time` chunk, or its walk reads no 'S' record. */
  predicate QuietProbe(f: RiffFile, q: nat)
  {
    match ProbedTrain(f, q)
    case None => true
    case Some(v) => forall i :: 0 <= i < |Visited(v, FirstRecord)| ==> !IsSteerRecord(v, Visited(v, FirstRecord)[i])
  }

  /** Chunks that read no steer record leave the steering as it was. */
  lemma {:induction false} RangeSteeringSkipsQuiet(f: RiffFile, ps: seq<nat>, n: nat)
    requires n <= |ps|
    requires forall j :: n <= j < |ps| ==> QuietProbe(f, ps[j])
    ensures RangeSteering(f, ps) == RangeSteering(f, ps[..n])
  {
    if n < |ps| {
      var pre := ps[..|ps| - 1];
      assert forall j :: n <= j < |pre| ==> pre[j] == ps[j];
      RangeSteeringSkipsQuiet(f, pre, n);
      assert pre[..n] == ps[..n];
      match ProbedTrain(f, ps[|ps| - 1])
      case None =>
      case Some(v) => WalkWithoutSteer(v, FirstRecord, RangeSteering(f, pre));
    } else {
      assert ps[..n] == ps;
    }
  }

  /**
   * The steering after ps is that of its last steer record: record r of the train
   * of chunk k, when no later record of that train and no later chunk has one.
   */
  lemma RangeSteeringIsLastSteer(f: RiffFile, ps: seq<nat>, k: nat, r: nat)
    requires k < |ps| && ProbedTrain(f, ps[k]).Some?
    requires var v := ProbedTrain(f, ps[k]).value;
      && r < |Visited(v, FirstRecord)| && IsSteerRecord(v, Visited(v, FirstRecord)[r])
      && forall q :: r < q < |Visited(v, FirstRecord)| ==> !IsSteerRecord(v, Visited(v, FirstRecord)[q])
    requires forall j :: k < j < |ps| ==> QuietProbe(f, ps[j])
    ensures var v := ProbedTrain(f, ps[k]).value;
      RangeSteering(f, ps) == SteerAt(v, Visited(v, FirstRecord)[r])
  {
    RangeSteeringSkipsQuiet(f, ps, k + 1);
    var upto := ps[..k + 1];
    assert upto[..|upto| - 1] == ps[..k];
    assert upto[|upto| - 1] == ps[k];
    var v := ProbedTrain(f, ps[k]).value;
    WalkTakesLastSteer(v, FirstRecord, RangeSteering(f, ps[..k]), r);
  }

  /** `KeyframeWork::next_frame`: the entry after fr in the work's frames, or None after the last. */
  function NextFrame(frames: seq<VideoFrame>, fr: VideoFrame): Option<VideoFrame>
  {
    if fr.index + 1 < |frames| then Some(frames[fr.index + 1]) else None
  }

  /** On an index whose entries carry their positions, next_frame walks the entries in order. */
  lemma NextFrameWalksInOrder(frames: seq<VideoFrame>, i: nat)
    requires i < |frames| && forall j :: 0 <= j < |frames| ==> frames[j].index == j
    ensures i + 1 < |frames| ==> NextFrame(frames, frames[i]) == Some(frames[i + 1])
    ensures i + 1 == |frames| ==> NextFrame(frames, frames[i]) == None
  {
  }

  /** One decode task: a byte range of one file and the frames its re-scan finds. */
  class KeyframeWork {
    const file: RiffFile
    const fileId: nat
    const offset: nat
    const end: nat
    var frames: seq<VideoFrame>

    constructor (file: RiffFile, fileId: nat, offset: nat, end: nat)
      ensures this.file == file && this.fileId == fileId && this.offset == offset && this.end == end
      ensures frames == []
    {
      this.file := file;
      this.fileId := fileId;
      this.offset := offset;
      this.end := end;
      frames := [];
    }

    /** The scan part of `KeyframeWork::work`; the decode that follows it is not modelled. */
    method Work()
      modifies this
      ensures frames == ScanRange(file, fileId, offset, end, Start, old(frames))
    {
      var run := Start;
      var pos := offset;
      while pos < end
        invariant ScanRange(file, fileId, pos, end, run, frames) == ScanRange(file, fileId, offset, end, Start, old(frames))
        decreases if pos <= file.size then file.size - pos else 0
      {
        var ok1, ch, opos := file.ReadHeader(pos);
        if !ok1 {
          break;
        }
        var ok2, v := file.ReadData(pos, [], ProbeReadLimit);
        if !ok2 {
          break;
        }
        ScanRangeStep(file, fileId, pos, end, run, frames, HeaderRead(ch, opos), v);
        run, frames := ScanOneChunk(fileId, pos, ch, v, run, frames);
        pos := opos;
      }
    }
  }

  /** The body of the re-scan loop: one chunk's effect on the running values and the frames. */
  method ScanOneChunk(fileId: nat, pos: nat, ch: ChunkHeader, v: seq<byte>, run: Running, frames: seq<VideoFrame>)
    returns (run': Running, frames': seq<VideoFrame>)
    ensures (run', frames') == ScanChunk(fileId, pos, ch, v, run, frames)
  {
    var pts := run.pts;
    var steering := run.steering;
    frames' := frames;
    if ch.tag == TagTime {
      steering := WalkTrain(v, steering);
    } else if ch.tag == TagPdts {
      if |v| >= PtsLength {
        var p := U64At(v, 0);
        if p != 0 && p != NoPts {
          pts := p;
        }
      }
    } else if ch.tag == TagH264 {
      var vf := VideoFrame(pts, pts, pos, fileId, steering.steer, steering.throttle, ch.size, |frames'|, |frames'| == 0);
      frames' := frames' + [vf];
    }
    run' := Running(pts, steering);
  }

  /** A byte range [start, end) of chunk positions handed to one decode task. */
  datatype Range = Range(start: nat, end: nat)

  /** The splitter's result: the ranges submitted in order, and how many were counted as keyframe ranges. */
  datatype Split = Split(ranges: seq<Range>, counted: nat)

  /** After the header walk: the final range to the end of the file, if it is not empty. */
  function FinishSplit(f: RiffFile, startPos: nat, ranges: seq<Range>, counted: nat): Split
  {
    if startPos < f.size then Split(ranges + [Range(startPos, f.size)], counted) else Split(ranges, counted)
  }

  /**
   * The header walk of the splitter from pos: remember the last `time` chunk; on an
   * `h264` chunk whose 16-byte peek starts with the keyframe prefix, submit
   * [startPos, pos) and restart at the last `time` chunk; a failed peek ends the walk.
   */
  function SplitFrom(f: RiffFile, pos: nat, startPos: nat, lastTimePos: nat, ranges: seq<Range>, counted: nat): Split
    decreases if pos <= f.size then f.size - pos else 0
  {
    match HeaderAt(f.contents, f.size, pos)
    case None => FinishSplit(f, startPos, ranges, counted)
    case Some(h) =>
      var lastTime := if h.header.tag == TagTime then pos else lastTimePos;
      if h.header.tag == TagH264 then
        var d := ReadPayload(f.contents, pos, [], PeekLength);
        if !d.ok then FinishSplit(f, startPos, ranges, counted)
        else if StartsWithKeyframe(d.data) then
          SplitFrom(f, h.next, lastTime, lastTime, ranges + [Range(startPos, pos)], counted + 1)
        else SplitFrom(f, h.next, startPos, lastTime, ranges, counted)
      else SplitFrom(f, h.next, startPos, lastTime, ranges, counted)
  }

  /**
   * The keyframe test as gobble.cpp writes it: a five-byte `memcmp` at the start of
   * the peek buffer, whatever the buffer's length. None marks a peek shorter than
   * five bytes, where that comparison reads past the end of the buffer.
   */
  function KeyframeTestAsWritten(peek: seq<byte>): (r: Option<bool>)
    ensures r.None? <==> |peek| < |KeyframePrefix|
    ensures r.Some? ==> (r.value <==> forall k :: 0 <= k < |KeyframePrefix| ==> peek[k] == KeyframePrefix[k])
  {
    if |peek| < |KeyframePrefix| then None else Some(peek[..|KeyframePrefix|] == KeyframePrefix)
  }

  /**
   * A well-formed file whose only chunk is a three-byte `h264` payload: the peek
   * succeeds with three bytes, and the as-written test compares five.
   */
  lemma ShortAccessUnitPeeksPastEnd()
    ensures var c: seq<byte> := Zeros(12) + [0x68, 0x32, 0x36, 0x34, 3, 0, 0, 0, 0, 0, 0, 0];
      && HeaderAt(c, UsableSize(|c|), 0).Some?
      && HeaderAt(c, UsableSize(|c|), 0).value.header == ChunkHeader(TagH264, 3)
      && ReadPayload(c, 0, [], PeekLength) == DataRead(true, [0, 0, 0])
      && KeyframeTestAsWritten([0, 0, 0]).None?
  {
    var c: seq<byte> := Zeros(12) + [0x68, 0x32, 0x36, 0x34, 3, 0, 0, 0, 0, 0, 0, 0];
    assert c[12..16] == [0x68, 0x32, 0x36, 0x34];
    assert U32At(c, 12) == TagH264;
    assert U32At(c, 16) == 3;
    assert c[20..23] == [0, 0, 0];
  }

  /**
   * The splitter's test, StartsWithKeyframe, agrees with the as-written test wherever
   * that one is defined, and answers "not a keyframe" on a peek that is too short.
   */
  lemma StartsWithKeyframeMatchesAsWritten(peek: seq<byte>)
    ensures KeyframeTestAsWritten(peek).Some? ==> StartsWithKeyframe(peek) == KeyframeTestAsWritten(peek).value
    ensures KeyframeTestAsWritten(peek).None? ==> !StartsWithKeyframe(peek)
  {
  }

  /** Position p holds an `h264` chunk whose peek starts with the keyframe prefix. */
  predicate IsKeyframeChunk(f: RiffFile, p: nat)
  {
    && HeaderAt(f.contents, f.size, p).Some?
    && HeaderAt(f.contents, f.size, p).value.header.tag == TagH264
    && var d := ReadPayload(f.contents, p, [], PeekLength);
    && d.ok && StartsWithKeyframe(d.data)
  }

  /** What the splitter promises of the ranges submitted so far. */
  predicate RangesOrdered(f: RiffFile, ranges: seq<Range>)
  {
    && (forall i :: 0 <= i < |ranges| ==> ranges[i].start <= ranges[i].end <= f.size)
    && (forall i, j :: 0 <= i < j < |ranges| ==> ranges[i].end < ranges[j].end)
    && (forall i, j :: 0 <= i < j < |ranges| ==> ranges[i].start <= ranges[j].start)
  }

  /** The final range keeps the order, and is the only uncounted one. */
  lemma FinishSplitOrdered(f: RiffFile, startPos: nat, ranges: seq<Range>, counted: nat)
    requires |ranges| == counted && RangesOrdered(f, ranges)
    requires forall i :: 0 <= i < |ranges| ==> ranges[i].end < f.size && ranges[i].start <= startPos
    ensures var s := FinishSplit(f, startPos, ranges, counted);
      && RangesOrdered(f, s.ranges) && s.counted == counted
      && counted <= |s.ranges| <= counted + 1 && s.ranges[..|ranges|] == ranges
      && (|s.ranges| > counted ==> s.ranges[|s.ranges| - 1].end == f.size)
  {
    var s := FinishSplit(f, startPos, ranges, counted);
    assert s.ranges[..|ranges|] == ranges;
  }

  /** What the splitter promises of its result, given the ranges it started from. */
  predicate SplitOrdered(f: RiffFile, ranges: seq<Range>, s: Split)
  {
    && RangesOrdered(f, s.ranges)
    && |ranges| <= s.counted <= |s.ranges| <= s.counted + 1
    && s.ranges[..|ranges|] == ranges
    && (forall i :: 0 <= i < s.counted ==> IsKeyframeChunk(f, s.ranges[i].end))
    && (|s.ranges| > s.counted ==> s.ranges[|s.ranges| - 1].end == f.size)
  }

  /** The state the header walk keeps between chunks. */
  predicate SplitState(f: RiffFile, pos: nat, startPos: nat, lastTimePos: nat, ranges: seq<Range>, counted: nat)
  {
    && startPos <= lastTimePos <= pos
    && |ranges| == counted && RangesOrdered(f, ranges)
    && (forall i :: 0 <= i < |ranges| ==> ranges[i].end < pos && ranges[i].end < f.size)
    && (forall i :: 0 <= i < |ranges| ==> ranges[i].start <= startPos && IsKeyframeChunk(f, ranges[i].end))
  }

  /**
   * Every submitted range has start <= end; starts never decrease and ends strictly
   * increase; each counted range ends at a keyframe chunk; the one uncounted range,
   * if any, is the last and ends at the file's size.
   */
  lemma {:induction false} SplitRangesOrdered(f: RiffFile, pos: nat, startPos: nat, lastTimePos: nat,
                                              ranges: seq<Range>, counted: nat)
    requires SplitState(f, pos, startPos, lastTimePos, ranges, counted)
    ensures SplitOrdered(f, ranges, SplitFrom(f, pos, startPos, lastTimePos, ranges, counted))
    decreases if pos <= f.size then f.size - pos else 0, 1
  {
    match HeaderAt(f.contents, f.size, pos)
    case None =>
      FinishSplitOrdered(f, startPos, ranges, counted);
    case Some(h) =>
      var lastTime := if h.header.tag == TagTime then pos else lastTimePos;
      if h.header.tag == TagH264 {
        var d := ReadPayload(f.contents, pos, [], PeekLength);
        if d.ok && StartsWithKeyframe(d.data) {
          SplitAtKeyframe(f, pos, startPos, lastTimePos, ranges, counted);
        } else if d.ok {
          SplitRangesOrdered(f, h.next, startPos, lastTime, ranges, counted);
        } else {
          FinishSplitOrdered(f, startPos, ranges, counted);
        }
      } else {
        SplitRangesOrdered(f, h.next, startPos, lastTime, ranges, counted);
      }
  }

  /** Submitting [startPos, pos) at a keyframe keeps the walk's state. */
  lemma PushKeyframeRange(f: RiffFile, pos: nat, next: nat, startPos: nat, lastTimePos: nat,
                          ranges: seq<Range>, counted: nat)
    requires SplitState(f, pos, startPos, lastTimePos, ranges, counted)
    requires IsKeyframeChunk(f, pos) && pos < f.size && next > pos
    ensures SplitState(f, next, lastTimePos, lastTimePos, ranges + [Range(startPos, pos)], counted + 1)
  {
  }

  /** The keyframe step of SplitRangesOrdered: submit [startPos, pos) and go on. */
  lemma {:induction false} SplitAtKeyframe(f: RiffFile, pos: nat, startPos: nat, lastTimePos: nat,
                                           ranges: seq<Range>, counted: nat)
    requires SplitState(f, pos, startPos, lastTimePos, ranges, counted)
    requires IsKeyframeChunk(f, pos)
    ensures SplitOrdered(f, ranges, SplitFrom(f, pos, startPos, lastTimePos, ranges, counted))
    decreases if pos <= f.size then f.size - pos else 0, 0
  {
    var h := HeaderAt(f.contents, f.size, pos).value;
    var ranges' := ranges + [Range(startPos, pos)];
    assert SplitFrom(f, pos, startPos, lastTimePos, ranges, counted) ==
      SplitFrom(f, h.next, lastTimePos, lastTimePos, ranges', counted + 1);
    PushKeyframeRange(f, pos, h.next, startPos, lastTimePos, ranges, counted);
    SplitRangesOrdered(f, h.next, lastTimePos, lastTimePos, ranges', counted + 1);
    var s := SplitFrom(f, h.next, lastTimePos, lastTimePos, ranges', counted + 1);
    assert s.ranges[..|ranges|] == s.ranges[..|ranges'|][..|ranges|];
  }

  /** A chunk the splitter's walk processes: its position, and whether it is a `time` or a keyframe chunk. */
  datatype Visit = Visit(pos: nat, time: bool, keyframe: bool)

  predicate IsTimeChunk(f: RiffFile, q: nat)
  {
    HeaderAt(f.contents, f.size, q).Some? && HeaderAt(f.contents, f.size, q).value.header.tag == TagTime
  }

  /**
   * The chunks the splitter's walk processes from pos, in order: each chunk whose
   * header reads, up to the first that does not, and before the first `h264` chunk
   * whose peek fails.
   */
  function SplitChunks(f: RiffFile, pos: nat): seq<Visit>
    decreases if pos <= f.size then f.size - pos else 0
  {
    match HeaderAt(f.contents, f.size, pos)
    case None => []
    case Some(h) =>
      if h.header.tag == TagH264 && !ReadPayload(f.contents, pos, [], PeekLength).ok then []
      else [Visit(pos, IsTimeChunk(f, pos), IsKeyframeChunk(f, pos))] + SplitChunks(f, h.next)
  }

  /** The position of the last `time` chunk of vs, or 0. */
  function LastTime(vs: seq<Visit>): nat
  {
    if vs == [] then 0
    else if vs[|vs| - 1].time then vs[|vs| - 1].pos
    else LastTime(vs[..|vs| - 1])
  }

  /** The indices in vs of its keyframe chunks, in order. */
  function KeyframeIndices(vs: seq<Visit>): (ks: seq<nat>)
    ensures forall i :: 0 <= i < |ks| ==> ks[i] < |vs|
  {
    if vs == [] then []
    else KeyframeIndices(vs[..|vs| - 1]) + if vs[|vs| - 1].keyframe then [|vs| - 1] else []
  }

  /** Where the next range starts after vs: the last `time` chunk up to their last keyframe, or 0. */
  function RangeStart(vs: seq<Visit>): nat
  {
    if vs == [] then 0
    else if vs[|vs| - 1].keyframe then LastTime(vs)
    else RangeStart(vs[..|vs| - 1])
  }

  /** The ranges vs submit at their keyframes: from the current start up to the keyframe. */
  function KeyframeRanges(vs: seq<Visit>): seq<Range>
  {
    if vs == [] then []
    else
      var before := vs[..|vs| - 1];
      KeyframeRanges(before) + if vs[|vs| - 1].keyframe then [Range(RangeStart(before), vs[|vs| - 1].pos)] else []
  }

  /** The walk's state after the chunks done, on top of the ranges it started with. */
  predicate SplitFollows(done: seq<Visit>, ranges0: seq<Range>, counted0: nat,
                         startPos: nat, lastTimePos: nat, ranges: seq<Range>, counted: nat)
  {
    && startPos == RangeStart(done) && lastTimePos == LastTime(done)
    && ranges == ranges0 + KeyframeRanges(done)
    && counted == counted0 + |KeyframeRanges(done)|
  }

  /** One processed chunk keeps the walk's state the state of the chunks processed. */
  lemma SplitStepFollows(done: seq<Visit>, ranges0: seq<Range>, counted0: nat, v: Visit,
                         startPos: nat, lastTimePos: nat, ranges: seq<Range>, counted: nat)
    requires SplitFollows(done, ranges0, counted0, startPos, lastTimePos, ranges, counted)
    ensures var lastTime := if v.time then v.pos else lastTimePos;
      SplitFollows(done + [v], ranges0, counted0,
                   if v.keyframe then lastTime else startPos, lastTime,
                   if v.keyframe then ranges + [Range(startPos, v.pos)] else ranges,
                   if v.keyframe then counted + 1 else counted)
  {
    var done' := done + [v];
    assert done'[..|done'| - 1] == done;
    if v.keyframe {
      assert ranges0 + KeyframeRanges(done') == (ranges0 + KeyframeRanges(done)) + [Range(startPos, v.pos)];
    }
  }

  /** One processed chunk of the splitter's walk. */
  lemma SplitFromUnfold(f: RiffFile, pos: nat, h: HeaderRead, startPos: nat, lastTimePos: nat, ranges: seq<Range>, counted: nat)
    requires HeaderAt(f.contents, f.size, pos) == Some(h)
    requires h.header.tag == TagH264 ==> ReadPayload(f.contents, pos, [], PeekLength).ok
    ensures var lastTime := if IsTimeChunk(f, pos) then pos else lastTimePos;
      var key := IsKeyframeChunk(f, pos);
      && SplitChunks(f, pos) == [Visit(pos, IsTimeChunk(f, pos), key)] + SplitChunks(f, h.next)
      && SplitFrom(f, pos, startPos, lastTimePos, ranges, counted)
         == SplitFrom(f, h.next, if key then lastTime else startPos, lastTime,
                      if key then ranges + [Range(startPos, pos)] else ranges, if key then counted + 1 else counted)
  {
  }

  lemma {:induction false} SplitFromFollows(f: RiffFile, done: seq<Visit>, ranges0: seq<Range>, counted0: nat, pos: nat,
                                            startPos: nat, lastTimePos: nat, ranges: seq<Range>, counted: nat)
    requires SplitFollows(done, ranges0, counted0, startPos, lastTimePos, ranges, counted)
    ensures var all := done + SplitChunks(f, pos);
      SplitFrom(f, pos, startPos, lastTimePos, ranges, counted)
      == FinishSplit(f, RangeStart(all), ranges0 + KeyframeRanges(all), counted0 + |KeyframeRanges(all)|)
    decreases if pos <= f.size then f.size - pos else 0
  {
    match HeaderAt(f.contents, f.size, pos)
    case None =>
      assert done + [] == done;
    case Some(h) =>
      if h.header.tag == TagH264 && !ReadPayload(f.contents, pos, [], PeekLength).ok {
        assert done + [] == done;
      } else {
        var v := Visit(pos, IsTimeChunk(f, pos), IsKeyframeChunk(f, pos));
        var lastTime := if v.time then pos else lastTimePos;
        var startPos' := if v.keyframe then lastTime else startPos;
        var ranges' := if v.keyframe then ranges + [Range(startPos, pos)] else ranges;
        var counted' := if v.keyframe then counted + 1 else counted;
        SplitFromUnfold(f, pos, h, startPos, lastTimePos, ranges, counted);
        SplitStepFollows(done, ranges0, counted0, v, startPos, lastTimePos, ranges, counted);
        SplitFromFollows(f, done + [v], ranges0, counted0, h.next, startPos', lastTime, ranges', counted');
        ConcatAssoc(done, [v], SplitChunks(f, h.next));
      }
  }

  /** One chunk of the splitter's walk. */
  lemma SplitChunksUnfold(f: RiffFile, pos: nat, h: HeaderRead)
    requires HeaderAt(f.contents, f.size, pos) == Some(h)
    requires h.header.tag == TagH264 ==> ReadPayload(f.contents, pos, [], PeekLength).ok
    ensures SplitChunks(f, pos) == [Visit(pos, IsTimeChunk(f, pos), IsKeyframeChunk(f, pos))] + SplitChunks(f, h.next)
  {
  }

  /** The walk from pos records each chunk's kind as the file has it. */
  lemma {:induction false} SplitChunksClassified(f: RiffFile, pos: nat)
    ensures var vs := SplitChunks(f, pos);
      forall k :: 0 <= k < |vs| ==> vs[k].time == IsTimeChunk(f, vs[k].pos) && vs[k].keyframe == IsKeyframeChunk(f, vs[k].pos)
    decreases if pos <= f.size then f.size - pos else 0
  {
    match HeaderAt(f.contents, f.size, pos)
    case None =>
    case Some(h) =>
      if !(h.header.tag == TagH264 && !ReadPayload(f.contents, pos, [], PeekLength).ok) {
        SplitChunksUnfold(f, pos, h);
        SplitChunksClassified(f, h.next);
        var rest := SplitChunks(f, h.next);
        var vs := SplitChunks(f, pos);
        forall k | 0 <= k < |vs|
          ensures vs[k].time == IsTimeChunk(f, vs[k].pos) && vs[k].keyframe == IsKeyframeChunk(f, vs[k].pos)
        {
          if k > 0 {
            assert vs[k] == rest[k - 1];
          }
        }
      }
  }

  /** The walk from pos visits positions from pos on, each past the one before. */
  lemma {:induction false} SplitChunksIncrease(f: RiffFile, pos: nat)
    ensures var vs := SplitChunks(f, pos);
      && (forall k :: 0 <= k < |vs| ==> pos <= vs[k].pos)
      && (forall k :: 0 < k < |vs| ==> vs[k - 1].pos < vs[k].pos)
    decreases if pos <= f.size then f.size - pos else 0
  {
    match HeaderAt(f.contents, f.size, pos)
    case None =>
    case Some(h) =>
      if !(h.header.tag == TagH264 && !ReadPayload(f.contents, pos, [], PeekLength).ok) {
        SplitChunksUnfold(f, pos, h);
        SplitChunksIncrease(f, h.next);
        var rest := SplitChunks(f, h.next);
        var vs := SplitChunks(f, pos);
        assert forall k :: 0 < k < |vs| ==> vs[k] == rest[k - 1];
      }
  }

  /** KeyframeIndices lists every keyframe chunk of vs, and nothing else, in increasing order. */
  lemma {:induction false} KeyframeIndicesExact(vs: seq<Visit>)
    ensures var ks := KeyframeIndices(vs);
      && (forall i, j :: 0 <= i < j < |ks| ==> ks[i] < ks[j])
      && (forall k :: 0 <= k < |vs| ==> (vs[k].keyframe <==> k in ks))
  {
    if vs != [] {
      var pre := vs[..|vs| - 1];
      KeyframeIndicesExact(pre);
      forall k | 0 <= k < |pre| ensures vs[k] == pre[k] { }
    }
  }

  /** Where range i starts: 0 for the first, else the last `time` chunk up to keyframe i - 1. */
  function RangeStartOf(vs: seq<Visit>, i: nat): nat
    requires i <= |KeyframeIndices(vs)|
  {
    if i == 0 then 0 else LastTime(vs[..KeyframeIndices(vs)[i - 1] + 1])
  }

  /** A chunk added after vs leaves the starts of the ranges so far as they were. */
  lemma RangeStartOfExtends(vs: seq<Visit>, i: nat)
    requires vs != [] && i <= |KeyframeIndices(vs[..|vs| - 1])|
    ensures i <= |KeyframeIndices(vs)|
    ensures RangeStartOf(vs, i) == RangeStartOf(vs[..|vs| - 1], i)
  {
    var pre := vs[..|vs| - 1];
    var ks := KeyframeIndices(pre);
    var ks' := KeyframeIndices(vs);
    assert ks'[..|ks|] == ks;
    if i > 0 {
      assert vs[..ks[i - 1] + 1] == pre[..ks[i - 1] + 1];
    }
  }

  /** KeyframeRanges has one range per keyframe chunk of vs. */
  lemma {:induction false} KeyframeRangesCount(vs: seq<Visit>)
    ensures |KeyframeRanges(vs)| == |KeyframeIndices(vs)|
  {
    if vs != [] {
      KeyframeRangesCount(vs[..|vs| - 1]);
    }
  }

  /** RangeStart is where the range after the last keyframe of vs starts. */
  lemma {:induction false} RangeStartIsRangeStartOf(vs: seq<Visit>)
    ensures RangeStart(vs) == RangeStartOf(vs, |KeyframeIndices(vs)|)
  {
    if vs != [] {
      var pre := vs[..|vs| - 1];
      RangeStartIsRangeStartOf(pre);
      if vs[|vs| - 1].keyframe {
        assert vs[..|vs| - 1 + 1] == vs;
      } else {
        RangeStartOfExtends(vs, |KeyframeIndices(pre)|);
      }
    }
  }

  /** The i-th range of KeyframeRanges ends at the i-th keyframe and starts at RangeStartOf i. */
  lemma {:induction false} KeyframeRangeAt(vs: seq<Visit>, i: nat)
    requires i < |KeyframeIndices(vs)|
    ensures i < |KeyframeRanges(vs)|
    ensures KeyframeRanges(vs)[i] == Range(RangeStartOf(vs, i), vs[KeyframeIndices(vs)[i]].pos)
  {
    var pre := vs[..|vs| - 1];
    var ks := KeyframeIndices(pre);
    KeyframeRangesCount(pre);
    KeyframeRangesCount(vs);
    RangeStartOfExtends(vs, i);
    var ks' := KeyframeIndices(vs);
    if i < |ks| {
      KeyframeRangeAt(pre, i);
      assert ks'[i] == ks[i];
      assert KeyframeRanges(vs)[i] == KeyframeRanges(pre)[i];
    } else {
      RangeStartIsRangeStartOf(pre);
    }
  }

  /** The splitter's result is the final range after the ranges of its walk's keyframes. */
  lemma SplitIsKeyframeRanges(f: RiffFile)
    ensures var vs := SplitChunks(f, 0);
      var rs := KeyframeRanges(vs);
      SplitFrom(f, 0, 0, 0, [], 0) == FinishSplit(f, RangeStart(vs), rs, |rs|)
  {
    SplitFromFollows(f, [], [], 0, 0, 0, 0, [], 0);
    var vs := SplitChunks(f, 0);
    assert [] + vs == vs;
    assert [] + KeyframeRanges(vs) == KeyframeRanges(vs);
  }

  /** FinishSplit keeps the ranges so far and adds the range from startPos to the end when it is not empty. */
  lemma FinishSplitShape(f: RiffFile, startPos: nat, rs: seq<Range>)
    ensures var s := FinishSplit(f, startPos, rs, |rs|);
      && s.counted == |rs|
      && |s.ranges| == |rs| + (if startPos < f.size then 1 else 0)
      && s.ranges[..|rs|] == rs
      && (startPos < f.size ==> s.ranges[|rs|] == Range(startPos, f.size))
  {
  }

  /** The splitter's walk submits a range at each keyframe chunk of the file it reads, and at no other chunk. */
  lemma SplitKeyframesAreKeyframeChunks(f: RiffFile)
    ensures var vs := SplitChunks(f, 0);
      var ks := KeyframeIndices(vs);
      forall k :: 0 <= k < |vs| ==> (IsKeyframeChunk(f, vs[k].pos) <==> k in ks)
  {
    SplitChunksClassified(f, 0);
    KeyframeIndicesExact(SplitChunks(f, 0));
  }

  /**
   * The splitter submits one range per keyframe chunk its walk reads, in order: the
   * i-th ends at the i-th keyframe and starts at 0 for the first, else at the last
   * `time` chunk up to the previous keyframe; all of them are counted. Last comes
   * the uncounted range from the last such start to the file's size, when not empty.
   */
  lemma SplitSubmitsKeyframeRanges(f: RiffFile)
    ensures var vs := SplitChunks(f, 0);
      var ks := KeyframeIndices(vs);
      var s := SplitFrom(f, 0, 0, 0, [], 0);
      var last := RangeStartOf(vs, |ks|);
      && s.counted == |ks|
      && |s.ranges| == |ks| + (if last < f.size then 1 else 0)
      && (forall i :: 0 <= i < |ks| ==> s.ranges[i] == Range(RangeStartOf(vs, i), vs[ks[i]].pos))
      && (last < f.size ==> s.ranges[|ks|] == Range(last, f.size))
  {
    var vs := SplitChunks(f, 0);
    var ks := KeyframeIndices(vs);
    var rs := KeyframeRanges(vs);
    SplitIsKeyframeRanges(f);
    KeyframeRangesCount(vs);
    RangeStartIsRangeStartOf(vs);
    FinishSplitShape(f, RangeStart(vs), rs);
    var s := FinishSplit(f, RangeStart(vs), rs, |rs|);
    forall i | 0 <= i < |ks| ensures s.ranges[i] == Range(RangeStartOf(vs, i), vs[ks[i]].pos) {
      KeyframeRangeAt(vs, i);
      assert s.ranges[i] == s.ranges[..|rs|][i];
    }
  }

  /** LastTime is 0 when vs has no `time` chunk. */
  lemma {:induction false} LastTimeWithoutTime(vs: seq<Visit>)
    requires forall k :: 0 <= k < |vs| ==> !vs[k].time
    ensures LastTime(vs) == 0
  {
    if vs != [] {
      var pre := vs[..|vs| - 1];
      assert forall k :: 0 <= k < |pre| ==> pre[k] == vs[k];
      LastTimeWithoutTime(pre);
    }
  }

  /** LastTime is the position of the last `time` chunk of vs. */
  lemma {:induction false} LastTimeIsLastTimeChunk(vs: seq<Visit>, k: nat)
    requires k < |vs| && vs[k].time
    requires forall j :: k < j < |vs| ==> !vs[j].time
    ensures LastTime(vs) == vs[k].pos
  {
    if k < |vs| - 1 {
      var pre := vs[..|vs| - 1];
      assert forall j :: k <= j < |pre| ==> pre[j] == vs[j];
      LastTimeIsLastTimeChunk(pre, k);
    }
  }

  /** One file's splitting task; `keyframeRanges` is its share of `numChunksToDecode`. */
  class RiffFileWork {
    const file: RiffFile
    var submitted: seq<Range>
    var keyframeRanges: nat

    constructor (file: RiffFile)
      ensures this.file == file && submitted == [] && keyframeRanges == 0
    {
      this.file := file;
      submitted := [];
      keyframeRanges := 0;
    }

    /** `RiffFileWork::work`: `add_work` appends to submitted. */
    method Work()
      modifies this
      ensures Split(submitted, keyframeRanges) == SplitFrom(file, 0, 0, 0, old(submitted), old(keyframeRanges))
    {
      var startPos: nat := 0;
      var lastTimePos: nat := 0;
      var pos: nat := 0;
      while true
        invariant SplitFrom(file, pos, startPos, lastTimePos, submitted, keyframeRanges) ==
          SplitFrom(file, 0, 0, 0, old(submitted), old(keyframeRanges))
        decreases if pos <= file.size then file.size - pos else 0
      {
        var b, ch, opos := file.ReadHeader(pos);
        if !b {
          break;
        }
        assert HeaderAt(file.contents, file.size, pos) == Some(HeaderRead(ch, opos));
        if ch.tag == TagTime {
          lastTimePos := pos;
        }
        if ch.tag == TagH264 {
          var ok, v := file.ReadData(pos, [], PeekLength);
          if !ok {
            break;
          }
          if StartsWithKeyframe(v) {
            keyframeRanges := keyframeRanges + 1;
            submitted := submitted + [Range(startPos, pos)];
            startPos := lastTimePos;
          }
        }
        pos := opos;
      }
      if startPos < file.size {
        submitted := submitted + [Range(startPos, file.size)];
      }
    }
  }
}
