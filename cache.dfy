/**
 * The decoded-frame cache of the viewer (`get_frame_at`): decoded pictures keyed by
 * time, a free list of pictures whose buffers are reused, oldest-first eviction with
 * hysteresis that stops at a keyframe, and a fill that decodes one group of pictures
 * from the keyframe at or before the resolved time.
 */
module Cache {
  import opened Bytes
  import opened Container
  import opened Decoded
  import opened Seek

  const MaxFrameCacheSize: nat := 350
  const FrameCacheHysteresis: nat := 90
  /** Eviction goes on while more entries than this remain. */
  const EvictDownTo: nat := MaxFrameCacheSize - FrameCacheHysteresis

  /** What the decoder reports for a produced picture. */
  datatype PictureInfo = PictureInfo(time: u64, width: u16, height: u16, keyframe: bool)

  /**
   * One `decode_frame_and_advance` call from a cursor (an index position): maybe a
   * picture written into the buffer it was given, and the cursor it returns; None
   * stands for the null pointer it returns on failure and past the last entry.
   */
  datatype DecodeStep = DecodeStep(picture: Option<PictureInfo>, next: Option<nat>)

  /**
   * What the cache relies on from the decoder: a non-null cursor comes only with a
   * picture and lies strictly after the cursor it started from, inside the index.
   */
  predicate Advances(decode: nat -> DecodeStep, n: nat)
  {
    forall c :: 0 <= c < n ==> (decode(c).next.Some? ==> decode(c).picture.Some? && c < decode(c).next.value < n)
  }

  datatype CacheState = CacheState(frames: map<u64, Picture>, free: seq<Picture>, nextBuffer: BufferId)

  /** The cache invariant: every picture is stored under its own time. */
  predicate KeyedByTime(m: map<u64, Picture>)
  {
    forall k :: k in m ==> m[k].time == k
  }

  predicate IsLeast(s: set<u64>, k: u64)
  {
    k in s && forall j :: j in s ==> k <= j
  }

  lemma {:induction false} LeastExists(s: set<u64>)
    requires s != {}
    ensures exists k :: IsLeast(s, k)
    decreases s
  {
    var x :| x in s;
    if s == {x} {
      assert IsLeast(s, x);
    } else {
      var s' := s - {x};
      var y :| y in s && y != x;
      assert y in s';
      LeastExists(s');
      var k :| IsLeast(s', k);
      var least := if x < k then x else k;
      forall j | j in s
        ensures least <= j
      {
        if j != x {
          assert j in s';
        }
      }
      assert IsLeast(s, least);
    }
  }

  /** The oldest key, where `begin()` of the ordered map points. */
  function MinKey(m: map<u64, Picture>): (k: u64)
    requires |m| > 0
    ensures k in m && forall j :: j in m ==> k <= j
  {
    assert m.Keys != {} by {
      var x :| x in m;
    }
    LeastExists(m.Keys);
    var k :| IsLeast(m.Keys, k);
    k
  }

  lemma RemoveOneKey(m: map<u64, Picture>, k: u64)
    requires k in m
    ensures |m - {k}| == |m| - 1
  {
    assert (m - {k}).Keys == m.Keys - {k};
  }

  /** Whether the do-while of the eviction goes round again. */
  predicate KeepEvicting(m: map<u64, Picture>)
  {
    |m| > EvictDownTo && !m[MinKey(m)].keyframe
  }

  /** The eviction do-while: move the oldest picture to the free list, then test again. */
  function Evict(m: map<u64, Picture>, free: seq<Picture>): (map<u64, Picture>, seq<Picture>)
    requires |m| > 0
    decreases |m|
  {
    var k := MinKey(m);
    RemoveOneKey(m, k);
    var m' := m - {k};
    var free' := free + [m[k]];
    if KeepEvicting(m') then Evict(m', free') else (m', free')
  }

  /** One round of the eviction do-while. */
  lemma EvictUnfold(m: map<u64, Picture>, free: seq<Picture>)
    requires |m| > 0
    ensures var k := MinKey(m);
      var m' := m - {k};
      && |m'| == |m| - 1
      && Evict(m, free) == if KeepEvicting(m') then Evict(m', free + [m[k]]) else (m', free + [m[k]])
  {
    RemoveOneKey(m, MinKey(m));
  }

  /** Eviction only appends to the free list: what it appends does not depend on what was there. */
  lemma {:induction false} EvictAppends(m: map<u64, Picture>, free: seq<Picture>)
    requires |m| > 0
    ensures Evict(m, free) == (Evict(m, []).0, free + Evict(m, []).1)
    decreases |m|
  {
    var k := MinKey(m);
    var p := m[k];
    var m' := m - {k};
    EvictUnfold(m, free);
    EvictUnfold(m, []);
    assert [] + [p] == [p];
    if KeepEvicting(m') {
      EvictAppends(m', free + [p]);
      EvictAppends(m', [p]);
      ConcatAssoc(free, [p], Evict(m', []).1);
    }
  }

  /**
   * Eviction removes at least one entry and only the oldest ones, keeps the rest
   * unchanged, and stops with at most 260 entries left or a keyframe as the oldest.
   * It stops the first time that holds: every removed entry but the first was a
   * non-keyframe, and it never goes below 260 entries unless it removed only one.
   */
  lemma {:induction false} EvictRemovesOldest(m: map<u64, Picture>, free: seq<Picture>)
    requires |m| > 0
    ensures var r := Evict(m, free);
      && r.0.Keys < m.Keys
      && (forall k :: k in r.0 ==> r.0[k] == m[k])
      && (forall k, j :: k in m && k !in r.0 && j in r.0 ==> k < j)
      && (|r.0| <= EvictDownTo || (|r.0| > 0 && r.0[MinKey(r.0)].keyframe))
      && (forall k :: k in m && k !in r.0 && k != MinKey(m) ==> !m[k].keyframe)
      && (|r.0| >= EvictDownTo || |r.0| == |m| - 1)
    decreases |m|
  {
    var k := MinKey(m);
    RemoveOneKey(m, k);
    var m' := m - {k};
    if KeepEvicting(m') {
      EvictRemovesOldest(m', free + [m[k]]);
      var r := Evict(m', free + [m[k]]);
      assert Evict(m, free) == r;
      forall j | j in m && j !in r.0 && j != k
        ensures !m[j].keyframe
      {
        assert j in m';
      }
    }
  }

  /**
   * freed lists the pictures of m missing from rest, one per missing key, in key
   * order: what eviction moves to the free list.
   */
  predicate FreedFrom(m: map<u64, Picture>, rest: map<u64, Picture>, freed: seq<Picture>)
  {
    && |freed| + |rest| == |m|
    && (forall i :: 0 <= i < |freed| ==> freed[i].time in m && freed[i].time !in rest && m[freed[i].time] == freed[i])
    && (forall i, j :: 0 <= i < j < |freed| ==> freed[i].time < freed[j].time)
  }

  /** A picture older than every picture of an increasing list can go in front of it. */
  lemma ConsIncreasing(x: Picture, tail: seq<Picture>)
    requires forall i :: 0 <= i < |tail| ==> x.time < tail[i].time
    requires forall i, j :: 0 <= i < j < |tail| ==> tail[i].time < tail[j].time
    ensures forall i, j :: 0 <= i < j < |[x] + tail| ==> ([x] + tail)[i].time < ([x] + tail)[j].time
  {
  }

  /** Freeing the oldest picture in front of the pictures freed from the rest. */
  lemma FreedStep(m: map<u64, Picture>, k: u64, rest: map<u64, Picture>, tail: seq<Picture>)
    requires KeyedByTime(m) && k in m && forall j :: j in m ==> k <= j
    requires k !in rest && FreedFrom(m - {k}, rest, tail)
    ensures FreedFrom(m, rest, [m[k]] + tail)
  {
    RemoveOneKey(m, k);
    forall i | 0 <= i < |tail|
      ensures tail[i].time in m && tail[i].time != k && m[tail[i].time] == tail[i]
    {
      assert tail[i].time in m - {k};
    }
    ConsIncreasing(m[k], tail);
    var freed := [m[k]] + tail;
    forall i | 0 <= i < |freed|
      ensures freed[i].time in m && freed[i].time !in rest && m[freed[i].time] == freed[i]
    {
      if i > 0 {
        assert freed[i] == tail[i - 1];
      }
    }
  }

  /**
   * The pictures eviction moves to the free list are those of the removed keys, one
   * per removed key, oldest first.
   */
  lemma {:induction false} EvictFreesOldestFirst(m: map<u64, Picture>)
    requires |m| > 0 && KeyedByTime(m)
    ensures FreedFrom(m, Evict(m, []).0, Evict(m, []).1)
    decreases |m|
  {
    var k := MinKey(m);
    RemoveOneKey(m, k);
    var m' := m - {k};
    assert [] + [m[k]] == [m[k]];
    assert Evict(m, []) == if KeepEvicting(m') then Evict(m', [m[k]]) else (m', [m[k]]);
    if KeepEvicting(m') {
      EvictFreesOldestFirst(m');
      EvictAppends(m', [m[k]]);
      EvictRemovesOldest(m', []);
      FreedStep(m, k, Evict(m', []).0, Evict(m', []).1);
    } else {
      assert [m[k]] == [m[k]] + [];
      FreedStep(m, k, m', []);
    }
  }

  /** The buffer for the next picture: the free list's front, or a new empty `DecodedFrame`. */
  function TakeBuffer(free: seq<Picture>): (r: (Picture, seq<Picture>))
    ensures free == [] ==> r == (EmptyPicture, [])
    ensures free != [] ==> r == (free[0], free[1..])
  {
    if free == [] then (EmptyPicture, []) else (free[0], free[1..])
  }

  /**
   * The decoder writing a picture into df: it allocates a yuv buffer (id nextBuffer)
   * only when df has none, then calls `set_decoded` with df's own buffer.
   */
  function DecodeInto(df: Picture, info: PictureInfo, nextBuffer: BufferId): (r: (Picture, BufferId))
    ensures r.0.time == info.time && r.0.keyframe == info.keyframe
    ensures r.0.width == info.width && r.0.height == info.height
    ensures r.0.yuv == (if df.yuv.Some? then df.yuv else Some(nextBuffer))
    ensures r.0.rgb.None? && r.0.cropped.None?
    ensures r.1 == if df.yuv.Some? then nextBuffer else nextBuffer + 1
  {
    var yuv := if df.yuv.Some? then df.yuv else Some(nextBuffer);
    var nb := if df.yuv.Some? then nextBuffer else nextBuffer + 1;
    (SetDecodedPicture(df.(yuv := yuv), info.time, info.width, info.height, yuv, info.keyframe).picture, nb)
  }

  datatype FillResult = FillResult(frames: map<u64, Picture>, free: seq<Picture>, nextBuffer: BufferId, ret: Option<Picture>)

  /**
   * The fill loop from cursor: take a buffer, decode into it; on a null cursor give
   * the buffer back to the free list and stop; otherwise store the picture under its
   * time, remember the first one at or after frameTime, and stop at a keyframe cursor.
   */
  function Fill(index: seq<VideoFrame>, decode: nat -> DecodeStep, cursor: nat, frameTime: u64,
                frames: map<u64, Picture>, free: seq<Picture>, nextBuffer: BufferId, ret: Option<Picture>): FillResult
    requires cursor < |index| && Advances(decode, |index|)
    decreases |index| - cursor
  {
    var tb := TakeBuffer(free);
    var step := decode(cursor);
    var di := if step.picture.Some? then DecodeInto(tb.0, step.picture.value, nextBuffer) else (tb.0, nextBuffer);
    var df', nb, rest := di.0, di.1, tb.1;
    if step.next.None? then FillResult(frames, rest + [df'], nb, ret)
    else
      var frames' := frames[df'.time := df'];
      var ret' := if ret.None? && df'.time >= frameTime then Some(df') else ret;
      var c := step.next.value;
      if index[c].keyframe then FillResult(frames', rest, nb, ret')
      else Fill(index, decode, c, frameTime, frames', rest, nb, ret')
  }

  /**
   * The pictures the fill loop stores, in decoding order: one per decode call that
   * returns a non-null cursor. The loop ends after a call that returns null, or once
   * the cursor it returns is a keyframe.
   */
  function Produced(index: seq<VideoFrame>, decode: nat -> DecodeStep, cursor: nat): seq<PictureInfo>
    requires cursor < |index| && Advances(decode, |index|)
    decreases |index| - cursor
  {
    var step := decode(cursor);
    if step.next.None? then []
    else if index[step.next.value].keyframe then [step.picture.value]
    else [step.picture.value] + Produced(index, decode, step.next.value)
  }

  /** Whether the fill loop from cursor ends on a failed decode rather than at a keyframe. */
  predicate EndsInFailure(index: seq<VideoFrame>, decode: nat -> DecodeStep, cursor: nat)
    requires cursor < |index| && Advances(decode, |index|)
    decreases |index| - cursor
  {
    var step := decode(cursor);
    step.next.None? || (!index[step.next.value].keyframe && EndsInFailure(index, decode, step.next.value))
  }

  /** How many buffers the fill loop takes: one per decode call. */
  function BuffersTaken(index: seq<VideoFrame>, decode: nat -> DecodeStep, cursor: nat): nat
    requires cursor < |index| && Advances(decode, |index|)
  {
    |Produced(index, decode, cursor)| + if EndsInFailure(index, decode, cursor) then 1 else 0
  }

  function Times(p: seq<PictureInfo>): set<u64>
  {
    if p == [] then {} else {p[0].time} + Times(p[1..])
  }

  /** The position of the first picture at or after t, or |p| when there is none. */
  function FirstAtOrAfter(p: seq<PictureInfo>, t: u64): (j: nat)
    ensures j <= |p|
    ensures forall i :: 0 <= i < j ==> p[i].time < t
    ensures j < |p| ==> p[j].time >= t
  {
    if p == [] then 0 else if p[0].time >= t then 0 else 1 + FirstAtOrAfter(p[1..], t)
  }

  /**
   * Every produced picture is stored under its own time: the cache's keys become the
   * old keys and the produced times, and an entry whose time no picture had is kept.
   */
  lemma {:induction false} FillStoresProduced(index: seq<VideoFrame>, decode: nat -> DecodeStep, cursor: nat, frameTime: u64,
                                              frames: map<u64, Picture>, free: seq<Picture>, nextBuffer: BufferId, ret: Option<Picture>)
    requires cursor < |index| && Advances(decode, |index|)
    requires KeyedByTime(frames)
    ensures var r := Fill(index, decode, cursor, frameTime, frames, free, nextBuffer, ret);
      var p := Produced(index, decode, cursor);
      && KeyedByTime(r.frames)
      && r.frames.Keys == frames.Keys + Times(p)
      && (forall t :: t in frames && t !in Times(p) ==> r.frames[t] == frames[t])
    decreases |index| - cursor
  {
    FillUnfold(index, decode, cursor, frameTime, frames, free, nextBuffer, ret);
    var tb := TakeBuffer(free);
    var step := decode(cursor);
    var di := if step.picture.Some? then DecodeInto(tb.0, step.picture.value, nextBuffer) else (tb.0, nextBuffer);
    var df', nb, rest := di.0, di.1, tb.1;
    if step.next.Some? {
      var info := step.picture.value;
      var frames' := frames[df'.time := df'];
      var ret' := if ret.None? && df'.time >= frameTime then Some(df') else ret;
      var c := step.next.value;
      if index[c].keyframe {
        assert Produced(index, decode, cursor) == [info];
        assert Times([info]) == {info.time};
      } else {
        FillStoresProduced(index, decode, c, frameTime, frames', rest, nb, ret');
        var p' := Produced(index, decode, c);
        assert Produced(index, decode, cursor) == [info] + p';
        assert ([info] + p')[1..] == p';
      }
    }
  }

  /** A result the fill already holds is the one it returns. */
  lemma {:induction false} FillKeepsResult(index: seq<VideoFrame>, decode: nat -> DecodeStep, cursor: nat, frameTime: u64,
                                           frames: map<u64, Picture>, free: seq<Picture>, nextBuffer: BufferId, ret: Option<Picture>)
    requires cursor < |index| && Advances(decode, |index|)
    requires ret.Some?
    ensures Fill(index, decode, cursor, frameTime, frames, free, nextBuffer, ret).ret == ret
    decreases |index| - cursor
  {
    var tb := TakeBuffer(free);
    var step := decode(cursor);
    var di := if step.picture.Some? then DecodeInto(tb.0, step.picture.value, nextBuffer) else (tb.0, nextBuffer);
    var df', nb, rest := di.0, di.1, tb.1;
    if step.next.Some? && !index[step.next.value].keyframe {
      FillKeepsResult(index, decode, step.next.value, frameTime, frames[df'.time := df'], rest, nb, ret);
    }
  }

  /**
   * With no result yet, the fill returns the first produced picture at or after
   * frameTime, and nothing exactly when no produced picture is.
   */
  lemma {:induction false} FillReturnsFirst(index: seq<VideoFrame>, decode: nat -> DecodeStep, cursor: nat, frameTime: u64,
                                            frames: map<u64, Picture>, free: seq<Picture>, nextBuffer: BufferId)
    requires cursor < |index| && Advances(decode, |index|)
    ensures var r := Fill(index, decode, cursor, frameTime, frames, free, nextBuffer, None);
      var p := Produced(index, decode, cursor);
      var j := FirstAtOrAfter(p, frameTime);
      && (r.ret.None? <==> j == |p|)
      && (j < |p| ==>
            && r.ret.Some? && r.ret.value.time == p[j].time && r.ret.value.keyframe == p[j].keyframe
            && r.ret.value.width == p[j].width && r.ret.value.height == p[j].height)
    decreases |index| - cursor
  {
    var tb := TakeBuffer(free);
    var step := decode(cursor);
    var di := if step.picture.Some? then DecodeInto(tb.0, step.picture.value, nextBuffer) else (tb.0, nextBuffer);
    var df', nb, rest := di.0, di.1, tb.1;
    if step.next.Some? {
      var info := step.picture.value;
      var c := step.next.value;
      if !index[c].keyframe {
        var p' := Produced(index, decode, c);
        assert Produced(index, decode, cursor) == [info] + p';
        assert ([info] + p')[1..] == p';
        var frames' := frames[df'.time := df'];
        if info.time >= frameTime {
          assert Fill(index, decode, cursor, frameTime, frames, free, nextBuffer, None)
              == Fill(index, decode, c, frameTime, frames', rest, nb, Some(df'));
          FillKeepsResult(index, decode, c, frameTime, frames', rest, nb, Some(df'));
        } else {
          assert Fill(index, decode, cursor, frameTime, frames, free, nextBuffer, None)
              == Fill(index, decode, c, frameTime, frames', rest, nb, None);
          FillReturnsFirst(index, decode, c, frameTime, frames', rest, nb);
        }
      }
    }
  }

  /** One decode call of the fill loop, and what it leaves for the next. */
  lemma FillUnfold(index: seq<VideoFrame>, decode: nat -> DecodeStep, cursor: nat, frameTime: u64,
                   frames: map<u64, Picture>, free: seq<Picture>, nextBuffer: BufferId, ret: Option<Picture>)
    requires cursor < |index| && Advances(decode, |index|)
    ensures var tb := TakeBuffer(free);
      var step := decode(cursor);
      var di := if step.picture.Some? then DecodeInto(tb.0, step.picture.value, nextBuffer) else (tb.0, nextBuffer);
      var r := Fill(index, decode, cursor, frameTime, frames, free, nextBuffer, ret);
      && (step.next.None? ==> r == FillResult(frames, tb.1 + [di.0], di.1, ret))
      && (step.next.Some? ==>
            var frames' := frames[di.0.time := di.0];
            var ret' := if ret.None? && di.0.time >= frameTime then Some(di.0) else ret;
            r == if index[step.next.value].keyframe then FillResult(frames', tb.1, di.1, ret')
                 else Fill(index, decode, step.next.value, frameTime, frames', tb.1, di.1, ret'))
  {
  }

  /** What taking one more buffer from the front of free does to the part of the list left over. */
  lemma FrontShift(free: seq<Picture>, tail: seq<Picture>, n: nat, fail: bool)
    requires var rest := TakeBuffer(free).1;
      var k := Min(n, |rest|);
      |tail| == |rest| - k + (if fail then 1 else 0) && tail[..|rest| - k] == rest[k..]
    ensures var k := Min(n + 1, |free|);
      |tail| == |free| - k + (if fail then 1 else 0) && tail[..|free| - k] == free[k..]
  {
    if free != [] {
      var k := Min(n, |free| - 1);
      assert free[1..][k..] == free[k + 1..];
    }
  }

  /**
   * Buffers come from the front of the free list, one per decode call; what is left
   * of the list stays in order, and a loop that ends on a failed decode puts its
   * last buffer back at the end.
   */
  lemma {:induction false} FillReusesFreeFront(index: seq<VideoFrame>, decode: nat -> DecodeStep, cursor: nat, frameTime: u64,
                                               frames: map<u64, Picture>, free: seq<Picture>, nextBuffer: BufferId, ret: Option<Picture>)
    requires cursor < |index| && Advances(decode, |index|)
    ensures var r := Fill(index, decode, cursor, frameTime, frames, free, nextBuffer, ret);
      var k := Min(BuffersTaken(index, decode, cursor), |free|);
      && |r.free| == |free| - k + (if EndsInFailure(index, decode, cursor) then 1 else 0)
      && r.free[..|free| - k] == free[k..]
    decreases |index| - cursor
  {
    FillUnfold(index, decode, cursor, frameTime, frames, free, nextBuffer, ret);
    var r := Fill(index, decode, cursor, frameTime, frames, free, nextBuffer, ret);
    var tb := TakeBuffer(free);
    var step := decode(cursor);
    var di := if step.picture.Some? then DecodeInto(tb.0, step.picture.value, nextBuffer) else (tb.0, nextBuffer);
    var rest := tb.1;
    if step.next.None? {
      assert r.free == rest + [di.0];
      FrontShift(free, r.free, 0, true);
    } else {
      var c := step.next.value;
      if index[c].keyframe {
        assert r.free == rest;
        FrontShift(free, r.free, 0, false);
      } else {
        var frames' := frames[di.0.time := di.0];
        var ret' := if ret.None? && di.0.time >= frameTime then Some(di.0) else ret;
        FillReusesFreeFront(index, decode, c, frameTime, frames', rest, di.1, ret');
        assert BuffersTaken(index, decode, cursor) == 1 + BuffersTaken(index, decode, c);
        assert EndsInFailure(index, decode, cursor) == EndsInFailure(index, decode, c);
        FrontShift(free, r.free, BuffersTaken(index, decode, c), EndsInFailure(index, decode, c));
      }
    }
  }

  /** `get_frame_at` on the cache's state: resolve, hit, or evict and fill. */
  function GetFrame(st: CacheState, index: seq<VideoFrame>, t: u64, mode: Mode, decode: nat -> DecodeStep)
    : (CacheState, Option<Picture>)
    requires |index| > 0 && SortedByTime(index) && Advances(decode, |index|)
  {
    var frameTime := ResolveTime(index, t, mode);
    if frameTime in st.frames then (st, Some(st.frames[frameTime]))
    else
      var ev := if |st.frames| >= MaxFrameCacheSize then Evict(st.frames, st.free) else (st.frames, st.free);
      var k := KeyframeAtOrBefore(index, Floor(index, frameTime));
      var r := Fill(index, decode, k, frameTime, ev.0, ev.1, st.nextBuffer, None);
      (CacheState(r.frames, r.free, r.nextBuffer), r.ret)
  }

  /**
   * A hit returns the cached picture, stored under the resolved time, and changes
   * nothing; any call keeps the cache keyed by time.
   */
  lemma GetFrameProperties(st: CacheState, index: seq<VideoFrame>, t: u64, mode: Mode, decode: nat -> DecodeStep)
    requires |index| > 0 && SortedByTime(index) && Advances(decode, |index|)
    requires KeyedByTime(st.frames)
    ensures var frameTime := ResolveTime(index, t, mode);
      var r := GetFrame(st, index, t, mode, decode);
      && KeyedByTime(r.0.frames)
      && (frameTime in st.frames ==> r == (st, Some(st.frames[frameTime])) && r.1.value.time == frameTime)
  {
    var frameTime := ResolveTime(index, t, mode);
    if frameTime !in st.frames {
      var ev := if |st.frames| >= MaxFrameCacheSize then Evict(st.frames, st.free) else (st.frames, st.free);
      if |st.frames| >= MaxFrameCacheSize {
        EvictRemovesOldest(st.frames, st.free);
      }
      var k := KeyframeAtOrBefore(index, Floor(index, frameTime));
      FillStoresProduced(index, decode, k, frameTime, ev.0, ev.1, st.nextBuffer, None);
    }
  }

  /**
   * A miss evicts when the cache is full, then fills from the keyframe at or before
   * the resolved time: every produced picture is stored, an entry no picture
   * replaced is kept, the result is the first produced picture at or after the
   * resolved time (none exactly when there is none), and the buffers come from the
   * front of the free list.
   */
  lemma GetFrameFillsOnMiss(st: CacheState, index: seq<VideoFrame>, t: u64, mode: Mode, decode: nat -> DecodeStep)
    requires |index| > 0 && SortedByTime(index) && Advances(decode, |index|)
    requires KeyedByTime(st.frames)
    ensures var frameTime := ResolveTime(index, t, mode);
      var r := GetFrame(st, index, t, mode, decode);
      var ev := if |st.frames| >= MaxFrameCacheSize then Evict(st.frames, st.free) else (st.frames, st.free);
      var k := KeyframeAtOrBefore(index, Floor(index, frameTime));
      var p := Produced(index, decode, k);
      var j := FirstAtOrAfter(p, frameTime);
      var n := Min(BuffersTaken(index, decode, k), |ev.1|);
      frameTime !in st.frames ==>
        && r.0.frames.Keys == ev.0.Keys + Times(p)
        && (forall u :: u in ev.0 && u !in Times(p) ==> r.0.frames[u] == ev.0[u])
        && (r.1.None? <==> j == |p|)
        && (j < |p| ==>
              && r.1.Some? && r.1.value.time == p[j].time && r.1.value.keyframe == p[j].keyframe
              && r.1.value.width == p[j].width && r.1.value.height == p[j].height)
        && |r.0.free| == |ev.1| - n + (if EndsInFailure(index, decode, k) then 1 else 0)
        && r.0.free[..|ev.1| - n] == ev.1[n..]
  {
    var frameTime := ResolveTime(index, t, mode);
    if frameTime !in st.frames {
      var ev := if |st.frames| >= MaxFrameCacheSize then Evict(st.frames, st.free) else (st.frames, st.free);
      if |st.frames| >= MaxFrameCacheSize {
        EvictRemovesOldest(st.frames, st.free);
      }
      var k := KeyframeAtOrBefore(index, Floor(index, frameTime));
      FillStoresProduced(index, decode, k, frameTime, ev.0, ev.1, st.nextBuffer, None);
      FillReturnsFirst(index, decode, k, frameTime, ev.0, ev.1, st.nextBuffer);
      FillReusesFreeFront(index, decode, k, frameTime, ev.0, ev.1, st.nextBuffer, None);
    }
  }

  /** The cache's globals (`gDecodedFrames`, `gDecodedFreeList`) and the buffer allocator. */
  class FrameCache {
    var frames: map<u64, Picture>
    var freeList: seq<Picture>
    var nextBuffer: BufferId

    function State(): CacheState
      reads this
    {
      CacheState(frames, freeList, nextBuffer)
    }

    constructor ()
      ensures State() == CacheState(map[], [], 0)
    {
      frames, freeList, nextBuffer := map[], [], 0;
    }

    /** `get_frame_at`; the decoder and the frame index are passed in. */
    method GetFrameAt(index: seq<VideoFrame>, t: u64, mode: Mode, decode: nat -> DecodeStep) returns (ret: Option<Picture>)
      requires |index| > 0 && SortedByTime(index) && Advances(decode, |index|)
      modifies this
      ensures (State(), ret) == GetFrame(old(State()), index, t, mode, decode)
    {
      var frameTime := DetermineFrameTime(index, t, mode);
      if frameTime in frames {
        return Some(frames[frameTime]);
      }
      if |frames| >= MaxFrameCacheSize {
        EvictOldest();
      }
      var keyframe := GetKeyframeForTime(index, frameTime);
      ret := DecodeGroup(index, decode, keyframe.value, frameTime);
    }

    /** The eviction do-while of `get_frame_at`. */
    method EvictOldest()
      requires |frames| > 0
      modifies this
      ensures (frames, freeList) == Evict(old(frames), old(freeList)) && nextBuffer == old(nextBuffer)
    {
      ghost var target := Evict(frames, freeList);
      var oldest := MinKey(frames);
      RemoveOneKey(frames, oldest);
      freeList := freeList + [frames[oldest]];
      frames := frames - {oldest};
      while KeepEvicting(frames)
        invariant (if KeepEvicting(frames) then Evict(frames, freeList) else (frames, freeList)) == target
        invariant nextBuffer == old(nextBuffer)
        decreases |frames|
      {
        oldest := MinKey(frames);
        RemoveOneKey(frames, oldest);
        freeList := freeList + [frames[oldest]];
        frames := frames - {oldest};
      }
    }

    /** The fill loop of `get_frame_at`, from the keyframe cursor `cur`. */
    method DecodeGroup(index: seq<VideoFrame>, decode: nat -> DecodeStep, cur: nat, frameTime: u64) returns (ret: Option<Picture>)
      requires cur < |index| && Advances(decode, |index|)
      modifies this
      ensures FillResult(frames, freeList, nextBuffer, ret) ==
        Fill(index, decode, cur, frameTime, old(frames), old(freeList), old(nextBuffer), None)
    {
      ret := None;
      var cursor := cur;
      while true
        invariant cursor < |index|
        invariant Fill(index, decode, cursor, frameTime, frames, freeList, nextBuffer, ret) ==
          Fill(index, decode, cur, frameTime, old(frames), old(freeList), old(nextBuffer), None)
        decreases |index| - cursor
      {
        var df;
        if freeList == [] {
          df := EmptyPicture;
        } else {
          df := freeList[0];
          freeList := freeList[1..];
        }
        var step := decode(cursor);
        if step.picture.Some? {
          var decoded := DecodeInto(df, step.picture.value, nextBuffer);
          df, nextBuffer := decoded.0, decoded.1;
        }
        if step.next.None? {
          freeList := freeList + [df];
          break;
        }
        frames := frames[df.time := df];
        if df.time >= frameTime && ret.None? {
          ret := Some(df);
        }
        cursor := step.next.value;
        if index[cursor].keyframe {
          break;
        }
      }
    }
  }
}
