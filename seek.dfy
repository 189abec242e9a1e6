/**
 * Time lookup over the frame index: `determine_frame_time` and
 * `get_keyframe_for_time`. Both binary-search an index that the caller keeps
 * ordered by time (duplicates allowed).
 */
module Seek {
  import opened Bytes
  import opened Container

  datatype Mode = Closest | Earlier | Later | Following | Preceding

  predicate SortedByTime(s: seq<VideoFrame>)
  {
    forall i, j :: 0 <= i < j < |s| ==> s[i].time <= s[j].time
  }

  /** The first position whose time is after t, scanning from the front; |s| if none. */
  function FirstAfter(s: seq<VideoFrame>, t: nat): (r: nat)
    ensures r <= |s|
    ensures forall i :: 0 <= i < r ==> s[i].time <= t
    ensures r < |s| ==> s[r].time > t
  {
    if s == [] then 0
    else if s[0].time > t then 0
    else 1 + FirstAfter(s[1..], t)
  }

  /** The first position whose time is at least x, scanning from the front; |s| if none. */
  function FirstAtLeast(s: seq<VideoFrame>, x: nat): (r: nat)
    ensures r <= |s|
    ensures forall i :: 0 <= i < r ==> s[i].time < x
    ensures r < |s| ==> s[r].time >= x
  {
    if s == [] then 0
    else if s[0].time >= x then 0
    else 1 + FirstAtLeast(s[1..], x)
  }

  /** In a sorted index every entry from FirstAfter on is after t. */
  lemma AfterFirstAfter(s: seq<VideoFrame>, t: nat)
    requires SortedByTime(s)
    ensures forall i :: FirstAfter(s, t) <= i < |s| ==> s[i].time > t
  {
  }

  /** In a sorted index every entry from FirstAtLeast on is at least x. */
  lemma AfterFirstAtLeast(s: seq<VideoFrame>, x: nat)
    requires SortedByTime(s)
    ensures forall i :: FirstAtLeast(s, x) <= i < |s| ==> s[i].time >= x
  {
  }

  /**
   * The time a query resolves to, stated by linear scans rather than by bisection:
   * top is the first entry after t and bottom the entry before it; Preceding first
   * moves bottom back to the start of its run of equal times.
   */
  function ResolveTime(s: seq<VideoFrame>, t: u64, mode: Mode): u64
  {
    if |s| == 0 then 0
    else
      var top := FirstAfter(s, t);
      if top == 0 then s[0].time
      else if top == |s| then s[|s| - 1].time
      else
        var bottomTime := s[top - 1].time;
        var topTime := s[top].time;
        match mode
        case Closest => if t - bottomTime <= topTime - t then bottomTime else topTime
        case Earlier => bottomTime
        case Later => if bottomTime == t then bottomTime else topTime
        case Following => topTime
        case Preceding =>
          var run := FirstAtLeast(s, bottomTime);
          if bottomTime == t && run > 0 then s[run - 1].time else bottomTime
  }

  /**
   * The bisection both lookups share: (bottom, top) with top == bottom + 1, where
   * bottom is the last entry at or before t (0 when every entry is after t) and top
   * the first entry after t (except when there is none before it).
   */
  method Bisect(frames: seq<VideoFrame>, t: u64) returns (bottom: nat, top: nat)
    requires SortedByTime(frames) && |frames| > 0
    ensures top == bottom + 1 <= |frames|
    ensures bottom == Floor(frames, t)
    ensures FirstAfter(frames, t) > 0 ==> top == FirstAfter(frames, t)
  {
    AfterFirstAfter(frames, t);
    ghost var f := FirstAfter(frames, t);
    top := |frames|;
    bottom := 0;
    while top > bottom + 1
      invariant 0 <= bottom < top <= |frames|
      invariant f <= top
      invariant bottom == 0 || bottom < f
    {
      var avg := (top + bottom) / 2;
      if frames[avg].time > t {
        top := avg;
      } else {
        bottom := avg;
      }
    }
  }

  /** `determine_frame_time`: bisection for (bottom, top), then the backward walk over equal times. */
  method DetermineFrameTime(frames: seq<VideoFrame>, time: u64, mode: Mode) returns (r: u64)
    requires SortedByTime(frames)
    ensures r == ResolveTime(frames, time, mode)
  {
    if |frames| == 0 {
      return 0;
    }
    var bottom, top := Bisect(frames, time);
    var bottomTime := frames[bottom].time;
    AfterFirstAtLeast(frames, bottomTime);
    ghost var run := FirstAtLeast(frames, bottomTime);
    while bottom > 0 && frames[bottom - 1].time == bottomTime
      invariant run <= bottom < top
      invariant frames[bottom].time == bottomTime
    {
      bottom := bottom - 1;
    }
    assert bottom == run;
    if bottomTime > time {
      return bottomTime;
    }
    if top == |frames| {
      return frames[top - 1].time;
    }
    var topTime := frames[top].time;
    match mode
    case Closest =>
      if time - bottomTime <= topTime - time {
        r := bottomTime;
      } else {
        r := topTime;
      }
    case Earlier =>
      r := bottomTime;
    case Later =>
      r := if bottomTime == time then bottomTime else topTime;
    case Following =>
      r := topTime;
    case Preceding =>
      if bottomTime == time && bottom > 0 {
        r := frames[bottom - 1].time;
      } else {
        r := bottomTime;
      }
  }

  /** The last position whose time is at most t, or 0 when every entry is after t. */
  function Floor(s: seq<VideoFrame>, t: nat): nat
  {
    var f := FirstAfter(s, t);
    if f == 0 then 0 else f - 1
  }

  /** The nearest keyframe at or before position b, or 0 when none is. */
  function KeyframeAtOrBefore(s: seq<VideoFrame>, b: nat): (k: nat)
    requires b < |s|
    ensures k <= b && (k == 0 || s[k].keyframe)
    ensures forall j :: k < j <= b ==> !s[j].keyframe
  {
    if b == 0 || s[b].keyframe then b else KeyframeAtOrBefore(s, b - 1)
  }

  /**
   * `get_keyframe_for_time`: None only for an empty index; otherwise the nearest
   * keyframe at or before Floor(t), or position 0 when there is none.
   */
  method GetKeyframeForTime(frames: seq<VideoFrame>, frametime: u64) returns (r: Option<nat>)
    requires SortedByTime(frames)
    ensures r.None? <==> |frames| == 0
    ensures r.Some? ==> r.value <= Floor(frames, frametime) < |frames|
    ensures r.Some? ==> r.value == 0 || frames[r.value].keyframe
    ensures r.Some? ==> forall j :: r.value < j <= Floor(frames, frametime) ==> !frames[j].keyframe
    ensures r.Some? ==> r.value == 0 || frames[r.value].time <= frametime
    ensures r.Some? ==> r.value == KeyframeAtOrBefore(frames, Floor(frames, frametime))
  {
    if |frames| == 0 {
      return None;
    }
    var bottom, top := Bisect(frames, frametime);
    ghost var floor := bottom;
    while bottom > 0 && !frames[bottom].keyframe
      invariant 0 <= bottom <= floor < |frames|
      invariant forall j :: bottom < j <= floor ==> !frames[j].keyframe
      invariant KeyframeAtOrBefore(frames, bottom) == KeyframeAtOrBefore(frames, floor)
    {
      bottom := bottom - 1;
    }
    return Some(bottom);
  }

  /** In a sorted index, a bracketing pair b, b+1 around t fixes FirstAfter. */
  lemma FirstAfterBracket(s: seq<VideoFrame>, t: nat, b: nat)
    requires SortedByTime(s) && b + 1 < |s|
    requires s[b].time <= t < s[b + 1].time
    ensures FirstAfter(s, t) == b + 1
  {
  }

  /** With an empty index every query resolves to 0. */
  lemma ResolveEmpty(t: u64, mode: Mode)
    ensures ResolveTime([], t, mode) == 0
  {
  }

  /** A query before the first entry or at/after the last clamps to that entry, in every mode. */
  lemma ResolveClamps(s: seq<VideoFrame>, t: u64, mode: Mode)
    requires SortedByTime(s) && |s| > 0
    ensures t < s[0].time ==> ResolveTime(s, t, mode) == s[0].time
    ensures t >= s[|s| - 1].time ==> ResolveTime(s, t, mode) == s[|s| - 1].time
  {
    if t >= s[|s| - 1].time {
      assert FirstAfter(s, t) == |s|;
    }
  }

  /** A non-empty index always resolves to the time of one of its entries, inside [first, last]. */
  lemma ResolveIsEntryTime(s: seq<VideoFrame>, t: u64, mode: Mode)
    requires SortedByTime(s) && |s| > 0
    ensures exists i :: 0 <= i < |s| && ResolveTime(s, t, mode) == s[i].time
    ensures s[0].time <= ResolveTime(s, t, mode) <= s[|s| - 1].time
  {
    var top := FirstAfter(s, t);
    if top == 0 {
      assert ResolveTime(s, t, mode) == s[0].time;
    } else if top == |s| {
      assert ResolveTime(s, t, mode) == s[|s| - 1].time;
    } else {
      var run := FirstAtLeast(s, s[top - 1].time);
      var i := match mode
        case Closest => if t - s[top - 1].time <= s[top].time - t then top - 1 else top
        case Earlier => top - 1
        case Later => if s[top - 1].time == t then top - 1 else top
        case Following => top
        case Preceding => if s[top - 1].time == t && run > 0 then run - 1 else top - 1;
      assert ResolveTime(s, t, mode) == s[i].time;
    }
  }

  /**
   * Between two entries (bottom.time <= t < top.time): Earlier gives bottom,
   * Following gives top, Later gives bottom only on an exact match, and Closest
   * gives the nearer of the two with ties going to bottom.
   */
  lemma ResolveBetween(s: seq<VideoFrame>, t: u64, b: nat)
    requires SortedByTime(s) && b + 1 < |s|
    requires s[b].time <= t < s[b + 1].time
    ensures ResolveTime(s, t, Earlier) == s[b].time
    ensures ResolveTime(s, t, Following) == s[b + 1].time
    ensures ResolveTime(s, t, Later) == if s[b].time == t then s[b].time else s[b + 1].time
    ensures ResolveTime(s, t, Closest) ==
      if t - s[b].time <= s[b + 1].time - t then s[b].time else s[b + 1].time
  {
    FirstAfterBracket(s, t, b);
  }

  /**
   * Preceding on an exact match inside the index: the query lies in the run of
   * entries i..; if a predecessor exists the result is its time, strictly earlier;
   * at the first entry the result is the query itself.
   */
  lemma ResolvePrecedingExact(s: seq<VideoFrame>, i: nat)
    requires SortedByTime(s) && i < |s|
    requires i == 0 || s[i - 1].time < s[i].time
    requires s[i].time < s[|s| - 1].time
    ensures i > 0 ==> ResolveTime(s, s[i].time, Preceding) == s[i - 1].time < s[i].time
    ensures i == 0 ==> ResolveTime(s, s[i].time, Preceding) == s[i].time
  {
    var t := s[i].time;
    AfterFirstAfter(s, t);
    var top := FirstAfter(s, t);
    assert i < top < |s|;
    assert s[top - 1].time == t;
    var run := FirstAtLeast(s, t);
    AfterFirstAtLeast(s, t);
    assert run == i;
  }

  /** Preceding without an exact match gives the time of the entry before the query. */
  lemma ResolvePrecedingInexact(s: seq<VideoFrame>, t: u64, b: nat)
    requires SortedByTime(s) && b + 1 < |s|
    requires s[b].time < t < s[b + 1].time
    ensures ResolveTime(s, t, Preceding) == s[b].time
  {
    FirstAfterBracket(s, t, b);
  }

  /**
   * An exact match resolves to itself under Earlier, Later and Closest; Following
   * moves to the next strictly later time.
   */
  lemma ResolveExactMatch(s: seq<VideoFrame>, i: nat)
    requires SortedByTime(s) && i < |s| && s[i].time < s[|s| - 1].time
    ensures ResolveTime(s, s[i].time, Earlier) == s[i].time
    ensures ResolveTime(s, s[i].time, Later) == s[i].time
    ensures ResolveTime(s, s[i].time, Closest) == s[i].time
    ensures ResolveTime(s, s[i].time, Following) > s[i].time
    ensures forall j :: 0 <= j < |s| && s[j].time > s[i].time ==> ResolveTime(s, s[i].time, Following) <= s[j].time
  {
    var t := s[i].time;
    AfterFirstAfter(s, t);
    var top := FirstAfter(s, t);
    assert i < top < |s|;
    assert s[top - 1].time == t;
  }

  /**
   * The clamp is checked before the mode, so at the last entry's time Preceding does
   * not step back: with times [0, 10], Preceding from 10 stays at 10.
   */
  lemma PrecedingStaysAtLastEntry()
    ensures ResolveTime([EmptyFrame, EmptyFrame.(time := 10)], 10, Preceding) == 10
  {
    var s := [EmptyFrame, EmptyFrame.(time := 10)];
    assert FirstAfter(s, 10) == 2 by {
      assert s[1..][1..] == [];
    }
  }
}
