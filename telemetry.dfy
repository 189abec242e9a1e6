/**
 * The train of telemetry sub-records carried in a `time` chunk. Records start at
 * byte 8; each begins with a 16-bit code ('S' steer/throttle, 'i' bus telemetry,
 * 'T' trim) followed by two signed 16-bit values. Any other code ends the train.
 */
module Telemetry {
  import opened Bytes

  const FirstRecord: nat := 8
  /** Bytes read from every record: code, steer, throttle. */
  const RecordPeek: nat := 6
  const CodeSteer: u16 := 0x53  // 'S'
  const CodeIbus: u16 := 0x69   // 'i'
  const CodeTrim: u16 := 0x54   // 'T'
  /** The raw value that marks a missing steer or throttle reading. */
  const Sentinel: int := -0x8000

  /**
   * Steer and throttle as raw signed 16-bit readings, in units of 1/16383 of full
   * scale; a sentinel reading is stored as 0.
   */
  datatype Steering = Steering(steer: int, throttle: int)

  /** How far a record with this code moves the offset; 0 for a code that ends the train. */
  function RecordLength(code: u16): (n: nat)
    ensures n == 0 <==> code != CodeSteer && code != CodeIbus && code != CodeTrim
    ensures n == 0 || n >= RecordPeek
  {
    if code == CodeSteer then 6
    else if code == CodeIbus then 22
    else if code == CodeTrim then 10
    else 0
  }

  function Reading(raw: int): int
  {
    if raw == Sentinel then 0 else raw
  }

  function Code(v: seq<byte>, offset: nat): u16
    requires offset + RecordPeek <= |v|
  {
    U16At(v, offset)
  }

  /** The steer/throttle an 'S' record at this offset carries. */
  function SteerAt(v: seq<byte>, offset: nat): Steering
    requires offset + RecordPeek <= |v|
  {
    Steering(Reading(I16At(v, offset + 2)), Reading(I16At(v, offset + 4)))
  }

  /** The loop guard as written, `offset <= v.size() - 6` with a 64-bit unsigned subtraction. */
  function GuardAsWritten(offset: u64, n: u64): bool
  {
    offset <= SubU64(n, RecordPeek)
  }

  /** The guard the loop needs: a whole 6-byte record lies inside the buffer. */
  predicate GuardInBounds(offset: nat, n: nat)
  {
    offset + RecordPeek <= n
  }

  /**
   * For a buffer shorter than 6 bytes the subtraction wraps and the first record is
   * read past the end; the offset an unknown code sets, the buffer's size, passes
   * the guard too, so the loop reads at that offset again.
   */
  lemma GuardUnderflows(n: u64)
    requires n < RecordPeek
    ensures GuardAsWritten(FirstRecord, n) && !GuardInBounds(FirstRecord, n)
    ensures GuardAsWritten(n, n) && !GuardInBounds(n, n)
  {
  }

  /** From 6 bytes on the written guard is the in-bounds guard. */
  lemma GuardsAgree(offset: u64, n: u64)
    requires n >= RecordPeek
    ensures GuardAsWritten(offset, n) == GuardInBounds(offset, n)
  {
  }

  /** The steer/throttle after walking the train from `offset`, starting from `s`. */
  function Walk(v: seq<byte>, offset: nat, s: Steering): Steering
    decreases if offset <= |v| then |v| - offset else 0
  {
    if !GuardInBounds(offset, |v|) then s
    else
      var code := Code(v, offset);
      var n := RecordLength(code);
      if n == 0 then s
      else Walk(v, offset + n, if code == CodeSteer then SteerAt(v, offset) else s)
  }

  /** The offsets of the records the walk reads, in order. */
  function Visited(v: seq<byte>, offset: nat): seq<nat>
    decreases if offset <= |v| then |v| - offset else 0
  {
    if !GuardInBounds(offset, |v|) then []
    else
      var n := RecordLength(Code(v, offset));
      if n == 0 then [offset] else [offset] + Visited(v, offset + n)
  }

  /** `offset` and the loop over the records, as in the `time` branch of both scans. */
  method WalkTrain(v: seq<byte>, s: Steering) returns (r: Steering)
    ensures r == Walk(v, FirstRecord, s)
  {
    var offset := FirstRecord;
    r := s;
    while GuardInBounds(offset, |v|)
      invariant Walk(v, offset, r) == Walk(v, FirstRecord, s)
      decreases |v| - offset
    {
      var code := Code(v, offset);
      if code == CodeSteer {
        r := SteerAt(v, offset);
        offset := offset + 6;
      } else if code == CodeIbus {
        offset := offset + 22;
      } else if code == CodeTrim {
        offset := offset + 10;
      } else {
        offset := |v|;
      }
    }
  }

  /** Each record read lies inside the buffer, and the offsets strictly increase from the start. */
  lemma {:induction false} VisitedInBounds(v: seq<byte>, offset: nat)
    ensures forall i :: 0 <= i < |Visited(v, offset)| ==>
      offset <= Visited(v, offset)[i] && Visited(v, offset)[i] + RecordPeek <= |v|
    ensures forall i, j :: 0 <= i < j < |Visited(v, offset)| ==> Visited(v, offset)[i] < Visited(v, offset)[j]
    ensures |Visited(v, offset)| > 0 ==> Visited(v, offset)[0] == offset
    decreases if offset <= |v| then |v| - offset else 0
  {
    if GuardInBounds(offset, |v|) {
      var n := RecordLength(Code(v, offset));
      if n != 0 {
        VisitedInBounds(v, offset + n);
      }
    }
  }

  /** An 'S' record that lies inside the buffer starts at this offset. */
  predicate IsSteerRecord(v: seq<byte>, offset: nat)
  {
    offset + RecordPeek <= |v| && Code(v, offset) == CodeSteer
  }

  /** A walk that reads no 'S' record leaves the steer/throttle it started with. */
  lemma {:induction false} WalkWithoutSteer(v: seq<byte>, offset: nat, s: Steering)
    requires forall i :: 0 <= i < |Visited(v, offset)| ==> !IsSteerRecord(v, Visited(v, offset)[i])
    ensures Walk(v, offset, s) == s
    decreases if offset <= |v| then |v| - offset else 0
  {
    if GuardInBounds(offset, |v|) {
      var n := RecordLength(Code(v, offset));
      if n != 0 {
        var rest := Visited(v, offset + n);
        assert forall k :: 0 <= k < |rest| ==> rest[k] == Visited(v, offset)[k + 1];
        assert !IsSteerRecord(v, Visited(v, offset)[0]);
        WalkWithoutSteer(v, offset + n, s);
      }
    }
  }

  /** One step of the walk and of the offsets it reads, for a record that continues the train. */
  lemma WalkStep(v: seq<byte>, offset: nat, s: Steering)
    requires GuardInBounds(offset, |v|) && RecordLength(Code(v, offset)) != 0
    ensures var n := RecordLength(Code(v, offset));
      && Visited(v, offset) == [offset] + Visited(v, offset + n)
      && Walk(v, offset, s) == Walk(v, offset + n, if Code(v, offset) == CodeSteer then SteerAt(v, offset) else s)
  {
  }

  /** The walk ends with the values of the last 'S' record it reads (the j-th record). */
  lemma {:induction false} WalkTakesLastSteer(v: seq<byte>, offset: nat, s: Steering, j: nat)
    requires j < |Visited(v, offset)| && IsSteerRecord(v, Visited(v, offset)[j])
    requires forall k :: j < k < |Visited(v, offset)| ==> !IsSteerRecord(v, Visited(v, offset)[k])
    ensures Walk(v, offset, s) == SteerAt(v, Visited(v, offset)[j])
    decreases if offset <= |v| then |v| - offset else 0
  {
    var vs := Visited(v, offset);
    assert GuardInBounds(offset, |v|);
    var code := Code(v, offset);
    var n := RecordLength(code);
    if n != 0 {
      WalkStep(v, offset, s);
      var rest := Visited(v, offset + n);
      var s' := if code == CodeSteer then SteerAt(v, offset) else s;
      if j == 0 {
        assert vs[0] == offset;
        forall k | 0 <= k < |rest|
          ensures !IsSteerRecord(v, rest[k])
        {
          assert rest[k] == vs[k + 1];
        }
        WalkWithoutSteer(v, offset + n, s');
      } else {
        forall k | j - 1 < k < |rest|
          ensures !IsSteerRecord(v, rest[k])
        {
          assert rest[k] == vs[k + 1];
        }
        assert rest[j - 1] == vs[j];
        WalkTakesLastSteer(v, offset + n, s', j - 1);
      }
    }
  }
}
