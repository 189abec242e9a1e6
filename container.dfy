/** The chunked container reader and the frame records of video.h. */
module Container {
  import opened Bytes

  /** Bytes of the file header that every file starts with; never read as a chunk. */
  const FileHeaderSize: nat := 12
  /** A chunk header: a 4-byte tag and a 32-bit little-endian payload size. */
  const ChunkHeaderSize: nat := 8
  /** The largest payload `data_at` agrees to read. */
  const MaxPayloadRead: nat := 8 * 1024 * 1024

  /**
   * Chunk types, as their four bytes read little-endian. The source compares the type
   * with `strncmp(type, "h264", 4)` and the like; none of the names holds a NUL, so
   * that is equality of all four bytes, and so of these numbers.
   */
  const TagH264: u32 := 0x3436_3268  // "h264"
  const TagPdts: u32 := 0x7374_6470  // "pdts"
  const TagTime: u32 := 0x656d_6974  // "time"
  const TagInfo: u32 := 0x6f66_6e69  // "info"

  datatype ChunkHeader = ChunkHeader(tag: u32, size: u32)

  /** A successful header read: the header and the position of the next one. */
  datatype HeaderRead = HeaderRead(header: ChunkHeader, next: nat)

  /** The result of a payload read: success, and the caller's buffer afterwards. */
  datatype DataRead = DataRead(ok: bool, data: seq<byte>)

  /** The addressable size of a file of `length` bytes: everything after the file header. */
  function UsableSize(length: nat): (r: nat)
    ensures length < FileHeaderSize ==> r == 0
    ensures length >= FileHeaderSize ==> r + FileHeaderSize == length
  {
    if length < FileHeaderSize then 0 else length - FileHeaderSize
  }

  /**
   * `(size + 3) & -4` evaluated in 32-bit unsigned arithmetic: the size rounded up
   * to a multiple of 4, except that sizes of 2^32 - 3 and above wrap to 0.
   */
  function RoundUp4(size: u32): (r: u32)
    ensures r % 4 == 0
    ensures size + 3 < U32Modulus ==> size <= r < size + 4
    ensures size + 3 >= U32Modulus ==> r == 0
  {
    (size + 3) % U32Modulus / 4 * 4
  }

  function ParseHeader(contents: seq<byte>, at: nat): ChunkHeader
    requires at + ChunkHeaderSize <= |contents|
  {
    ChunkHeader(U32At(contents, at), U32At(contents, at + 4))
  }

  /**
   * `header_at` on a file with the given contents and addressable size: the header of
   * the chunk at chunk position pos (file byte pos + 12) and the position after its
   * padded payload, or None past the end or when the 8 header bytes are not all there.
   */
  function HeaderAt(contents: seq<byte>, size: nat, pos: nat): (r: Option<HeaderRead>)
    ensures r.None? <==> pos >= size || pos + FileHeaderSize + ChunkHeaderSize > |contents|
    ensures r.Some? ==> r.value.header == ParseHeader(contents, pos + FileHeaderSize)
    ensures r.Some? ==> r.value.next == pos + ChunkHeaderSize + RoundUp4(r.value.header.size)
    ensures r.Some? ==> r.value.next > pos
  {
    if pos >= size || pos + FileHeaderSize + ChunkHeaderSize > |contents| then None
    else
      var h := ParseHeader(contents, pos + FileHeaderSize);
      Some(HeaderRead(h, pos + ChunkHeaderSize + RoundUp4(h.size)))
  }

  /** How many payload bytes `data_at` asks for: max_size 0 means the whole payload. */
  function PayloadCount(chunkSize: nat, maxSize: nat): (r: nat)
    ensures r <= chunkSize
    ensures maxSize == 0 ==> r == chunkSize
    ensures maxSize > 0 ==> r == Min(maxSize, chunkSize)
  {
    if maxSize == 0 || maxSize > chunkSize then chunkSize else maxSize
  }

  /**
   * `data_at(hdrpos, data, maxSize)`: re-read the header at hdrpos, then append
   * PayloadCount bytes of its payload to data. A missing header or a count over
   * 8 MiB fails with data untouched. A short read fails after the append: data then
   * holds the bytes that were there, padded with zeros to the requested length.
   */
  function ReadPayload(contents: seq<byte>, hdrpos: nat, data: seq<byte>, maxSize: nat): (r: DataRead)
    ensures |r.data| >= |data| && r.data[..|data|] == data
    ensures hdrpos + FileHeaderSize + ChunkHeaderSize > |contents| ==> r == DataRead(false, data)
    ensures hdrpos + FileHeaderSize + ChunkHeaderSize <= |contents| ==>
      var at := hdrpos + FileHeaderSize + ChunkHeaderSize;
      var n := PayloadCount(ParseHeader(contents, hdrpos + FileHeaderSize).size, maxSize);
      && (n > MaxPayloadRead ==> r == DataRead(false, data))
      && (n <= MaxPayloadRead ==> |r.data| == |data| + n)
      && (n <= MaxPayloadRead ==> (r.ok <==> at + n <= |contents|))
      && (r.ok ==> r.data == data + contents[at..at + n])
  {
    var hp := hdrpos + FileHeaderSize;
    if hp + ChunkHeaderSize > |contents| then DataRead(false, data)
    else
      var n := PayloadCount(ParseHeader(contents, hp).size, maxSize);
      var at := hp + ChunkHeaderSize;
      if n > MaxPayloadRead then DataRead(false, data)
      else if n == 0 then DataRead(true, data)
      else if at + n <= |contents| then DataRead(true, data + contents[at..at + n])
      else DataRead(false, data + contents[at..] + Zeros(at + n - |contents|))
  }

  /**
   * Whether `data_at` leaves the stream failed (its sticky fail bit set): its header
   * read or a non-empty payload read came up short. Refusing a count over 8 MiB
   * reads nothing and leaves the stream good.
   */
  predicate LeavesStreamFailed(contents: seq<byte>, hdrpos: nat, maxSize: nat)
  {
    var hp := hdrpos + FileHeaderSize;
    || hp + ChunkHeaderSize > |contents|
    || var n := PayloadCount(ParseHeader(contents, hp).size, maxSize);
       0 < n <= MaxPayloadRead && hp + ChunkHeaderSize + n > |contents|
  }

  /** With a read limit of at most 8 MiB, a read fails exactly when it leaves the stream failed. */
  lemma FailedReadLeavesStreamFailed(contents: seq<byte>, hdrpos: nat, data: seq<byte>, maxSize: nat)
    requires 0 < maxSize <= MaxPayloadRead
    ensures !ReadPayload(contents, hdrpos, data, maxSize).ok <==> LeavesStreamFailed(contents, hdrpos, maxSize)
  {
  }

  /** One physical file of a session, opened for chunk reading. */
  class RiffFile {
    const path: seq<char>
    const contents: seq<byte>
    /** Addressable size: the file length without its 12-byte header. */
    const size: nat
    /** Where this file starts in the session's concatenated byte space. */
    const offset: nat

    constructor (path: seq<char>, contents: seq<byte>, offset: nat)
      ensures this.path == path && this.contents == contents && this.offset == offset
      ensures |contents| < FileHeaderSize ==> size == 0
      ensures |contents| >= FileHeaderSize ==> size == |contents| - FileHeaderSize
    {
      this.path := path;
      this.contents := contents;
      this.offset := offset;
      this.size := UsableSize(|contents|);
    }

    /** `header_at`: on failure opos is the file's size, so iteration stops there. */
    method ReadHeader(pos: nat) returns (ok: bool, hdr: ChunkHeader, opos: nat)
      ensures ok <==> pos < size && pos + FileHeaderSize + ChunkHeaderSize <= |contents|
      ensures !ok ==> opos == size
      ensures ok ==> hdr == ParseHeader(contents, pos + FileHeaderSize)
      ensures ok ==> opos == pos + ChunkHeaderSize + RoundUp4(hdr.size) && opos > pos
    {
      var r := HeaderAt(contents, size, pos);
      match r
      case None =>
        ok, hdr, opos := false, ChunkHeader(0, 0), size;
      case Some(h) =>
        ok, hdr, opos := true, h.header, h.next;
    }

    /** `data_at`: appends to the caller's buffer and returns the new buffer. */
    method ReadData(hdrpos: nat, data: seq<byte>, maxSize: nat) returns (ok: bool, data': seq<byte>)
      ensures DataRead(ok, data') == ReadPayload(contents, hdrpos, data, maxSize)
      ensures |data'| >= |data| && data'[..|data|] == data
    {
      var r := ReadPayload(contents, hdrpos, data, maxSize);
      ok, data' := r.ok, r.data;
    }
  }

  /** One entry of the frame index (`VideoFrame`); `file` names a file of the session by position. */
  datatype VideoFrame = VideoFrame(
    pts: u64,
    time: u64,
    offset: nat,
    file: nat,
    steer: int,
    throttle: int,
    size: u32,
    index: nat,
    keyframe: bool)

  const EmptyFrame := VideoFrame(0, 0, 0, 0, 0, 0, 0, 0, false)

  /** The Annex B start code 00 00 00 01 followed by NAL header 0x27 (a sequence parameter set). */
  const KeyframePrefix: seq<byte> := [0x00, 0x00, 0x00, 0x01, 0x27]

  /** True when an access unit's first five bytes are the keyframe prefix; false for shorter data. */
  predicate StartsWithKeyframe(data: seq<byte>)
  {
    |data| >= |KeyframePrefix| && data[..|KeyframePrefix|] == KeyframePrefix
  }
}
