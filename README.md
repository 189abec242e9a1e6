# viewtune core, modelled in Dafny

viewtune is a viewer and batch indexer for driving-session recordings. A session
is a set of chunked files: a 12-byte file header, then chunks, each with a 4-byte
tag, a 32-bit size and a payload padded to a multiple of 4 bytes. The chunks hold
H.264 access units (`h264`), presentation timestamps (`pdts`), steering telemetry
(`time`) and metadata (`info`). This project models the parts of the program that
handle bytes, indices and the decoded-frame cache:

- `bytes.dfy` (module `Bytes`): byte and fixed-width integer helpers. These are
  little-endian field reads and 64-bit wrap-around subtraction.
- `container.dfy` (module `Container`): the chunk reader `RiffFile` of video.h
  (`header_at`, `data_at`, the size rule) and the `VideoFrame` record.
- `decoded.dfy` (module `Decoded`): `DecodedFrame` of video.h. Its buffer
  ownership is modelled as a `Picture` value with buffer ids, plus a class whose
  methods are proved against the pure update functions.
- `telemetry.dfy` (module `Telemetry`): the walk over the `time` chunk's train of
  steer, bus and trim records. viewtune.cpp and gobble.cpp share this walk.
- `seek.dfy` (module `Seek`): `determine_frame_time` with its five modes, and
  `get_keyframe_for_time`. Both are bisections over the frame index, proved
  against linear-scan definitions.
- `indexer.dfy` (module `Indexer`): the chunk loop of `analyze_all_riffs`, which
  builds the frame index, and its pts normalisation pass.
- `cache.dfy` (module `Cache`): `get_frame_at`. It covers the time-keyed cache,
  the free list, oldest-first eviction with hysteresis, and the fill of one group
  of pictures.
- `gobble.cpp` is modelled in `gobble.dfy` (module `Gobble`): the per-range
  re-scan `KeyframeWork::work`, `next_frame`, and the splitter
  `RiffFileWork::work`, which cuts a file into keyframe-bounded ranges.
- `riffs.dfy` (modules `NameMatch` and `Riffs`): `matches_except_for_digits`,
  plus the directory prefix and the cumulative per-file offsets of
  `load_all_riffs`.

Each loop of the source is a Dafny `method` with a `while` loop. Its
postcondition ties the result, or the object's new state, to a recursive
function. The source's promises are then proved as lemmas about that function.
The file system, the decoder and the clock are parameters:

- A session file is a byte sequence.
- The directory listing is a sequence of (name, contents) pairs, taken in the
  order given.
- The decoder is a function from an index cursor to an optional picture and an
  optional next cursor.

A chunk type is compared as a 32-bit number. The source compares the four
characters with `strncmp(..., 4)`, and no tag name contains a NUL byte, so the
two comparisons agree.

The keyframe test looks for an H.264 Annex B start code `00 00 00 01` followed by
the NAL header byte `0x27`. That byte is nal_unit_type 7, a sequence parameter
set (Table 7-1 of ITU-T H.264). A comment at viewtune.cpp:272 says `28`; the
model follows the code.

Where a description of the program and its code differ, the model follows the
code:

- In `determine_frame_time`, mode Preceding with a query at or after the last
  entry returns the last entry's time, not its predecessor. This is because the
  clamp at viewtune.cpp:122-124 comes before the mode switch. See
  `Seek.PrecedingStaysAtLastEntry`.
- `data_header_at`, called at gobble.cpp:63, is not defined in any file of the
  repository. The model reads it as `header_at` followed by
  `data_at(pos, v, 256)`. The header must be readable and the payload read must
  succeed.

## Model

| member | source | states |
|---|---|---|
| Bytes.I16At | viewtune.cpp:78-82 | a record's steer and throttle fields are signed 16-bit values |
| Bytes.SubU64 | viewtune.cpp:365-366 | `pts -= ptsOffset` on 64-bit unsigned values: the plain difference, or that difference plus 2^64 when it would be negative |
| Container.UsableSize | video.h:30-37 | a file's addressable size is its length minus the 12-byte header, or 0 for a file shorter than 12 bytes |
| Container.RoundUp4 | video.h:51 | `(size + 3) & -4` in 32-bit arithmetic is a multiple of 4 in [size, size + 4), except that sizes of 2^32 - 3 and above wrap to 0 |
| Container.HeaderAt | video.h:40-53 | a header read fails exactly when pos is at or past the size or the 8 bytes at pos + 12 are not all there; on success the header is those bytes and the next position is pos + 8 + the rounded size, strictly after pos |
| Container.PayloadCount | video.h:59-64 | a read takes min(max_size, size) bytes, and the whole payload when max_size is 0 |
| Container.ReadPayload | video.h:55-82 | `data_at` keeps the caller's bytes as a prefix; it fails with them untouched when the header is missing or the count is over 8 MiB; otherwise the buffer grows by the count, and the read succeeds exactly when the payload is all there, appending those bytes |
| Container.FailedReadLeavesStreamFailed | video.h:55-80 | with a limit of at most 8 MiB, `data_at` fails exactly when its header read or its payload read comes up short, the two reads that leave the stream's sticky fail bit set |
| Container.RiffFile.constructor | video.h:25-38 | a file's size is its length minus 12, or 0 when shorter, and its path, contents and session offset are the given ones |
| Container.RiffFile.ReadHeader | video.h:40-53 | `header_at` succeeds exactly when pos is before the size and the header bytes are there; a failure reports the size as the next position; a success reports the parsed header and the strictly later next position |
| Container.RiffFile.ReadData | video.h:55-82 | `data_at` returns exactly ReadPayload's success flag and buffer, which keeps the caller's bytes as a prefix |
| Decoded.ClearPicture | video.h:140-147 | `clear` drops all three buffers, releases exactly the ones held, and keeps time, size and keyframe |
| Decoded.SetDecodedPicture | video.h:107-118 | `set_decoded` installs the new yuv buffer and new time, size and keyframe; it releases rgb and cropped, and releases the old yuv buffer only when a different one is passed |
| Decoded.DecodeRgbPicture | video.h:119-125 | `decode_rgb` returns the existing rgb buffer, or installs and returns a new one when there is none |
| Decoded.CropPicture | video.h:126-132 | `crop` returns the existing cropped buffer, or installs and returns a new one when there is none |
| Decoded.ConversionsAllocateOnce | video.h:119-132 | a second `decode_rgb` or `crop` changes nothing and returns the buffer of the first |
| Decoded.ReuseKeepsYuv | video.h:107-113 | passing back the picture's own yuv buffer keeps it and does not release it |
| Decoded.DecodedFrame.constructor | video.h:105 | a new frame holds no buffers, time 0, size 0 and no keyframe |
| Decoded.DecodedFrame.SetDecoded | video.h:107-118 | the frame's new state and the released buffers are those of SetDecodedPicture |
| Decoded.DecodedFrame.DecodeRgb | video.h:119-125 | the frame's new state and the returned buffer are those of DecodeRgbPicture |
| Decoded.DecodedFrame.Crop | video.h:126-132 | the frame's new state and the returned buffer are those of CropPicture |
| Decoded.DecodedFrame.Clear | video.h:140-147 | the frame's new state and the released buffers are those of ClearPicture |
| Telemetry.RecordLength | gobble.cpp:71-90 | an 'S' record consumes 6 bytes, an 'i' record 22 and a 'T' record 10; any other code ends the train |
| Telemetry.GuardUnderflows | gobble.cpp:67-88 | for a payload under 6 bytes, the guard as written lets the walk start at offset 8 although no record fits, and it still holds at the offset `v.size()` the default branch sets |
| Telemetry.GuardsAgree | gobble.cpp:68 | for payloads of 6 bytes or more, the guard as written is the in-bounds guard |
| Telemetry.WalkTrain | gobble.cpp:66-91 | the loop computes the steering that the record walk from offset 8 leaves |
| Telemetry.VisitedInBounds | viewtune.cpp:303-327 | every record the walk reads lies inside the payload, the offsets it visits strictly increase, and the first is the start offset |
| Telemetry.WalkWithoutSteer | gobble.cpp:72-90 | a train without an 'S' record leaves steer and throttle as they were |
| Telemetry.WalkTakesLastSteer | gobble.cpp:72-77 | after the walk, steer and throttle are those of the last 'S' record visited, with the -32768 sentinel read as 0 |
| Seek.FirstAfter | viewtune.cpp:103-113 | the first entry whose time is after the query: every earlier entry is at or before it |
| Seek.FirstAtLeast | viewtune.cpp:115-117 | the first entry whose time is at least x: every earlier entry is before x |
| Seek.AfterFirstAfter | viewtune.cpp:105-113 | on a sorted index, every entry from FirstAfter on is after the query |
| Seek.AfterFirstAtLeast | viewtune.cpp:115-117 | on a sorted index, every entry from FirstAtLeast on is at least x |
| Seek.Bisect | viewtune.cpp:103-113 | the bisection ends with top == bottom + 1, bottom the last entry at or before the query (0 if none), and top the first entry after it whenever some entry is at or before the query |
| Seek.DetermineFrameTime | viewtune.cpp:98-147 | `determine_frame_time` returns ResolveTime, the linear-scan definition of the five modes |
| Seek.KeyframeAtOrBefore | viewtune.cpp:164-166 | the walk back stops at a keyframe or at entry 0, and passes no keyframe on the way |
| Seek.GetKeyframeForTime | viewtune.cpp:149-168 | `get_keyframe_for_time` returns nothing exactly for an empty index; otherwise an entry at or before the last entry at or before the query, which is a keyframe or entry 0, with no keyframe between the two |
| Seek.FirstAfterBracket | viewtune.cpp:125-126 | when the query lies in [time of entry b, time of entry b+1), the first entry after it is b + 1 |
| Seek.ResolveEmpty | viewtune.cpp:100-102 | an empty index resolves every query to 0 |
| Seek.ResolveClamps | viewtune.cpp:118-124 | in every mode, a query before the first entry gives the first entry's time, and one at or after the last entry gives the last entry's time |
| Seek.ResolveIsEntryTime | viewtune.cpp:114-144 | on a non-empty sorted index every query resolves to some entry's time, between the first and the last |
| Seek.ResolveBetween | viewtune.cpp:127-138 | between two entries: Earlier gives bottom, Following gives top, Later gives bottom only on an exact match, and Closest gives the nearer, ties to bottom |
| Seek.ResolvePrecedingExact | viewtune.cpp:139-143 | on an exact match at the start of a run of equal times, Preceding gives the strictly earlier time before the run, or the time itself for entry 0 |
| Seek.ResolvePrecedingInexact | viewtune.cpp:139-143 | without an exact match, Preceding gives bottom |
| Seek.ResolveExactMatch | viewtune.cpp:127-138 | on an exact match, Earlier, Later and Closest give the query's time, and Following gives the next larger entry time |
| Seek.PrecedingStaysAtLastEntry | viewtune.cpp:122-124 | Preceding at the last entry's time gives that time, not the predecessor's |
| Indexer.AppendWellIndexed | viewtune.cpp:339-342 | pushing an indexed access unit that lies after every entry keeps the index well formed |
| Indexer.IndexChunkWellIndexed | viewtune.cpp:330-344 | one chunk keeps the index well formed and only appends; the running record keeps time equal to pts and keeps its file; every entry still lies before the next header |
| Indexer.IndexFileStep | viewtune.cpp:270-349 | the header loop over a file is one chunk, then the loop from the next header |
| Indexer.IndexFileWellIndexed | viewtune.cpp:270-349 | the loop over one file keeps the index well formed |
| Indexer.IndexFilesWellIndexed | viewtune.cpp:262-350 | the loop over all files yields a well-formed index: each entry's index is its position, its time is its pts, it is an `h264` chunk whose read gave more than 16 bytes, its keyframe flag is the prefix test, and entries follow file and chunk order |
| Indexer.IndexOneChunk | viewtune.cpp:277-347 | one chunk of the scan, as the function of the running record and the index; it reports a failed stream exactly when a `pdts`, `time` or `h264` read failed (StopsScan) |
| Indexer.ScanRiffs | viewtune.cpp:262-350 | the chunk loop returns the index of the recursive definition, and that index is well formed; after a failed read it leaves the file, as the following `header_at` on the failed stream does |
| Indexer.PtsOffset | viewtune.cpp:351-354 | the offset is max(pts[0], pts[1]) for two entries or more, and 0 otherwise |
| Indexer.NormalizePts | viewtune.cpp:355-376 | the pass keeps the length and rewrites each entry to NormalizedAt: valid pts and time lose the offset modulo 2^64; other entries take the running previous pts as both |
| Indexer.PrevPtsIsLastValid | viewtune.cpp:355-376 | the running previous pts is the normalised pts of the last valid entry before, or 0 when there is none |
| Indexer.NormalizedKeepsTimeIsPts | viewtune.cpp:366-373 | an entry whose time equals its pts still does after normalisation |
| Indexer.AnalyzeAllRiffs | viewtune.cpp:255-376 | the index is the normalised scan, and every entry ends with time == pts and index == its position |
| Indexer.IndexChunkEffect | viewtune.cpp:279-345 | one chunk sets the running pts and time from a `pdts` read of 16 bytes or more, the steering from a `time` train's walk, and appends an entry for an `h264` read of more than 16 bytes; nothing else changes |
| Indexer.IndexChunkFollows | viewtune.cpp:277-347 | after one more chunk, the running record and the index are those of the chunks read so far |
| Indexer.IndexFileFollows | viewtune.cpp:270-349 | the loop over one file leaves the running record and index of the chunks read before it plus the file's chunks |
| Indexer.IndexFilesFollows | viewtune.cpp:262-350 | the loop over the files leaves the running record and index of all chunks read, the running record carried from one file to the next |
| Indexer.IndexFilesGivesEntries | viewtune.cpp:262-350 | the session scan's index is Entries of the chunks it reads |
| Indexer.AccessUnitPositionsExact | viewtune.cpp:331-333 | the access-unit positions are increasing and are exactly the chunks that are `h264` chunks read with more than 16 bytes |
| Indexer.EntriesCount | viewtune.cpp:331-342 | the index gets exactly as many entries as there are access units among the chunks |
| Indexer.EntryAt | viewtune.cpp:331-342 | the i-th entry is the entry built for the i-th access unit, with the pts and steering accumulated over the chunks before it |
| Indexer.EntriesAreAccessUnits | viewtune.cpp:331-342 | Entries has one entry per access unit, and entry i is the i-th access unit's entry after the chunks before it |
| Indexer.IndexFilesIndexesEveryAccessUnit | viewtune.cpp:262-350 | the session index has exactly one entry per readable `h264` chunk of more than 16 bytes, in order; entry i has index i, that chunk's file, position and size, the keyframe test of its payload, and the pts and steering of the chunks before it |
| Indexer.LastPtsWithoutPdts | viewtune.cpp:279-289 | before any `pdts` chunk read with 16 bytes or more, pts (and time) is 0 |
| Indexer.LastPtsIsLastPdts | viewtune.cpp:279-289 | pts is the first 8 bytes of the last `pdts` chunk read with 16 bytes or more, whichever file it is in |
| Indexer.LastSteeringSkipsQuiet | viewtune.cpp:290-330 | chunks that read no steer record leave steer and throttle as they were |
| Indexer.LastSteeringWithoutSteer | viewtune.cpp:290-330 | before any steer record, steer and throttle are 0 |
| Indexer.LastSteeringIsLastSteer | viewtune.cpp:290-330 | steer and throttle are those of the last 'S' record read, across chunks and files |
| Cache.MinKey | viewtune.cpp:184-185 | the cache's first entry is its smallest time |
| Cache.EvictAppends | viewtune.cpp:183-187 | eviction only appends to the free list |
| Cache.EvictRemovesOldest | viewtune.cpp:182-188 | eviction removes at least one entry, only keys below every kept key, and keeps the rest unchanged; it stops with at most 260 entries left or a keyframe as the oldest; every removed entry but the first is a non-keyframe, and fewer than 260 are left only when exactly one was removed |
| Cache.FreedStep | viewtune.cpp:184-185 | moving the oldest picture to the front of what was freed keeps the freed list exactly the missing pictures in time order |
| Cache.EvictFreesOldestFirst | viewtune.cpp:183-187 | the pictures moved to the free list are exactly the evicted ones, one per evicted key, oldest first |
| Cache.TakeBuffer | viewtune.cpp:195-201 | a buffer is taken from the front of the free list, or is new when the list is empty |
| Cache.DecodeInto | viewtune.cpp:206 | a decoded picture carries the decoder's time, size and keyframe flag, keeps a held yuv buffer or gets a new one, and holds no rgb or cropped buffer |
| Cache.FirstAtOrAfter | viewtune.cpp:215-217 | the position of the first picture at or after a time: every earlier one is before it |
| Cache.FillStoresProduced | viewtune.cpp:193-222 | the fill stores every produced picture under its own time: the keys become the old keys plus the produced times, an entry no picture replaced is kept, and the cache stays keyed by time |
| Cache.FillKeepsResult | viewtune.cpp:215-217 | once the fill holds a result it returns that result |
| Cache.FillReturnsFirst | viewtune.cpp:193-222 | the fill returns the first produced picture at or after the resolved time, with its time, size and keyframe flag, and returns null exactly when no produced picture qualifies |
| Cache.FillReusesFreeFront | viewtune.cpp:195-210 | each decode call takes the front of the free list (or a new frame); the rest of the list stays in order, and a failed decode puts its frame back at the end |
| Cache.GetFrameProperties | viewtune.cpp:175-224 | a hit returns the cached picture for the resolved time and changes neither the cache nor the free list; every call keeps pictures keyed by time |
| Cache.GetFrameFillsOnMiss | viewtune.cpp:175-224 | a miss evicts only when 350 entries are held, fills from the keyframe at or before the resolved time, stores every produced picture, returns the first one at or after the resolved time (null only when none is), and reuses the front of the free list |
| Cache.FrameCache.constructor | viewtune.cpp:87-88 | the cache and the free list start empty |
| Cache.FrameCache.GetFrameAt | viewtune.cpp:175-224 | `get_frame_at` leaves the state, and returns the result, of GetFrame |
| Cache.FrameCache.EvictOldest | viewtune.cpp:182-188 | the do-while leaves the cache and free list of Evict and allocates no buffer |
| Cache.FrameCache.DecodeGroup | viewtune.cpp:189-222 | the fill loop leaves the state, and returns the result, of Fill from the keyframe cursor |
| Gobble.ScanRangeStep | gobble.cpp:60-127 | the range scan is one chunk, then the scan from pos + 8 + the rounded size |
| Gobble.ScanChunkIndexed | gobble.cpp:66-114 | one chunk keeps the re-scan's promises (RangeIndexed), only appends, and never takes the 0 or 0x8000000000000000 marker as the running pts |
| Gobble.ScanRangeIndexed | gobble.cpp:54-127 | the re-scan of a range yields frames whose index is their position, only the first a keyframe, time equal to pts, each an `h264` chunk of the range, positions increasing |
| Gobble.NextFrameWalksInOrder | gobble.cpp:146-152 | `next_frame` returns the entry at index + 1, or nothing for the last entry |
| Gobble.ScanChunkEffect | gobble.cpp:66-115 | one chunk sets the running pts from a `pdts` value of 8 bytes that is neither 0 nor 2^63, the steering from a `time` train's walk, and appends an entry for an `h264` chunk; nothing else changes |
| Gobble.ScanRangeFollows | gobble.cpp:60-127 | the re-scan from pos leaves the frames of the chunks read before it plus the range's chunks |
| Gobble.RangeAccessUnitsExact | gobble.cpp:103 | the `h264` positions of the walk are increasing and are exactly its `h264` chunks |
| Gobble.RangeEntriesAreAccessUnits | gobble.cpp:103-115 | the frames have one entry per `h264` chunk, entry i being the i-th one's entry after the chunks before it |
| Gobble.ScanRangeIndexesEveryAccessUnit | gobble.cpp:56-127 | the re-scan's frames are exactly one per `h264` chunk it reads, in order; frame i has index i, that chunk's position and size, the pts of the last qualifying `pdts` before it (else 0), the last steering before it, and is a keyframe exactly when i is 0 |
| Gobble.RangePtsWithoutPdts | gobble.cpp:94-102 | with no qualifying `pdts` value before it, a frame's pts is 0 |
| Gobble.RangePtsIsLastPdts | gobble.cpp:94-102 | the pts is the last `pdts` value that is neither 0 nor 2^63 |
| Gobble.RangeSteeringSkipsQuiet | gobble.cpp:66-92 | chunks that read no steer record leave steer and throttle as they were |
| Gobble.RangeSteeringIsLastSteer | gobble.cpp:66-92 | steer and throttle are those of the last 'S' record read in the range |
| Gobble.KeyframeWork.constructor | gobble.cpp:34-39 | a work item holds its file, range and no frames |
| Gobble.KeyframeWork.Work | gobble.cpp:54-127 | the scan loop leaves the frames of ScanRange from the range start |
| Gobble.ScanOneChunk | gobble.cpp:66-121 | one chunk of the re-scan, as the function of the running pts, steering and frames |
| Gobble.KeyframeTestAsWritten | gobble.cpp:186-187 | the five-byte comparison is defined only for a peek of five bytes or more, and then compares the first five |
| Gobble.ShortAccessUnitPeeksPastEnd | gobble.cpp:181-187 | a file whose `h264` chunk holds 3 bytes is read successfully into a 3-byte peek, on which the five-byte comparison is undefined |
| Gobble.StartsWithKeyframeMatchesAsWritten | gobble.cpp:186-187 | the model's keyframe test agrees with the comparison wherever that is defined, and rejects shorter peeks |
| Gobble.FinishSplitOrdered | gobble.cpp:195-197 | the final range [startPos, size) is added only when startPos < size, is not counted, and keeps the ranges ordered |
| Gobble.SplitRangesOrdered | gobble.cpp:165-198 | the splitter's ranges each have start <= end <= size, starts never decrease and ends strictly increase; every counted range ends at a keyframe chunk; the only other range is the last and ends at the size |
| Gobble.PushKeyframeRange | gobble.cpp:187-191 | submitting [startPos, pos) at a keyframe chunk and restarting at the last `time` chunk keeps the splitter's state |
| Gobble.SplitAtKeyframe | gobble.cpp:181-191 | from a keyframe chunk, the rest of the walk keeps the splitter's promises |
| Gobble.RiffFileWork.constructor | gobble.cpp:156-159 | a work item holds its file, no ranges and no count |
| Gobble.RiffFileWork.Work | gobble.cpp:165-198 | the header walk leaves the ranges and count of SplitFrom from position 0 |
| Gobble.SplitStepFollows | gobble.cpp:178-191 | one more chunk keeps startPos, lastTimePos, the submitted ranges and the count those of the chunks walked |
| Gobble.SplitFromFollows | gobble.cpp:171-198 | the header walk ends in FinishSplit of the start, ranges and count of every chunk it walks |
| Gobble.SplitChunksClassified | gobble.cpp:176-187 | each chunk the walk records is a `time` chunk, or a keyframe chunk, exactly as the file has it |
| Gobble.SplitChunksIncrease | gobble.cpp:174-193 | the walk visits strictly increasing positions from its start |
| Gobble.KeyframeIndicesExact | gobble.cpp:186-187 | the keyframe indices are increasing and are exactly the walk's keyframe chunks |
| Gobble.RangeStartOfExtends | gobble.cpp:189 | a later chunk does not change where the ranges before it start |
| Gobble.KeyframeRangesCount | gobble.cpp:187-190 | one range is submitted per keyframe chunk |
| Gobble.RangeStartIsRangeStartOf | gobble.cpp:178-190 | after the walk, startPos is the last `time` chunk up to the last keyframe, or 0 |
| Gobble.KeyframeRangeAt | gobble.cpp:187-190 | the i-th submitted range ends at the i-th keyframe and starts at 0 for the first, else at the last `time` chunk up to the keyframe before |
| Gobble.SplitIsKeyframeRanges | gobble.cpp:166-198 | the splitter's result is the final range added after the walk's keyframe ranges |
| Gobble.FinishSplitShape | gobble.cpp:196-198 | the final range [startPos, size) is added, uncounted, after the others when startPos < size |
| Gobble.SplitKeyframesAreKeyframeChunks | gobble.cpp:181-191 | the walk submits a range at exactly its keyframe chunks |
| Gobble.SplitSubmitsKeyframeRanges | gobble.cpp:166-198 | the counted ranges are exactly one per keyframe chunk of the walk, in order, the i-th ending at the i-th keyframe and starting at the last `time` chunk up to the keyframe before (0 for the first); the only other range runs from the last such start to the size, present exactly when not empty |
| Gobble.LastTimeWithoutTime | gobble.cpp:178-180 | before any `time` chunk, lastTimePos is 0 |
| Gobble.LastTimeIsLastTimeChunk | gobble.cpp:178-180 | lastTimePos is the position of the last `time` chunk walked |
| NameMatch.PrefixFrom | riffs.cpp:21-25 | the common-prefix scan ends within both strings |
| NameMatch.PrefixFromStops | riffs.cpp:21-25 | the characters before the end of the common prefix agree, and the scan stops at a difference or at the end of a string |
| NameMatch.SuffixFrom | riffs.cpp:26-32 | the common-suffix scan ends between the prefix and the two ends, having moved both ends by the same amount |
| NameMatch.SuffixFromStops | riffs.cpp:26-32 | the characters from the start of the common suffix agree, and the scan stops at the prefix or a difference |
| NameMatch.PrefixIs | riffs.cpp:21-25 | a prefix scan whose stop point is known ends there |
| NameMatch.SuffixIs | riffs.cpp:26-32 | a suffix scan whose stop points are known ends there |
| NameMatch.ScanPrefix | riffs.cpp:21-25 | the first loop computes PrefixFrom |
| NameMatch.ScanSuffix | riffs.cpp:26-32 | the second loop computes SuffixFrom |
| NameMatch.ScanDigits | riffs.cpp:33-42 | each digit loop returns false exactly when a non-digit lies in its segment |
| NameMatch.MatchesExceptForDigits | riffs.cpp:17-44 | `matches_except_for_digits` is true exactly when both middle segments, between the common prefix and the common suffix, are all digits |
| NameMatch.DigitRunVariantSymmetric | riffs.cpp:17-44 | two names that differ by one digit run in the middle are related in both directions |
| NameMatch.DigitsUpToSuffix | riffs.cpp:26-32 | when the suffix scan runs into the common prefix of the shorter name, every character of the longer name from the start of its digit run up to the suffix is a digit |
| NameMatch.MatchesGivesVariant | riffs.cpp:17-44 | a match splits both names into the common prefix, a digit run and a common suffix |
| NameMatch.LongerSideDigits | riffs.cpp:33-42 | when the shorter name's middle is empty, the longer name's middle is digits |
| NameMatch.SegmentsAreDigits | riffs.cpp:33-42 | for names that differ by one digit run, both middle segments the scans find are digits |
| NameMatch.VariantMatches | riffs.cpp:17-44 | names that are one prefix, a digit run and one suffix match |
| NameMatch.MatchesIffVariant | riffs.cpp:17-44 | two names match exactly when they are x + d1 + y and x + d2 + y with d1 and d2 digit runs |
| NameMatch.MatchesReflexive | riffs.cpp:17-44 | a name matches itself |
| NameMatch.MatchesSymmetric | riffs.cpp:17-44 | the result does not depend on the order of the two names |
| NameMatch.NonDigitIsShared | riffs.cpp:17-44 | a character that is not a digit occurs in both names when they match |
| NameMatch.RunNumbersMatch | riffs.cpp:17-44 | "run1.riff" and "run22.riff" match |
| NameMatch.LetterDoesNotMatch | riffs.cpp:33-42 | "run1.riff" and "runA.riff" do not match |
| Riffs.LastSlash | riffs.cpp:48 | `find_last_of('/')` gives the position of a '/' with no '/' after it, or nothing when there is none |
| Riffs.DirPrefix | riffs.cpp:47-54 | the directory is "." without a '/', and otherwise the text before the last '/' |
| Riffs.AcceptedStep | riffs.cpp:57-62 | one more listed entry adds its file, under its entry path, exactly when that path matches the target |
| Riffs.AcceptedAreMatching | riffs.cpp:57-65 | every accepted file is a listed entry under its entry path, and that path matches the target |
| Riffs.AcceptedNeedsSlash | riffs.cpp:57-62 | every entry path holds a '/', so a target without one accepts no entry |
| Riffs.AcceptedHasOwnEntry | riffs.cpp:57-62 | an entry is accepted when the target is its own entry path |
| Riffs.EntryPath | riffs.cpp:57-59 | a listed entry's path is the directory, a '/' and the entry's name |
| Riffs.BarePathLoadsNothing | riffs.cpp:47-62 | a session path without a '/' loads no file: every entry path starts with "./", and the '/' is not a digit the session path could match |
| Riffs.BareRunLoadsNothing | riffs.cpp:47-62 | opening "run1.riff" with that file in the current directory loads nothing |
| Riffs.BaseName | riffs.cpp:48 | the file name part of a path is a suffix without a '/' |
| Riffs.ListedPath | riffs.cpp:47-59 | the listed path of the session's own file is the path itself when it has a '/', and "./" and the path otherwise |
| Riffs.AcceptedIntendedHasOwnFile | riffs.cpp:57-65 | matched against that listed path, the listed file the session path names is always loaded |
| Riffs.BareRunLoadsOwnFile | riffs.cpp:47-62 | matched against the listed path, "run1.riff" in the current directory is loaded as "./run1.riff" |
| Riffs.LoadedExtends | riffs.cpp:63-64 | opening one more accepted file at the total size so far keeps each file's offset the sum of the sizes before it |
| Riffs.LoadAllRiffs | riffs.cpp:46-67 | `load_all_riffs` opens the accepted files under their entry paths in listing order, and each one's offset is the sum of the sizes of the files accepted before it |

## Left out

- Threads and the work queue (workqueue.cpp, workqueue.h) are left out. `add_work` is
  modelled as appending the range to the splitter's `submitted` list. The atomic
  counter `numChunksToDecode` is the per-file field `keyframeRanges`, which counts
  the same ranges. The destructor increment and gobble's polling `main` are not
  modelled.
- video.cpp, the libavcodec wrapper, is left out. The cache's decoder is a
  parameter that is assumed to advance its cursor strictly (`Cache.Advances`).
  gobble's decode loop (gobble.cpp:128-141) does nothing with its pictures, so only
  `next_frame`, the successor rule it uses, is modelled.
- The FLTK GUI is left out: the progress window of `analyze_all_riffs`, the widgets,
  the idle callback and the viewer's `main`.
- Floating point is left out. Steer and throttle are kept as raw signed 16-bit
  readings, with the -32768 sentinel read as 0; the division by 16383 is not
  modelled. `finalFrameTime` and the seconds/microseconds conversions are not
  modelled either.
- The file system is left out. Opening files and the exception on a failed open
  are not modelled; a file is its contents. The directory listing is a parameter,
  a sequence of entry names with their contents, taken in the order given.
- The stream's sticky fail bit is modelled by what sets it
  (`Container.LeavesStreamFailed`). In `analyze_all_riffs` the next `header_at`
  then fails and the file's loop ends (`Indexer.StopsScan`). The gobble loops
  break on a failed read, so they never read from a failed stream. A refusal over
  8 MiB leaves the stream good.
- Indexer.IndexFilesIndexesEveryAccessUnit: entry indices are unbounded. The
  source stores `(uint32_t)gFrames.size()` (viewtune.cpp:341) and
  `frames_.size()` (gobble.cpp:111) in a 32-bit field, which wraps only after 2^32
  entries.
- Riffs.EntryPath: always joins with one '/'. `std::filesystem` adds no separator
  after a directory that already ends in '/', which happens only for a session
  path containing "//".
- The separator replacement at riffs.cpp:61 is not modelled. Outside Windows it
  replaces '/' by '/'.
- Diagnostics written to stderr are not modelled. These include the normalisation
  warnings, the "unknown chunk type" message, the "too large" message of gobble.cpp
  and the `verbose` tracing of the cache.
- Chunk positions and session offsets are unbounded `nat`s. The model does not
  cover the 64-bit wrap-around of `pos` or of the summed `offset_`; reaching it
  would take a file of 2^64 bytes. The 32-bit wrap of the padded size is modelled.
- The copies of `matches_except_for_digits` and `load_all_riffs` in viewtune.cpp
  (lines 49-76 and 226-247) are the same code as in riffs.cpp. They are modelled
  once.
- Seek.DetermineFrameTime: needs an index sorted by time. The code does not
  establish this, since entries are appended in file order.
- Seek.GetKeyframeForTime: needs an index sorted by time, for the same reason.
- Cache.FrameCache.GetFrameAt: needs a non-empty index, because
  `get_keyframe_for_time` returns null on an empty one and `get_frame_at`
  dereferences that result. It also needs a time-sorted index.
- Cache.FillStoresProduced: does not bound the cache's size. The fill stores a whole
  group of pictures, however many 350 would allow, and the source does not bound
  it either.
- Telemetry.WalkTrain: follows the guard the loop needs (a whole record fits), not
  the underflowing guard as written; see Findings.
- Gobble.KeyframeWork.Work: reads `data_header_at` as described above. That
  function is not part of this model's sources, so this reading is an assumption.

## Findings

| source | as written | input that shows it | evidently intended | confidence | as-written member | corrected member |
|---|---|---|---|---|---|---|
| gobble.cpp:68 | `while (offset <= v.size() - 6)` subtracts in unsigned `size_t`. The same guard is at viewtune.cpp:304 | a `time` payload of 3 bytes: 3 - 6 wraps to 2^64 - 3, so the walk reads a 6-byte record at offset 8 of a 3-byte buffer; the default branch's `offset = v.size()` (gobble.cpp:88, viewtune.cpp:324) still passes the wrapped guard, so the loop reads at offset 3 again and most likely never ends | walk only while a whole 6-byte record lies inside the payload | not executed | Telemetry.GuardUnderflows | Telemetry.VisitedInBounds |
| gobble.cpp:187 | `memcmp(&v[0], kf, 5)` on a peek of min(16, size) bytes | a file whose only chunk is an `h264` chunk of size 3: the peek succeeds with 3 bytes and the comparison reads 5 | compare only a peek of at least 5 bytes, and treat a shorter one as not a keyframe | not executed | Gobble.ShortAccessUnitPeeksPastEnd | Gobble.StartsWithKeyframeMatchesAsWritten |
| riffs.cpp:47-62 | `load_all_riffs` lists "." for a path without a '/', and compares each entry's full path `./name` with the path as given | opening "run1.riff" from its own directory: the entry path "./run1.riff" does not match "run1.riff", so the session has no file | compare the entries with the path of the session's own file in the listed directory, "./run1.riff" | not executed | Riffs.BarePathLoadsNothing | Riffs.AcceptedIntendedHasOwnFile |
