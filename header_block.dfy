/** The client side of a header block: `doTestHeaderLimits` cuts the
    HPACK-encoded request headers into one HEADERS frame followed by
    CONTINUATION frames of at most `maxHeaderPayloadSize` octets each, all
    on stream 3, and writes each frame as the reused 9-octet header buffer
    followed by its slice of the payload.

    `Assemble` is the receiver's reading of such a sequence of frames
    (sections 6.2 and 6.10 of RFC 7540); the lemmas at the end show it
    recovers exactly the payload that was cut. */
module HeaderBlock {
  import opened ByteUtil
  import opened Frames
  import opened Wrappers

  /** The stream the test sends its request on. */
  const RequestStreamId: int := 3

  /** One frame as `writeFrame` puts it on the wire: the nine header octets
      as the buffer holds them at that moment, then the payload octets. */
  datatype WireFrame = WireFrame(header: seq<byte>, payload: seq<byte>)

  /** The argument `maxHeaderPayloadSize` is either -1, standing for the
      peer's maximum frame size, or an explicit positive chunk size. On 0
      the sending loop makes no progress; below -1 every chunk length is
      negative and `left` only grows until the Java `int` wraps. */
  predicate ValidPayloadSize(maxHeaderPayloadSize: int, maxFrameSize: int)
  {
    maxHeaderPayloadSize > 0 || (maxHeaderPayloadSize == -1 && maxFrameSize > 0)
  }

  /** The chunk size the loop uses after -1 is resolved. */
  function ChunkSize(maxHeaderPayloadSize: int, maxFrameSize: int): (r: int)
    requires ValidPayloadSize(maxHeaderPayloadSize, maxFrameSize)
    ensures r > 0
    ensures maxHeaderPayloadSize == -1 ==> r == maxFrameSize
    ensures maxHeaderPayloadSize != -1 ==> r == maxHeaderPayloadSize
  {
    if maxHeaderPayloadSize == -1 then maxFrameSize else maxHeaderPayloadSize
  }

  /** The header fields of frame number `k`: its length, the type by
      position, and the flags left in the reused buffer, where END_STREAM
      stays set after the first frame and END_HEADERS is added on the last;
      the stream is 3 with the reserved bit clear. */
  function ChunkHeader(length: nat, k: nat, last: bool): FrameHeader
  {
    FrameHeader(length,
                if k == 0 then HeadersType else ContinuationType,
                if last then EndStream + EndHeaders else EndStream,
                false, RequestStreamId)
  }

  /** The header `populateFrameHeader` writes for frame number `k` is the
      expected one, provided the buffer still holds END_STREAM from the
      first frame whenever `k > 0`. */
  lemma PopulatedIsExpected(previous: seq<byte>, k: nat, written: int, left: int, thisTime: int)
    requires |previous| == FrameHeaderLength
    requires (k == 0 <==> written == 0) && (k > 0 ==> previous[4] == EndStream)
    ensures var h := PopulatedHeader(previous, written, left, thisTime, RequestStreamId);
      && h[4] == (if left == thisTime then EndStream + EndHeaders else EndStream)
      && ParseFrameHeader(h) == ChunkHeader(thisTime % 0x100_0000, k, left == thisTime)
  {
    PopulatedFlagsMeaning(previous[4], written, left, thisTime);
    ParsePopulatedHeader(previous, written, left, thisTime, RequestStreamId);
  }

  /** Where chunk number `k` starts: after `k` full chunks of `size`. */
  function ChunkStart(k: nat, size: nat): nat
  {
    if k == 0 then 0 else ChunkStart(k - 1, size) + size
  }

  lemma {:induction false} ChunkStartIsProduct(k: nat, size: nat)
    ensures ChunkStart(k, size) == k * size
  {
    if k > 0 {
      ChunkStartIsProduct(k - 1, size);
      assert (k - 1) * size + size == k * size;
    }
  }

  /** Frame number `k` of the header block for `payload` cut at `size`:
      it carries the chunk starting after `k` full chunks, of `size` octets
      unless it is the last frame, which carries the rest. */
  predicate IsChunkFrame(f: WireFrame, k: nat, payload: seq<byte>, size: int)
    requires size > 0
  {
    var start := ChunkStart(k, size);
    var last := start + size >= |payload|;
    && start < |payload|
    && |f.payload| == (if last then |payload| - start else size)
    && f.payload == payload[start .. start + |f.payload|]
    && |f.header| == FrameHeaderLength
    && ParseFrameHeader(f.header) == ChunkHeader(|f.payload| % 0x100_0000, k, last)
  }

  /** `frames` is the header block for `payload` cut at `size`: as many
      frames as it takes to cover the payload, each one the chunk frame of
      its position. An empty payload gives no frame at all. */
  predicate IsFragmentation(frames: seq<WireFrame>, payload: seq<byte>, size: int)
    requires size > 0
  {
    && (frames == [] <==> payload == [])
    && (frames != [] ==> ChunkStart(|frames| - 1, size) < |payload| <= ChunkStart(|frames|, size))
    && forall k {:trigger IsChunkFrame(frames[k], k, payload, size)} :: 0 <= k < |frames| ==> IsChunkFrame(frames[k], k, payload, size)
  }

  /** The sending loop of `doTestHeaderLimits` together with
      `populateFrameHeader`, which rewrites one 9-octet buffer in place for
      each frame; the frames written are returned in order. */
  method WriteHeaderBlock(payload: seq<byte>, maxHeaderPayloadSize: int, maxFrameSize: int)
    returns (frames: seq<WireFrame>)
    requires ValidPayloadSize(maxHeaderPayloadSize, maxFrameSize)
    ensures IsFragmentation(frames, payload, ChunkSize(maxHeaderPayloadSize, maxFrameSize))
  {
    var size := ChunkSize(maxHeaderPayloadSize, maxFrameSize);
    var frameHeader := new byte[FrameHeaderLength];
    frames := [];
    var written := 0;
    var left := |payload| - written;
    while left > 0
      invariant 0 <= written <= |payload| && written + left == |payload|
      invariant left > 0 ==> written == ChunkStart(|frames|, size)
      invariant left == 0 && frames != [] ==>
        ChunkStart(|frames| - 1, size) < |payload| <= ChunkStart(|frames|, size)
      invariant frames == [] <==> written == 0
      invariant frameHeader.Length == FrameHeaderLength
      invariant frames != [] && left > 0 ==> frameHeader[4] == EndStream
      invariant forall k :: 0 <= k < |frames| ==> IsChunkFrame(frames[k], k, payload, size)
    {
      var thisTime := if left < size then left else size;
      ghost var before := frames;
      var f := WriteChunk(frameHeader, payload, written, left, thisTime, size, |frames|);
      frames := frames + [f];
      forall k | 0 <= k < |frames|
        ensures IsChunkFrame(frames[k], k, payload, size)
      {
        if k < |before| {
          assert frames[k] == before[k];
        }
      }
      assert ChunkStart(|frames|, size) == written + size;
      left := left - thisTime;
      written := written + thisTime;
    }
  }

  /** One pass of the sending loop: `populateFrameHeader` on the reused
      buffer, then the frame `writeFrame` sends, the buffer's nine octets
      and the `thisTime` payload octets from offset `written`. That frame is
      chunk frame `k`, and the buffer is left holding END_STREAM alone
      unless this was the last chunk. */
  method WriteChunk(frameHeader: array<byte>, payload: seq<byte>, written: int, left: int,
                    thisTime: int, size: int, k: nat)
    returns (f: WireFrame)
    requires frameHeader.Length == FrameHeaderLength && size > 0
    requires 0 < left && written + left == |payload| && written == ChunkStart(k, size)
    requires thisTime == if left < size then left else size
    requires (k == 0 <==> written == 0) && (k > 0 ==> frameHeader[4] == EndStream)
    modifies frameHeader
    ensures frameHeader[..] == PopulatedHeader(old(frameHeader[..]), written, left, thisTime, RequestStreamId)
    ensures f == WireFrame(frameHeader[..], payload[written..written + thisTime])
    ensures IsChunkFrame(f, k, payload, size)
    ensures frameHeader[4] == if left == thisTime then EndStream + EndHeaders else EndStream
  {
    ghost var previous := frameHeader[..];
    PopulateFrameHeader(frameHeader, written, left, thisTime, RequestStreamId);
    assert frameHeader[..] == frameHeader[..FrameHeaderLength];
    f := WireFrame(frameHeader[..], payload[|payload| - left .. |payload| - left + thisTime]);
    PopulatedIsExpected(previous, k, written, left, thisTime);
    NextChunkFrame(f, k, payload, size, left);
  }

  /** The frame the loop writes when `left` octets remain, after
      `ChunkStart(k, size)` have been written, is chunk frame `k`. */
  lemma NextChunkFrame(f: WireFrame, k: nat, payload: seq<byte>, size: int, left: int)
    requires size > 0 && 0 < left <= |payload| && |payload| - left == ChunkStart(k, size)
    requires var thisTime := if left < size then left else size;
      && f.payload == payload[|payload| - left .. |payload| - left + thisTime]
      && |f.header| == FrameHeaderLength
      && ParseFrameHeader(f.header) == ChunkHeader(thisTime % 0x100_0000, k, left == thisTime)
    ensures IsChunkFrame(f, k, payload, size)
  {
  }

  /** The receiver's reading of the frames of one header block from the
      frame at hand on: a HEADERS frame first and CONTINUATION frames after,
      all on `streamId`, each length field matching its payload; the block
      ends with the frame that carries END_HEADERS, which must be the last
      frame given. Flags other than END_HEADERS are ignored (section 4.1 of
      RFC 7540). */
  function Collect(frames: seq<WireFrame>, streamId: nat, first: bool): Option<seq<byte>>
    decreases |frames|
  {
    if frames == [] || |frames[0].header| != FrameHeaderLength then None
    else
      var h := ParseFrameHeader(frames[0].header);
      if h.frameType != (if first then HeadersType else ContinuationType)
         || h.streamId != streamId || h.length != |frames[0].payload| then None
      else if EndHeadersSet(h.flags) then
        if |frames| == 1 then Some(frames[0].payload) else None
      else
        match Collect(frames[1..], streamId, false)
        case None => None
        case Some(rest) => Some(frames[0].payload + rest)
  }

  /** The header block carried by `frames`, opened by a HEADERS frame on a
      non-zero stream (section 6.2 of RFC 7540). */
  function Assemble(frames: seq<WireFrame>): Option<seq<byte>>
  {
    if frames == [] || |frames[0].header| != FrameHeaderLength then None
    else
      var id := ParseFrameHeader(frames[0].header).streamId;
      if id == 0 then None else Collect(frames, id, true)
  }

  lemma MulMono(a: int, b: int, d: int)
    requires a <= b && d >= 0
    ensures a * d <= b * d
  {
    assert b * d - a * d == (b - a) * d;
  }

  lemma DivUnique(v: int, d: int, x: int, b: int)
    requires d > 0 && 0 <= b < d && v == x * d + b
    ensures v / d == x
  {
    var q, r := v / d, v % d;
    assert (x + 1) * d == x * d + d && (q + 1) * d == q * d + d;
    if q > x {
      MulMono(x + 1, q, d);
    } else if q < x {
      MulMono(q + 1, x, d);
    }
  }

  /** Chunk starts grow with the chunk number. */
  lemma {:induction false} ChunkStartMono(i: nat, k: nat, size: int)
    requires i <= k && size > 0
    ensures ChunkStart(i, size) + (k - i) * size == ChunkStart(k, size)
    ensures i < k ==> ChunkStart(i, size) + size <= ChunkStart(k, size)
    decreases k
  {
    if i < k {
      ChunkStartMono(i, k - 1, size);
      assert (k - 1 - i) * size + size == (k - i) * size;
      MulMono(0, k - 1 - i, size);
    }
  }

  /** The number of frames is the payload length divided by the chunk
      size, rounded up. */
  lemma FrameCountIsCeiling(frames: seq<WireFrame>, payload: seq<byte>, size: int)
    requires size > 0 && IsFragmentation(frames, payload, size)
    ensures |frames| == (|payload| + size - 1) / size
  {
    var c, n := |frames|, |payload|;
    if c == 0 {
      DivUnique(n + size - 1, size, 0, size - 1);
    } else {
      ChunkStartIsProduct(c, size);
      ChunkStartIsProduct(c - 1, size);
      assert (c - 1) * size == c * size - size;
      DivUnique(n + size - 1, size, c, n + size - 1 - c * size);
    }
  }

  /** Frame `k` is the last frame exactly when its chunk reaches the end of
      the payload. */
  lemma LastFrameByPosition(frames: seq<WireFrame>, payload: seq<byte>, size: int, k: nat)
    requires size > 0 && IsFragmentation(frames, payload, size) && k < |frames|
    ensures ChunkStart(k, size) + size >= |payload| <==> k == |frames| - 1
  {
    if k < |frames| - 1 {
      ChunkStartMono(k + 1, |frames| - 1, size);
    }
  }

  /** What every frame of the block looks like to a receiver: a chunk of 1
      to `size` octets, exactly `size` but for the last frame, starting at
      offset `k * size`; the length field holds the chunk length; the type
      is HEADERS for the first frame and CONTINUATION after; END_STREAM is
      set on every frame, END_HEADERS exactly on the last; the stream is 3
      with the reserved bit clear. */
  lemma FrameFields(frames: seq<WireFrame>, payload: seq<byte>, size: int, k: nat)
    requires 0 < size < 0x100_0000 && IsFragmentation(frames, payload, size) && k < |frames|
    ensures 1 <= |frames[k].payload| <= size
    ensures k < |frames| - 1 ==> |frames[k].payload| == size
    ensures k * size + |frames[k].payload| <= |payload|
    ensures frames[k].payload == payload[k * size .. k * size + |frames[k].payload|]
    ensures |frames[k].header| == FrameHeaderLength
    ensures var h := ParseFrameHeader(frames[k].header);
      && h.length == |frames[k].payload|
      && h.frameType == (if k == 0 then HeadersType else ContinuationType)
      && h.flags == (if k == |frames| - 1 then EndStream + EndHeaders else EndStream)
      && EndStreamSet(h.flags)
      && (EndHeadersSet(h.flags) <==> k == |frames| - 1)
      && !h.reservedBit
      && h.streamId == RequestStreamId
  {
    LastFrameByPosition(frames, payload, size, k);
    ChunkStartIsProduct(k, size);
    HeaderFields(frames[k], k, payload, size);
  }

  /** The fields a receiver reads from the header of a chunk frame. */
  lemma HeaderFields(f: WireFrame, k: nat, payload: seq<byte>, size: int)
    requires 0 < size < 0x100_0000 && IsChunkFrame(f, k, payload, size)
    ensures |f.header| == FrameHeaderLength
    ensures var last := ChunkStart(k, size) + size >= |payload|;
      ParseFrameHeader(f.header) == ChunkHeader(|f.payload|, k, last)
  {
  }

  lemma SplitAt(s: seq<byte>, a: int, b: int)
    requires 0 <= a <= b <= |s|
    ensures s[a..] == s[a..b] + s[b..]
  {
  }

  /** The frames from number `j` on read back, by the receiver's rules, as
      the payload from the start of chunk `j` on. */
  lemma {:induction false} CollectSuffix(frames: seq<WireFrame>, payload: seq<byte>, size: int, j: nat)
    requires 0 < size < 0x100_0000 && IsFragmentation(frames, payload, size) && j < |frames|
    ensures ChunkStart(j, size) <= |payload|
    ensures Collect(frames[j..], RequestStreamId, j == 0) == Some(payload[ChunkStart(j, size)..])
    decreases |frames| - j
  {
    var f, rest := frames[j], frames[j..];
    assert rest[0] == f;
    assert IsChunkFrame(f, j, payload, size);
    HeaderFields(f, j, payload, size);
    LastFrameByPosition(frames, payload, size, j);
    var start := ChunkStart(j, size);
    if j < |frames| - 1 {
      CollectSuffix(frames, payload, size, j + 1);
      assert rest[1..] == frames[j + 1..];
      var tail := payload[start + size..];
      SplitAt(payload, start, start + size);
      assert f.payload + tail == payload[start..];
      assert Collect(rest[1..], RequestStreamId, false) == Some(tail);
      CollectAccepts(rest, RequestStreamId, j == 0, Some(tail));
    } else {
      assert payload[start..] == f.payload + [];
      CollectAccepts(rest, RequestStreamId, j == 0, None);
    }
  }

  /** One step of `Collect` over a frame whose header it accepts: the block
      ends here when END_HEADERS is set, and otherwise the frame's payload
      is followed by what the rest yields. */
  lemma CollectAccepts(fs: seq<WireFrame>, streamId: nat, first: bool, tail: Option<seq<byte>>)
    requires fs != [] && |fs[0].header| == FrameHeaderLength
    requires var h := ParseFrameHeader(fs[0].header);
      && h.frameType == (if first then HeadersType else ContinuationType)
      && h.streamId == streamId && h.length == |fs[0].payload|
    requires EndHeadersSet(ParseFrameHeader(fs[0].header).flags) <==> tail == None
    requires tail != None ==> Collect(fs[1..], streamId, false) == tail
    requires tail == None ==> |fs| == 1
    ensures Collect(fs, streamId, first)
            == Some(fs[0].payload + if tail == None then [] else tail.value)
  {
    if tail == None {
      assert fs[0].payload + [] == fs[0].payload;
    }
  }

  /** Reassembly undoes fragmentation: the receiver reading the frames
      written for a non-empty payload gets back exactly that payload. */
  lemma AssembleFragmentation(frames: seq<WireFrame>, payload: seq<byte>, size: int)
    requires 0 < size < 0x100_0000 && IsFragmentation(frames, payload, size) && payload != []
    ensures Assemble(frames) == Some(payload)
  {
    CollectSuffix(frames, payload, size, 0);
    HeaderFields(frames[0], 0, payload, size);
    assert frames[0..] == frames;
  }

  /** The sum of the frame lengths, as the receiver reads them. */
  function TotalLength(frames: seq<WireFrame>): nat
    requires forall k :: 0 <= k < |frames| ==> |frames[k].header| == FrameHeaderLength
  {
    if frames == [] then 0
    else ParseFrameHeader(frames[0].header).length + TotalLength(frames[1..])
  }

  lemma {:induction false} LengthsSumFrom(frames: seq<WireFrame>, payload: seq<byte>, size: int, j: nat)
    requires 0 < size < 0x100_0000 && IsFragmentation(frames, payload, size) && j <= |frames|
    ensures forall k :: 0 <= k < |frames[j..]| ==> |frames[j..][k].header| == FrameHeaderLength
    ensures TotalLength(frames[j..])
            == |payload| - (if j == |frames| then |payload| else ChunkStart(j, size))
    decreases |frames| - j
  {
    if j < |frames| {
      assert IsChunkFrame(frames[j], j, payload, size);
      HeaderFields(frames[j], j, payload, size);
      LastFrameByPosition(frames, payload, size, j);
      LengthsSumFrom(frames, payload, size, j + 1);
      assert frames[j..][1..] == frames[j + 1..];
    }
  }

  /** The length fields of the frames add up to the payload length. */
  lemma LengthsSum(frames: seq<WireFrame>, payload: seq<byte>, size: int)
    requires 0 < size < 0x100_0000 && IsFragmentation(frames, payload, size)
    ensures forall k :: 0 <= k < |frames| ==> |frames[k].header| == FrameHeaderLength
    ensures TotalLength(frames) == |payload|
  {
    LengthsSumFrom(frames, payload, size, 0);
    assert frames[0..] == frames;
  }

  /** The chunks are contiguous: frame `k` starts where the earlier frames'
      lengths add up to, which is `k` full chunks. */
  lemma {:induction false} ChunkOffsets(frames: seq<WireFrame>, payload: seq<byte>, size: int, k: nat)
    requires 0 < size < 0x100_0000 && IsFragmentation(frames, payload, size) && k < |frames|
    ensures forall i :: 0 <= i < |frames[..k]| ==> |frames[..k][i].header| == FrameHeaderLength
    ensures TotalLength(frames[..k]) == ChunkStart(k, size) == k * size
  {
    ChunkStartIsProduct(k, size);
    if k > 0 {
      ChunkOffsets(frames, payload, size, k - 1);
      var before := frames[..k - 1];
      assert frames[..k] == before + [frames[k - 1]];
      assert IsChunkFrame(frames[k - 1], k - 1, payload, size);
      HeaderFields(frames[k - 1], k - 1, payload, size);
      LastFrameByPosition(frames, payload, size, k - 1);
      TotalLengthAppend(before, frames[k - 1]);
    }
  }

  lemma {:induction false} TotalLengthAppend(frames: seq<WireFrame>, f: WireFrame)
    requires forall i :: 0 <= i < |frames| ==> |frames[i].header| == FrameHeaderLength
    requires |f.header| == FrameHeaderLength
    ensures forall i :: 0 <= i < |frames + [f]| ==> |(frames + [f])[i].header| == FrameHeaderLength
    ensures TotalLength(frames + [f]) == TotalLength(frames) + ParseFrameHeader(f.header).length
    decreases |frames|
  {
    if frames != [] {
      assert (frames + [f])[1..] == frames[1..] + [f];
      TotalLengthAppend(frames[1..], f);
    }
  }
}
