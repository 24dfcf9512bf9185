/** The 9-octet HTTP/2 frame header (section 4.1 of RFC 7540) and the
    test's `populateFrameHeader`, which rewrites one reused header buffer
    for each frame of a header block. */
module Frames {
  import opened ByteUtil

  /** Octets in a frame header (section 4.1 of RFC 7540). */
  const FrameHeaderLength: nat := 9

  /** Frame type codes: HEADERS (section 6.2) and CONTINUATION (section 6.10). */
  const HeadersType: byte := 0x1
  const ContinuationType: byte := 0x9

  /** HEADERS flags (section 6.2 of RFC 7540). */
  const EndStream: byte := 0x01
  const EndHeaders: byte := 0x04

  /** The fields of a frame header as a receiver reads them. */
  datatype FrameHeader = FrameHeader(
    length: nat,
    frameType: byte,
    flags: byte,
    reservedBit: bool,
    streamId: nat)

  /** Reads the nine header octets: a 24-bit length, the type, the flags,
      then one reserved bit and a 31-bit stream identifier. */
  function ParseFrameHeader(h: seq<byte>): (r: FrameHeader)
    requires |h| == FrameHeaderLength
    ensures r.length < 0x100_0000 && r.streamId < 0x8000_0000
    ensures r.reservedBit <==> h[5] >= 0x80
  {
    FrameHeader(GetThreeBytes(h[..3]), h[3], h[4], h[5] >= 0x80, Get31Bits(h[5..9]))
  }

  /** Whether the END_STREAM bit (0x01) is set in a flags octet. */
  predicate EndStreamSet(flags: byte)
  {
    flags % 2 == 1
  }

  /** Whether the END_HEADERS bit (0x04) is set in a flags octet. */
  predicate EndHeadersSet(flags: byte)
  {
    (flags / 4) % 2 == 1
  }

  /** The flags octet `populateFrameHeader` leaves in the buffer, given the
      one a previous call left there: END_STREAM is written only for the
      first frame (`written == 0`), and END_HEADERS is added, with Java's
      wrap-around `byte` cast, when this chunk is all that is left. */
  function PopulatedFlags(previous: byte, written: int, left: int, thisTime: int): byte
  {
    var f := if written == 0 then EndStream else previous;
    if left == thisTime then (f + EndHeaders) % 256 else f
  }

  /** Which flags the header of each frame carries: the first frame starts
      from END_STREAM whatever the buffer held; a later frame keeps the
      END_STREAM left by the first; END_HEADERS appears exactly when the
      chunk is the last. */
  lemma PopulatedFlagsMeaning(previous: byte, written: int, left: int, thisTime: int)
    requires written == 0 || previous == EndStream
    ensures var r := PopulatedFlags(previous, written, left, thisTime);
      && EndStreamSet(r)
      && (EndHeadersSet(r) <==> left == thisTime)
      && r == if left == thisTime then EndStream + EndHeaders else EndStream
  {
  }

  /** The nine octets `populateFrameHeader` leaves in a buffer that held
      `previous`: the length `thisTime`, the type (HEADERS for the first
      frame, CONTINUATION after), the flags and the stream identifier. */
  function PopulatedHeader(previous: seq<byte>, written: int, left: int, thisTime: int,
                           streamId: int): (r: seq<byte>)
    requires |previous| == FrameHeaderLength
    ensures |r| == FrameHeaderLength
  {
    ThreeBytes(thisTime)
    + [if written == 0 then HeadersType else ContinuationType,
       PopulatedFlags(previous[4], written, left, thisTime)]
    + ThirtyOneBits(streamId)
  }

  /** A receiver reads back from the populated header the length and the
      stream identifier reduced to their field widths, the type by
      position, the flags of `PopulatedFlags` and a clear reserved bit. */
  lemma ParsePopulatedHeader(previous: seq<byte>, written: int, left: int, thisTime: int,
                             streamId: int)
    requires |previous| == FrameHeaderLength
    ensures ParseFrameHeader(PopulatedHeader(previous, written, left, thisTime, streamId))
            == FrameHeader(thisTime % 0x100_0000,
                           if written == 0 then HeadersType else ContinuationType,
                           PopulatedFlags(previous[4], written, left, thisTime),
                           false, streamId % 0x8000_0000)
  {
    var h := PopulatedHeader(previous, written, left, thisTime, streamId);
    assert h[..3] == ThreeBytes(thisTime);
    assert h[5..9] == ThirtyOneBits(streamId);
  }

  /** `populateFrameHeader`: rewrites octets 0 to 8 of the reused buffer in
      place; octet 4 is read back, so the flags depend on what an earlier
      call left there. */
  method PopulateFrameHeader(frameHeader: array<byte>, written: int, left: int,
                             thisTime: int, streamId: int)
    requires frameHeader.Length >= FrameHeaderLength
    modifies frameHeader
    ensures frameHeader[..FrameHeaderLength]
            == PopulatedHeader(old(frameHeader[..FrameHeaderLength]), written, left, thisTime, streamId)
    ensures frameHeader[FrameHeaderLength..] == old(frameHeader[FrameHeaderLength..])
  {
    ghost var previous := frameHeader[..FrameHeaderLength];
    var length := ThreeBytes(thisTime);
    frameHeader[0], frameHeader[1], frameHeader[2] := length[0], length[1], length[2];
    if written == 0 {
      frameHeader[3] := HeadersType;
      frameHeader[4] := EndStream;
    } else {
      frameHeader[3] := ContinuationType;
    }
    if left == thisTime {
      frameHeader[4] := (frameHeader[4] + EndHeaders) % 256;
    }
    var id := ThirtyOneBits(streamId);
    frameHeader[5], frameHeader[6], frameHeader[7], frameHeader[8] := id[0], id[1], id[2], id[3];
    assert frameHeader[4] == PopulatedFlags(previous[4], written, left, thisTime);
  }
}
