# HTTP/2 header-block fragmentation in Tomcat's `TestHttp2Limits`

This project models the client side of Tomcat's HTTP/2 header-limit test,
`test/org/apache/coyote/http2/TestHttp2Limits.java`. It covers two things:

- The request header set. The test builds one header value of `headerSize`
  random lower-case letters and `headerCount` custom headers named
  `X-TomcatTest0`, `X-TomcatTest1`, … that all carry that value. It hands
  the HPACK encoder a header list that begins with the pseudo-headers
  `:method`, `:path` and `:authority`.
- The framing of the encoded header block. The payload is cut into chunks of
  at most `maxHeaderPayloadSize` octets (-1 means the peer's maximum frame
  size). Each chunk is sent as one frame on stream 3. The first frame is a
  HEADERS frame and the later ones are CONTINUATION frames. One 9-octet
  frame-header buffer is reused and rewritten in place for every frame
  (section 4.1 of RFC 7540).

Modules:

- `ByteUtil` (`byte_util.dfy`): octets and the big-endian fields that
  `ByteUtil.setThreeBytes` and `ByteUtil.set31Bits` write, with their read-back.
- `Frames` (`frames.dfy`): frame-header constants, the receiver's parse of a
  9-octet header, and `PopulateFrameHeader` on an `array<byte>`.
- `HeaderBlock` (`header_block.dfy`): the `while (left > 0)` sending loop.
  Its frames are specified by `IsFragmentation`. `Assemble` is the
  receiver's reading of HEADERS + CONTINUATION frames (sections 6.2 and 6.10
  of RFC 7540), and the lemmas prove it undoes the fragmentation.
- `RequestHeaders` (`request_headers.dfy`): the header value, the custom
  header map and the header list, with the exceptions that stop the test
  before a request exists.
- `Wrappers` (`wrappers.dfy`): the `Option` type that stands for a thrown
  exception or a rejected frame sequence.

The frame-header buffer is reused, and the model keeps that. `frameHeader[4]`
is set to END_STREAM (0x01) only for the first frame. On the last frame it
gets END_HEADERS (0x04) added to whatever it holds. So every CONTINUATION
frame still carries 0x01, and the last frame always carries 0x05. Section 6.10
of RFC 7540 defines no END_STREAM flag for CONTINUATION, and section 4.1 says
unused flags are ignored. The model follows the code: `IsChunkFrame` requires
0x01 on every frame but the last. `Collect` looks only at END_HEADERS.

## Model

| member | source | states |
|---|---|---|
| `ByteUtil.ThreeBytes` | test/org/apache/coyote/http2/TestHttp2Limits.java:283 | the 24-bit length field is three octets that read back, big-endian, as the value modulo 2^24 |
| `ByteUtil.ThirtyOneBits` | test/org/apache/coyote/http2/TestHttp2Limits.java:297 | the stream identifier is four octets with the reserved bit clear that read back as the value modulo 2^31 |
| `Frames.PopulatedFlagsMeaning` | test/org/apache/coyote/http2/TestHttp2Limits.java:284-294 | if the buffer still holds what the first frame left, the flags octet always has END_STREAM, has END_HEADERS exactly when `left == thisTime`, and is 0x05 on the last frame and 0x01 otherwise |
| `Frames.ParsePopulatedHeader` | test/org/apache/coyote/http2/TestHttp2Limits.java:281-298 | a receiver reads back from the populated header the length (mod 2^24), HEADERS when `written == 0` and CONTINUATION otherwise, the flags, a clear reserved bit and the stream id (mod 2^31) |
| `Frames.PopulateFrameHeader` | test/org/apache/coyote/http2/TestHttp2Limits.java:281-298 | rewrites octets 0-8 of the reused buffer in place, with the flags computed from the octet an earlier call left; octets after 9 are unchanged |
| `HeaderBlock.ChunkSize` | test/org/apache/coyote/http2/TestHttp2Limits.java:199-201 | -1 is replaced by the maximum frame size, and any other accepted value is used unchanged; the chunk size used is positive |
| `HeaderBlock.WriteChunk` | test/org/apache/coyote/http2/TestHttp2Limits.java:217-220 | one loop pass rewrites the reused buffer to `PopulatedHeader` of its old contents, and sends a frame made of the buffer's nine octets and the `thisTime` payload octets from offset `written`; that frame is chunk frame `k`, and octet 4 is left as END_STREAM alone unless this was the last chunk |
| `HeaderBlock.WriteHeaderBlock` | test/org/apache/coyote/http2/TestHttp2Limits.java:214-223 | the frames sent form the fragmentation of the payload: no frames for an empty payload; otherwise `(n-1)*size < limit <= n*size` frames, frame `k` carrying the chunk after `k` full chunks, with its length, type and flags by position |
| `HeaderBlock.FrameCountIsCeiling` | test/org/apache/coyote/http2/TestHttp2Limits.java:216-217 | the number of frames is `ceil(limit / size)` |
| `HeaderBlock.LastFrameByPosition` | test/org/apache/coyote/http2/TestHttp2Limits.java:291 | a chunk reaches the end of the payload (`left == thisTime`) exactly on the last frame |
| `HeaderBlock.FrameFields` | test/org/apache/coyote/http2/TestHttp2Limits.java:216-222 | every frame carries 1 to `size` octets, exactly `size` except the last, starting at offset `k * size`; its parsed header has that length, HEADERS first and CONTINUATION after, END_STREAM on every frame, END_HEADERS on the last only, flags 0x05 on the last and 0x01 before, reserved bit clear, stream 3 |
| `HeaderBlock.ChunkOffsets` | test/org/apache/coyote/http2/TestHttp2Limits.java:219-222 | the offset of frame `k`, `limit - left == written`, equals the sum of the earlier frames' length fields, i.e. `k * size` |
| `HeaderBlock.LengthsSum` | test/org/apache/coyote/http2/TestHttp2Limits.java:217-222 | the frames' length fields add up to the payload length |
| `HeaderBlock.AssembleFragmentation` | test/org/apache/coyote/http2/TestHttp2Limits.java:214-223 | a receiver that concatenates HEADERS and CONTINUATION payloads on one stream up to END_HEADERS gets back exactly the payload that was cut |
| `RequestHeaders.RandomHeaderValue` | test/org/apache/coyote/http2/TestHttp2Limits.java:174-181 | no value exactly when `headerSize` is negative (the `StringBuilder` throws); otherwise the value has length `headerSize` and every character is in 'a'..'z' |
| `RequestHeaders.DecimalRoundTrip` | test/org/apache/coyote/http2/TestHttp2Limits.java:183 | the decimal form Java uses for `"X-TomcatTest" + i` reads back as `i` |
| `RequestHeaders.CustomHeaderNameInjective` | test/org/apache/coyote/http2/TestHttp2Limits.java:183 | distinct indices give distinct custom header names |
| `RequestHeaders.CustomHeaderMapContents` | test/org/apache/coyote/http2/TestHttp2Limits.java:182-184 | after `count` puts the map has exactly `count` entries, the names `"X-TomcatTest" + i` for `i < count`, each mapped to the shared value |
| `RequestHeaders.BuildCustomHeaders` | test/org/apache/coyote/http2/TestHttp2Limits.java:182-184 | the custom header map has `headerCount` entries (none for a negative count), every name `"X-TomcatTest" + i` is present, and every entry maps one of them to `v` |
| `RequestHeaders.PopulateHeaderList` | test/org/apache/coyote/http2/TestHttp2Limits.java:264-270 | the list is `:method`=GET, `:path`=/simple, `:authority`=localhost:port in that order, then each custom header exactly once with its value; its length is the map size plus 3 |
| `RequestHeaders.FirstCustomValue` | test/org/apache/coyote/http2/TestHttp2Limits.java:208 | the iterator yields no value exactly when the map is empty, and otherwise one of the map's values |
| `RequestHeaders.BuildRequestHeaders` | test/org/apache/coyote/http2/TestHttp2Limits.java:172-210 | no request exactly when `headerSize` is negative or `headerCount <= 0` (line 174 or line 208 throws); otherwise the request carries `headerCount + 3` headers with distinct custom names; every custom header has the same lower-case value of length `headerSize`, and every index below `headerCount` has its header |

## Left out

- HPACK encoding (`hpackEncoder.encode`, lines 271-275): the encoder is not part of this model. The header block is an arbitrary `seq<byte>` given to `WriteHeaderBlock`, so nothing links the header list to the payload octets.
- The payload buffer capacity `200 + size * length * 1.2` (lines 207-208): floating point that only sizes an allocation. Its need for a first custom header is modelled by `FirstCustomValue`: with none, the test throws `NoSuchElementException` and sends nothing.
- `writeFrame`, socket I/O, `delayms` and the `IOException` capture (lines 212-226): `writeFrame` is modelled only as appending the header buffer's current octets and the payload slice to the returned frame sequence.
- Tomcat start-up, HTTP upgrade, client preface and the `setMaxHeaderCount`/`setMaxHeaderSize` calls (lines 186-197): environment set-up. The peer's maximum frame size (`output.getMaxFrameSize()`) is the parameter `maxFrameSize`.
- The `failMode` response checks (lines 228-258): they depend on the server's HPACK decoder and limit policy, which are not part of this model, and failMode 2 depends on timing.
- `java.util.Random`: each letter's draw is a nondeterministic choice in 0..25. `HashMap` iteration order: the next custom header is a nondeterministic choice among those not yet added.
- `ByteUtil.setThreeBytes` and `ByteUtil.set31Bits` are not part of this model's source. They are modelled as their section 4.1 (RFC 7540) meaning: the value's low 24 or 31 bits, big-endian.
- `HeaderBlock.ValidPayloadSize`: a `maxHeaderPayloadSize` of 0 or below -1 is excluded, and the test never passes one. On 0 the source loop makes no progress and never ends. Below -1, `thisTime` is negative, so `writeFrame` is asked for a negative length. What it does then is outside this model, because `writeFrame` is not part of it. If it does not throw, `left` grows until the Java `int` wraps negative and the loop stops.
- `HeaderBlock.AssembleFragmentation`, `HeaderBlock.FrameFields`, `HeaderBlock.LengthsSum`, `HeaderBlock.ChunkOffsets`: these assume a chunk size below 2^24. `setThreeBytes` keeps only 24 bits, so a bigger chunk's length field would not equal its length. `IsFragmentation` itself states the length field modulo 2^24 for every size.
- Java `int` overflow is not modelled. For accepted sizes, `written` and `left` stay between 0 and the payload length, so they cannot wrap.
- `log.debug` (line 277) and `headersPayload.flip()` (line 275): the payload is a sequence, not a `ByteBuffer` with a position and limit.
