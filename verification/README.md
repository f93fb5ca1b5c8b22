# GrpcWebSocketBufferReader in Dafny

A model of the incremental frame reader `GrpcWebSocketBufferReader.TryRead` of GrpcWebSocketBridge, with proofs about it.
The bridge carries gRPC-Web over a WebSocket. The reader turns the received bytes back into typed results:
- a `Header`, carrying the metadata block sent before any message;
- `Content`, which is a payload envelope or a run of message bytes;
- a `Trailer`, carrying the metadata block sent after the messages.

The reader works on gRPC's length-prefixed message framing. Each frame is a flag byte, a 4-byte big-endian body length and the body. Bit 0x80 of the flag byte marks a metadata frame, as in gRPC-Web.

The reader's implementation file is not part of this model. Its behaviour is taken from the unit tests in `tests/GrpcWebSocketBridge.Tests/UnitTests/GrpcWebSocketBufferReaderTest.cs`, which pin it down call by call. The model follows the bytes in those tests. Some comments there give the wrong length, for example `// 5` and `// 1` above a length field of `0x0b`.

Each call of `TryRead` does exactly one of three things:
- it reports that more data is needed and consumes nothing (the C# `false`);
- it returns one result together with the number of bytes the caller must slide past;
- it fails with `EndOfStream` (the C# `InvalidOperationException`) once a Trailer has been read. The caller's loop stops at a Trailer and never makes that call.

Frames are handled as follows:
- **Metadata frames** are atomic. The whole body must be present. The body is split on CRLF into `Key: Value` entries, and duplicate keys keep all their values.
- **Payload frames** are streamed. The envelope alone is reported as a `Content` result of 5 bytes with no data. The body then comes out in chunks of min(available, remaining).

Project layout:
- `wrappers.dfy` holds `Option`.
- `bytes.dfy` holds octets and ASCII text.
- `envelope.dfy` covers the 5-byte envelope and the big-endian length.
- `metadata.dfy` covers metadata blocks: parsing, lookup by key and the wire encoding.
- `buffer_reader.dfy` holds the reader state and `TryRead`.
- `reader_properties.dfy` states facts about single calls that relate several inputs.
- `caller.dfy` models the caller's loop: drain the span, slide by `consumed`, wait for more bytes. Its headline result is fragmentation independence: however the transport cuts the bytes, the caller sees the same token stream.
- `wire_stream.dfy` covers the encoding of a frame sequence. It proves that reading the encoding reports exactly the frames, in one piece or in any chunking.
- `scenarios.dfy` replays every unit test on its exact bytes.

## Model

| member | source | states |
|---|---|---|
| BufferReader.TryRead | tests/GrpcWebSocketBridge.Tests/UnitTests/GrpcWebSocketBufferReaderTest.cs:17-420 | A call fails if and only if a Trailer was already read. A successful call consumes at least 1 byte and at most the span. Awaiting an envelope, fewer than 5 bytes means more data is needed, and a complete metadata frame (5 + length bytes present) is always read as a Header or Trailer. A Header or Trailer consumes exactly 5 + the length field and carries exactly those body bytes; it is a Trailer exactly when a payload frame has been seen. A Header leaves the state unchanged and a Trailer only marks the stream ended. Awaiting an envelope, 5 bytes starting with a payload flag are always read as the envelope alone, without waiting for the body: 5 bytes consumed, no data, and the reader then expects the announced length. Inside a body, only an empty span means more data is needed; otherwise a call consumes min(available, remaining), returns those leading bytes, and counts them off the frame. Having seen a payload is never forgotten. |
| Envelope.TryReadEnvelope | tests/GrpcWebSocketBridge.Tests/UnitTests/GrpcWebSocketBufferReaderTest.cs:167-176 | An envelope is available exactly when at least 5 bytes are. Its flags are the first byte and its length fits in 32 bits. |
| Envelope.IsMetadataBit | tests/GrpcWebSocketBridge.Tests/UnitTests/GrpcWebSocketBufferReaderTest.cs:91-92 | The metadata test on the flag byte (at least 0x80) is exactly a test of bit 7, the `0b10000000` the tests set on header and trailer frames. |
| Envelope.WriteReadUInt32 | tests/GrpcWebSocketBridge.Tests/UnitTests/GrpcWebSocketBufferReaderTest.cs:93-94 | The 4-byte big-endian length field and the number it denotes determine each other. |
| Envelope.EnvelopeRoundTrip | tests/GrpcWebSocketBridge.Tests/UnitTests/GrpcWebSocketBufferReaderTest.cs:88-97 | An encoded envelope reads back as the same flags and length, whatever bytes follow it. |
| Metadata.SplitLines | tests/GrpcWebSocketBridge.Tests/UnitTests/GrpcWebSocketBufferReaderTest.cs:95-96 | Splitting a body on CRLF gives pieces that contain no CRLF and join back, with CRLF between them, into the body. |
| Metadata.FindSeparator | tests/GrpcWebSocketBridge.Tests/UnitTests/GrpcWebSocketBufferReaderTest.cs:95-96 | The position found is the first `": "` at or after the start; none is found only when there is no `": "` there. |
| Metadata.ParseEncode | tests/GrpcWebSocketBridge.Tests/UnitTests/GrpcWebSocketBufferReaderTest.cs:132-137 | The wire text of a well-formed block (`Key: Value` lines joined by CRLF) parses back to the same entries, in order and with duplicate keys kept. |
| Metadata.GetValues | tests/GrpcWebSocketBridge.Tests/UnitTests/GrpcWebSocketBufferReaderTest.cs:155-158 | A value is returned for a key exactly when that key/value entry is in the block. |
| Metadata.GetValuesAppend | tests/GrpcWebSocketBridge.Tests/UnitTests/GrpcWebSocketBufferReaderTest.cs:155-158 | The values for a key keep their order of appearance across concatenated blocks. |
| Metadata.GetValuesNonEmpty | tests/GrpcWebSocketBridge.Tests/UnitTests/GrpcWebSocketBufferReaderTest.cs:155-158 | A key has values exactly when some entry carries that key, so `Contain(x => x.Key == k)` and a non-empty `GetValues(k)` agree. |
| ReaderProperties.PayloadEnvelopeRead | tests/GrpcWebSocketBridge.Tests/UnitTests/GrpcWebSocketBufferReaderTest.cs:371-379 | Awaiting an envelope, a payload envelope is read on its own: 5 bytes consumed, no data, and the reader then expects the announced number of body bytes. It does not wait for any of the body. |
| ReaderProperties.BodyChunkRead | tests/GrpcWebSocketBridge.Tests/UnitTests/GrpcWebSocketBufferReaderTest.cs:382-400 | Inside a body, a call consumes min(available, remaining) bytes, returns exactly those leading bytes as data, and counts them off the frame. |
| ReaderProperties.MetadataNeedsWholeBody | tests/GrpcWebSocketBridge.Tests/UnitTests/GrpcWebSocketBufferReaderTest.cs:167-176 | With a metadata envelope in hand, more data is needed exactly when fewer than 5 + length bytes are present. A successful read consumes exactly 5 + length. |
| ReaderProperties.MetadataRetry | tests/GrpcWebSocketBridge.Tests/UnitTests/GrpcWebSocketBufferReaderTest.cs:167-186 | A metadata frame that could not yet be read is read once the same span has grown to hold its body: a Header (or Trailer after a payload) consuming 5 + length, carrying exactly the body bytes, with the same next state as any complete metadata frame. |
| ReaderProperties.MetadataFrameRead | tests/GrpcWebSocketBridge.Tests/UnitTests/GrpcWebSocketBufferReaderTest.cs:109-112 | Awaiting an envelope with a complete metadata frame in the span, the call returns exactly: a Header before any payload (state unchanged) or a Trailer after one (state now ended), consuming 5 + length and carrying the body bytes. |
| ReaderProperties.FrameReadIgnoresTail | tests/GrpcWebSocketBridge.Tests/UnitTests/GrpcWebSocketBufferReaderTest.cs:109-112 | Bytes after a complete envelope, metadata frame or the last chunk of a payload body change neither the result nor the next state. A header is read the same way whether or not a payload frame follows it. |
| Caller.DrainConsumes | tests/GrpcWebSocketBridge.Tests/UnitTests/GrpcWebSocketBufferReaderTest.cs:240-253 | When the caller slides past each result's `Consumed`, the consumed counts plus the leftover bytes add up to the whole span, and the leftover is the span's tail. |
| Caller.DrainStops | tests/GrpcWebSocketBridge.Tests/UnitTests/GrpcWebSocketBufferReaderTest.cs:363-369 | The caller stops calling only where the reader cannot make progress without more bytes. |
| Caller.DrainEndsAtTrailer | tests/GrpcWebSocketBridge.Tests/UnitTests/GrpcWebSocketBufferReaderTest.cs:323-335 | The caller reads nothing after a Trailer, and the reader ends terminated exactly when it started so or the last result was a Trailer. |
| Caller.FeedConsumes | tests/GrpcWebSocketBridge.Tests/UnitTests/GrpcWebSocketBufferReaderTest.cs:343-416 | Over many arrivals, every byte received is either consumed by some result or still pending. |
| Caller.DrainSplit | tests/GrpcWebSocketBridge.Tests/UnitTests/GrpcWebSocketBufferReaderTest.cs:339-420 | Draining a span in two parts gives the same tokens, final state and leftover bytes as draining it whole. Tokens are metadata blocks, payload starts and individual payload bytes. |
| Caller.FeedMatchesDrain | tests/GrpcWebSocketBridge.Tests/UnitTests/GrpcWebSocketBufferReaderTest.cs:339-420 | Feeding transport chunks one at a time gives the same tokens, final state and leftover bytes as one drain of everything received. |
| Caller.ChunkingIrrelevant | tests/GrpcWebSocketBridge.Tests/UnitTests/GrpcWebSocketBufferReaderTest.cs:339-420 | Two deliveries of the same bytes, cut differently, give the same tokens, state and leftover bytes. |
| Caller.BodyArrivesInChunks | tests/GrpcWebSocketBridge.Tests/UnitTests/GrpcWebSocketBufferReaderTest.cs:382-400 | Body bytes arriving in non-empty pieces within the frame come out as one Content result per piece, carrying exactly that piece. The remaining count drops by their total, so 6 + 5 = 11 returns the reader to awaiting an envelope. |
| WireStream.ReadEncodedFrames | tests/GrpcWebSocketBridge.Tests/UnitTests/GrpcWebSocketBufferReaderTest.cs:294-335 | Reading the encoding of a frame sequence in one span reports exactly those frames. A metadata frame is a Header before any payload frame and a Trailer after one, and nothing is reported past the Trailer. |
| WireStream.ReadChunkedStream | tests/GrpcWebSocketBridge.Tests/UnitTests/GrpcWebSocketBufferReaderTest.cs:339-420 | However the encoding of a frame sequence is cut into transport chunks, the caller's loop reports exactly those frames. |
| WireStream.ExpectedMetadata | tests/GrpcWebSocketBridge.Tests/UnitTests/GrpcWebSocketBufferReaderTest.cs:323-329 | The Headers and Trailers a reader should report for a frame sequence, parsed, are the sent metadata blocks in order, one for one: each a Header before any payload frame and a Trailer after one, ending at the first Trailer. |
| WireStream.ReadChunkedMetadata | tests/GrpcWebSocketBridge.Tests/UnitTests/GrpcWebSocketBufferReaderTest.cs:339-420 | However the encoded frames arrive in chunks, the Headers and Trailers the caller sees parse to the sent metadata blocks, in order and with those kinds. |
| Scenarios.ReadEmpty | tests/GrpcWebSocketBridge.Tests/UnitTests/GrpcWebSocketBufferReaderTest.cs:17-28 | An empty span yields no result. |
| Scenarios.ReadContent | tests/GrpcWebSocketBridge.Tests/UnitTests/GrpcWebSocketBufferReaderTest.cs:31-54 | A payload envelope announcing 11 bytes yields Content consuming 5. The 5 body bytes present yield Content consuming 5 (`Hello`), leaving 6 to go. |
| Scenarios.ReadSmallContent | tests/GrpcWebSocketBridge.Tests/UnitTests/GrpcWebSocketBufferReaderTest.cs:57-80 | The same envelope yields Content consuming 5. The single body byte yields Content consuming 1 (`A`), leaving 10 to go. |
| Scenarios.ReadHeaderFrame | tests/GrpcWebSocketBridge.Tests/UnitTests/GrpcWebSocketBufferReaderTest.cs:109-112 | The 22-byte header frame is read as a Header consuming 27, whatever follows. |
| Scenarios.HeaderEntries | tests/GrpcWebSocketBridge.Tests/UnitTests/GrpcWebSocketBufferReaderTest.cs:95-96 | The 22-byte header body parses to `Foo: Bar` then `x-hoge: fuga`, so both keys are present. |
| Scenarios.ReadHeaders | tests/GrpcWebSocketBridge.Tests/UnitTests/GrpcWebSocketBufferReaderTest.cs:83-117 | The first call yields a Header consuming 1 + 4 + 22 whose entries are `Foo: Bar` and `x-hoge: fuga`, so keys `Foo` and `x-hoge` are present. |
| Scenarios.DuplicateKeyEntries | tests/GrpcWebSocketBridge.Tests/UnitTests/GrpcWebSocketBufferReaderTest.cs:132-137 | The 36-byte body parses to `Foo: Bar`, `x-hoge: fuga`, `x-hoge: hoge`. `x-hoge` keeps both of its values, in order. |
| Scenarios.ReadHeadersDuplicateKey | tests/GrpcWebSocketBridge.Tests/UnitTests/GrpcWebSocketBufferReaderTest.cs:120-159 | A Header consuming 1 + 4 + 36 with keys `Foo` and `x-hoge`. `GetValues("x-hoge")` is `fuga`, `hoge`. |
| Scenarios.ReadIncompleteHeaders | tests/GrpcWebSocketBridge.Tests/UnitTests/GrpcWebSocketBufferReaderTest.cs:162-191 | The envelope alone yields no result. Once the 22 body bytes follow, the same call yields a Header consuming 27 with keys `Foo` and `x-hoge`. |
| Scenarios.ReadHeadersAndFirstContent | tests/GrpcWebSocketBridge.Tests/UnitTests/GrpcWebSocketBufferReaderTest.cs:194-255 | Sliding by each `Consumed`: a Header of 27 bytes, then Content of 5 bytes, then Content of 11 bytes whose data is `Hello Alice`. |
| Scenarios.ReadHeadersAndFirstContentAndTrailers | tests/GrpcWebSocketBridge.Tests/UnitTests/GrpcWebSocketBufferReaderTest.cs:258-336 | After the message, a Trailer of 1 + 4 + 28 bytes with keys `grpc-status` and `x-hoge`. Every later call fails, whatever span it is given. |
| Scenarios.TrailerEntries | tests/GrpcWebSocketBridge.Tests/UnitTests/GrpcWebSocketBufferReaderTest.cs:226-227 | The 28-byte trailer body parses to `grpc-status: 0` then `x-hoge: fuga`, so both keys are present. |
| Scenarios.ReadChunkedContent | tests/GrpcWebSocketBridge.Tests/UnitTests/GrpcWebSocketBufferReaderTest.cs:339-420 | As the buffer grows: a Header of 27 bytes; a lone flag byte yields nothing; the completed envelope yields Content of 5 bytes; then Content of 6 bytes and Content of 5 bytes; then a Trailer of 33 bytes. After that every call fails. |
| Scenarios.ThreeFramesEncoding | tests/GrpcWebSocketBridge.Tests/UnitTests/GrpcWebSocketBufferReaderTest.cs:199-228 | The test stream is the encoding of the header block, the `Hello Alice` message and the trailer block. |
| Scenarios.ThreeFramesAnyChunking | tests/GrpcWebSocketBridge.Tests/UnitTests/GrpcWebSocketBufferReaderTest.cs:339-420 | However the test stream is cut into chunks, the caller sees, in order: the header, the payload start, the bytes of `Hello Alice`, and the trailer. |
| Scenarios.ThreeFramesMetadata | tests/GrpcWebSocketBridge.Tests/UnitTests/GrpcWebSocketBufferReaderTest.cs:323-329 | However the test stream arrives, the caller sees the Header `Foo: Bar`, `x-hoge: fuga` and then the Trailer `grpc-status: 0`, `x-hoge: fuga`. |

## Left out

- The reader's own implementation file is not part of this model. Every behaviour is taken from the test assertions. Where the tests say nothing, the model takes the simplest reading:
  - a zero-length payload frame is reported as its start marker alone, and the reader goes straight back to awaiting an envelope. No test sends such a frame, but the frame-sequence theorems (`WireStream.ReadEncodedFrames`, `WireStream.ReadChunkedStream`, `WireStream.ReadChunkedMetadata`) do cover it, so they assert this reading;
  - a metadata line without `": "` gives no entry. This one is not stated as a property.
- The compression bit 0x01 of the flag byte is not looked at. Only bit 0x80 (metadata or payload) matters.
- The length field is read as an unsigned 32-bit number. A signed reading, or a limit on message size, is not modelled.
- Text is one character per byte, and the round trip is proved for ASCII keys and values only. UTF-8 decoding (`Encoding.UTF8.GetString`) is not modelled, so `Hello Alice` is compared as its bytes.
- Header names are compared exactly, byte for byte, and a block is an ordered list of entries. The tests only look keys up with their exact spelling.
- Scenarios.ReadHeadersDuplicateKey proves the exact order `fuga`, `hoge`. `BeEquivalentTo` in the test would also accept the other order; the stronger claim implies the test's.
- A result carries the raw metadata body. Parsing it into entries is a separate function applied on access. This is a modelling choice that keeps the parsing out of the reader's state transition.
- The test framework is not modelled: xUnit, FluentAssertions, `ArrayBufferWriter`, `ReadOnlyMemory` slicing and the out-parameter mechanics.
- tests/GrpcWebSocketBridge.Tests/FunctionalTests/UnaryTest.cs is not modelled. It runs end-to-end RPCs over a test server: WebSocket upgrade, HTTP/2 emulation, `-bin` header translation and status mapping. All of that is I/O over libraries outside this model.
- samples/MagicOnionSampleApp.Server/Hubs/ChatHub.cs is not modelled. It is a streaming-hub sample whose point is asynchronous group broadcast.
