/**
 * The reader's documented call sequences, on the exact bytes of the unit
 * tests in GrpcWebSocketBufferReaderTest.cs.
 */
module Scenarios {
  import opened Bytes
  import opened Envelope
  import opened BufferReader
  import Metadata
  import Caller
  import WireStream

  // "Foo: Bar\r\nx-hoge: fuga" (22 bytes)
  const FooBarHogeFuga: seq<byte> :=
    [0x46, 0x6f, 0x6f, 0x3a, 0x20, 0x42, 0x61, 0x72, 0x0d, 0x0a,
     0x78, 0x2d, 0x68, 0x6f, 0x67, 0x65, 0x3a, 0x20, 0x66, 0x75, 0x67, 0x61]

  // "Foo: Bar\r\nx-hoge: fuga\r\nx-hoge: hoge" (36 bytes)
  const FooBarHogeFugaHoge: seq<byte> :=
    [0x46, 0x6f, 0x6f, 0x3a, 0x20, 0x42, 0x61, 0x72,
     0x0d, 0x0a,
     0x78, 0x2d, 0x68, 0x6f, 0x67, 0x65, 0x3a, 0x20, 0x66, 0x75, 0x67, 0x61,
     0x0d, 0x0a,
     0x78, 0x2d, 0x68, 0x6f, 0x67, 0x65, 0x3a, 0x20, 0x68, 0x6f, 0x67, 0x65]

  // "grpc-status: 0\r\nx-hoge: fuga" (28 bytes)
  const StatusHogeFuga: seq<byte> :=
    [0x67, 0x72, 0x70, 0x63, 0x2d, 0x73, 0x74, 0x61, 0x74, 0x75, 0x73, 0x3a, 0x20, 0x30, 0x0d, 0x0a,
     0x78, 0x2d, 0x68, 0x6f, 0x67, 0x65, 0x3a, 0x20, 0x66, 0x75, 0x67, 0x61]

  // "Hello Alice" (11 bytes)
  const HelloAlice: seq<byte> := [0x48, 0x65, 0x6c, 0x6c, 0x6f, 0x20, 0x41, 0x6c, 0x69, 0x63, 0x65]

  const HeaderFrame: seq<byte> := [0x80, 0x00, 0x00, 0x00, 0x16] + FooBarHogeFuga
  const DuplicateKeyHeaderFrame: seq<byte> := [0x80, 0x00, 0x00, 0x00, 0x24] + FooBarHogeFugaHoge
  const TrailerFrame: seq<byte> := [0x80, 0x00, 0x00, 0x00, 0x1c] + StatusHogeFuga
  const HelloAliceFrame: seq<byte> := [0x00, 0x00, 0x00, 0x00, 0x0b] + HelloAlice

  /** The reader state once a payload envelope announcing `n` body bytes has been read. */
  function Streaming(n: nat): ReaderState { ReaderState(true, n, false) }

  lemma ReadEmpty()
    ensures TryRead(Initial, []) == NeedMoreData
  {
  }

  /** An 11-byte payload of which 5 bytes have arrived: the envelope, then those 5 bytes. */
  lemma ReadContent()
    ensures var buf: seq<byte> := [0x00, 0x00, 0x00, 0x00, 0x0b, 0x48, 0x65, 0x6c, 0x6c, 0x6f];
      && TryRead(Initial, buf) == Read(BufferReadResult(Content, 5, [], []), Streaming(11))
      && TryRead(Streaming(11), buf[5..])
         == Read(BufferReadResult(Content, 5, [0x48, 0x65, 0x6c, 0x6c, 0x6f], []), Streaming(6))
  {
    var buf: seq<byte> := [0x00, 0x00, 0x00, 0x00, 0x0b, 0x48, 0x65, 0x6c, 0x6c, 0x6f];
    assert buf[1..5] == [0x00, 0x00, 0x00, 0x0b];
    assert buf[5..][..5] == buf[5..];
  }

  /** An 11-byte payload of which 1 byte has arrived. */
  lemma ReadSmallContent()
    ensures var buf: seq<byte> := [0x00, 0x00, 0x00, 0x00, 0x0b, 0x41];
      && TryRead(Initial, buf) == Read(BufferReadResult(Content, 5, [], []), Streaming(11))
      && TryRead(Streaming(11), buf[5..]) == Read(BufferReadResult(Content, 1, [0x41], []), Streaming(10))
  {
    var buf: seq<byte> := [0x00, 0x00, 0x00, 0x00, 0x0b, 0x41];
    assert buf[1..5] == [0x00, 0x00, 0x00, 0x0b];
  }

  // The lines of the test bodies, each with its wire bytes.
  const FooBar := Metadata.Entry("Foo", "Bar")
  const HogeFuga := Metadata.Entry("x-hoge", "fuga")
  const HogeHoge := Metadata.Entry("x-hoge", "hoge")
  const StatusOk := Metadata.Entry("grpc-status", "0")

  lemma AsciiWords()
    ensures AsciiBytes("Foo") == [0x46, 0x6f, 0x6f]
    ensures AsciiBytes("Bar") == [0x42, 0x61, 0x72]
    ensures AsciiBytes("x-hoge") == [0x78, 0x2d, 0x68, 0x6f, 0x67, 0x65]
    ensures AsciiBytes("fuga") == [0x66, 0x75, 0x67, 0x61]
    ensures AsciiBytes("hoge") == [0x68, 0x6f, 0x67, 0x65]
    ensures AsciiBytes("grpc-status") == [0x67, 0x72, 0x70, 0x63, 0x2d, 0x73, 0x74, 0x61, 0x74, 0x75, 0x73]
    ensures AsciiBytes("0") == [0x30]
  {
  }

  lemma LineFooBar()
    ensures Metadata.IsKey(FooBar.key) && Metadata.IsValue(FooBar.value)
    ensures Metadata.EncodeLine(FooBar) == [0x46, 0x6f, 0x6f, 0x3a, 0x20, 0x42, 0x61, 0x72]
  {
    AsciiWords();
  }

  lemma LineHogeFuga()
    ensures Metadata.IsKey(HogeFuga.key) && Metadata.IsValue(HogeFuga.value)
    ensures Metadata.EncodeLine(HogeFuga) == [0x78, 0x2d, 0x68, 0x6f, 0x67, 0x65, 0x3a, 0x20, 0x66, 0x75, 0x67, 0x61]
  {
    AsciiWords();
  }

  lemma LineHogeHoge()
    ensures Metadata.IsKey(HogeHoge.key) && Metadata.IsValue(HogeHoge.value)
    ensures Metadata.EncodeLine(HogeHoge) == [0x78, 0x2d, 0x68, 0x6f, 0x67, 0x65, 0x3a, 0x20, 0x68, 0x6f, 0x67, 0x65]
  {
    AsciiWords();
  }

  lemma LineStatusOk()
    ensures Metadata.IsKey(StatusOk.key) && Metadata.IsValue(StatusOk.value)
    ensures Metadata.EncodeLine(StatusOk)
         == [0x67, 0x72, 0x70, 0x63, 0x2d, 0x73, 0x74, 0x61, 0x74, 0x75, 0x73, 0x3a, 0x20, 0x30]
  {
    AsciiWords();
  }

  lemma JoinTwo(a: seq<byte>, b: seq<byte>)
    ensures Metadata.JoinLines([a, b]) == a + [CR, LF] + b
  {
    assert [a, b][1..] == [b];
  }

  // The test bodies are the wire text of these blocks.

  lemma HeaderBody()
    ensures Metadata.WellFormed([FooBar, HogeFuga])
    ensures FooBarHogeFuga == Metadata.Encode([FooBar, HogeFuga])
  {
    LineFooBar();
    LineHogeFuga();
    var l1, l2 := Metadata.EncodeLine(FooBar), Metadata.EncodeLine(HogeFuga);
    assert Metadata.EncodeLines([FooBar, HogeFuga]) == [l1, l2];
    JoinTwo(l1, l2);
  }

  lemma TrailerBody()
    ensures Metadata.WellFormed([StatusOk, HogeFuga])
    ensures StatusHogeFuga == Metadata.Encode([StatusOk, HogeFuga])
  {
    LineStatusOk();
    LineHogeFuga();
    var l1, l2 := Metadata.EncodeLine(StatusOk), Metadata.EncodeLine(HogeFuga);
    assert Metadata.EncodeLines([StatusOk, HogeFuga]) == [l1, l2];
    JoinTwo(l1, l2);
  }

  lemma DuplicateKeyBody()
    ensures Metadata.WellFormed([FooBar, HogeFuga, HogeHoge])
    ensures FooBarHogeFugaHoge == Metadata.Encode([FooBar, HogeFuga, HogeHoge])
  {
    LineFooBar();
    LineHogeFuga();
    LineHogeHoge();
    var l1, l2, l3 := Metadata.EncodeLine(FooBar), Metadata.EncodeLine(HogeFuga), Metadata.EncodeLine(HogeHoge);
    assert [FooBar, HogeFuga, HogeHoge][1..] == [HogeFuga, HogeHoge];
    assert Metadata.EncodeLines([HogeFuga, HogeHoge]) == [l2, l3];
    var lines := Metadata.EncodeLines([FooBar, HogeFuga, HogeHoge]);
    assert lines == [l1, l2, l3];
    assert lines[1..] == [l2, l3];
    JoinTwo(l2, l3);
    assert Metadata.JoinLines(lines) == l1 + [CR, LF] + (l2 + [CR, LF] + l3);
    DuplicateKeyBodyBytes();
  }

  lemma DuplicateKeyBodyBytes()
    ensures FooBarHogeFugaHoge
         == [0x46, 0x6f, 0x6f, 0x3a, 0x20, 0x42, 0x61, 0x72] + [CR, LF]
            + ([0x78, 0x2d, 0x68, 0x6f, 0x67, 0x65, 0x3a, 0x20, 0x66, 0x75, 0x67, 0x61] + [CR, LF]
               + [0x78, 0x2d, 0x68, 0x6f, 0x67, 0x65, 0x3a, 0x20, 0x68, 0x6f, 0x67, 0x65])
  {
  }

  // ---------------------------------------------------------------- test call sequences

  lemma ReadHeaderFrame(tail: seq<byte>)
    ensures TryRead(Initial, HeaderFrame + tail)
         == Read(BufferReadResult(Header, 27, [], FooBarHogeFuga), Initial)
  {
    var buf := HeaderFrame + tail;
    assert buf[1..5] == [0x00, 0x00, 0x00, 0x16];
    assert buf[5..27] == FooBarHogeFuga;
  }

  /** The header body holds `Foo: Bar` and `x-hoge: fuga`, in that order. */
  lemma HeaderEntries()
    ensures Metadata.Parse(FooBarHogeFuga) == [FooBar, HogeFuga]
    ensures Metadata.ContainsKey([FooBar, HogeFuga], "Foo")
    ensures Metadata.ContainsKey([FooBar, HogeFuga], "x-hoge")
  {
    HeaderBody();
    Metadata.ParseEncode([FooBar, HogeFuga]);
    assert [FooBar, HogeFuga][0].key == "Foo";
    assert [FooBar, HogeFuga][1].key == "x-hoge";
  }

  lemma ReadHeaders()
    ensures var o := TryRead(Initial, HeaderFrame + HelloAliceFrame);
      && o.Read? && o.result.kind == Header && o.result.consumed == 1 + 4 + 22
      && o.result.HeadersOrTrailers() == [FooBar, HogeFuga]
      && Metadata.ContainsKey(o.result.HeadersOrTrailers(), "Foo")
      && Metadata.ContainsKey(o.result.HeadersOrTrailers(), "x-hoge")
  {
    ReadHeaderFrame(HelloAliceFrame);
    HeaderEntries();
  }

  lemma ReadDuplicateKeyHeaderFrame(tail: seq<byte>)
    ensures TryRead(Initial, DuplicateKeyHeaderFrame + tail)
         == Read(BufferReadResult(Header, 41, [], FooBarHogeFugaHoge), Initial)
  {
    var buf := DuplicateKeyHeaderFrame + tail;
    assert buf[1..5] == [0x00, 0x00, 0x00, 0x24];
    assert buf[5..41] == FooBarHogeFugaHoge;
  }

  /** `x-hoge` appears twice in the duplicate-key body and keeps both values, in order. */
  lemma DuplicateKeyEntries()
    ensures Metadata.Parse(FooBarHogeFugaHoge) == [FooBar, HogeFuga, HogeHoge]
    ensures Metadata.ContainsKey([FooBar, HogeFuga, HogeHoge], "Foo")
    ensures Metadata.GetValues([FooBar, HogeFuga, HogeHoge], "x-hoge") == ["fuga", "hoge"]
  {
    DuplicateKeyBody();
    var block := [FooBar, HogeFuga, HogeHoge];
    Metadata.ParseEncode(block);
    assert block[0].key == "Foo";
    assert block[1..] == [HogeFuga, HogeHoge];
    assert block[1..][1..] == [HogeHoge];
    assert Metadata.GetValues([HogeHoge], "x-hoge") == ["hoge"];
  }

  lemma ReadHeadersDuplicateKey()
    ensures var o := TryRead(Initial, DuplicateKeyHeaderFrame + HelloAliceFrame);
      && o.Read? && o.result.kind == Header && o.result.consumed == 1 + 4 + 36
      && o.result.HeadersOrTrailers() == [FooBar, HogeFuga, HogeHoge]
      && Metadata.ContainsKey(o.result.HeadersOrTrailers(), "Foo")
      && Metadata.GetValues(o.result.HeadersOrTrailers(), "x-hoge") == ["fuga", "hoge"]
  {
    ReadDuplicateKeyHeaderFrame(HelloAliceFrame);
    DuplicateKeyEntries();
  }

  /** Only the envelope has arrived: nothing is read; once the body follows, the frame is. */
  lemma ReadIncompleteHeaders()
    ensures TryRead(Initial, [0x80, 0x00, 0x00, 0x00, 0x16]) == NeedMoreData
    ensures var o := TryRead(Initial, [0x80, 0x00, 0x00, 0x00, 0x16] + FooBarHogeFuga);
      && o.Read? && o.result.kind == Header && o.result.consumed == 1 + 4 + 22
      && o.result.HeadersOrTrailers() == [FooBar, HogeFuga]
  {
    var partial: seq<byte> := [0x80, 0x00, 0x00, 0x00, 0x16];
    assert partial[1..5] == [0x00, 0x00, 0x00, 0x16];
    ReadHeaderFrame([]);
    assert HeaderFrame + [] == partial + FooBarHogeFuga;
    HeaderEntries();
  }

  const ThreeFrames: seq<byte> := HeaderFrame + HelloAliceFrame + TrailerFrame

  /** Where the frames of the test stream start: at 0, 27 and 43, with the message body at 32. */
  lemma ThreeFramesSlices()
    ensures ThreeFrames == HeaderFrame + (HelloAliceFrame + TrailerFrame)
    ensures ThreeFrames[27..] == HelloAliceFrame + TrailerFrame
    ensures ThreeFrames[32..] == HelloAlice + TrailerFrame
    ensures ThreeFrames[43..] == TrailerFrame
  {
    var rest := HelloAliceFrame + TrailerFrame;
    assert ThreeFrames == HeaderFrame + rest;
    Caller.SkipPast(HeaderFrame, rest, 0);
    assert rest == [0x00, 0x00, 0x00, 0x00, 0x0b] + (HelloAlice + TrailerFrame);
    Caller.SkipPast(HeaderFrame, rest, 5);
    assert rest[5..] == HelloAlice + TrailerFrame;
    Caller.SkipPast(HeaderFrame, rest, 16);
    assert rest[16..] == TrailerFrame;
  }

  /** Header, then the payload envelope, then the whole 11-byte payload in one chunk. */
  lemma ReadHeadersAndFirstContent()
    ensures TryRead(Initial, ThreeFrames) == Read(BufferReadResult(Header, 27, [], FooBarHogeFuga), Initial)
    ensures TryRead(Initial, ThreeFrames[27..]) == Read(BufferReadResult(Content, 5, [], []), Streaming(11))
    ensures TryRead(Streaming(11), ThreeFrames[32..]) == Read(BufferReadResult(Content, 11, HelloAlice, []), Streaming(0))
  {
    ThreeFramesSlices();
    ReadHeaderFrame(HelloAliceFrame + TrailerFrame);
    ReadHelloAliceEnvelope(TrailerFrame);
    ReadHelloAliceBody(TrailerFrame);
  }

  lemma ReadHelloAliceEnvelope(tail: seq<byte>)
    ensures TryRead(Initial, HelloAliceFrame + tail)
         == Read(BufferReadResult(Content, 5, [], []), Streaming(11))
  {
    var buf := HelloAliceFrame + tail;
    assert buf[1..5] == [0x00, 0x00, 0x00, 0x0b];
  }

  lemma ReadHelloAliceBody(tail: seq<byte>)
    ensures TryRead(Streaming(11), HelloAlice + tail)
         == Read(BufferReadResult(Content, 11, HelloAlice, []), Streaming(0))
  {
    var buf := HelloAlice + tail;
    assert buf[..11] == HelloAlice;
  }

  /** The same stream read on to its trailer, after which every call fails. */
  lemma ReadHeadersAndFirstContentAndTrailers(anySpan: seq<byte>)
    ensures var o := TryRead(Streaming(0), ThreeFrames[43..]);
      && o == Read(BufferReadResult(Trailer, 1 + 4 + 28, [], StatusHogeFuga), ReaderState(true, 0, true))
      && o.result.HeadersOrTrailers() == [StatusOk, HogeFuga]
      && Metadata.ContainsKey(o.result.HeadersOrTrailers(), "grpc-status")
      && Metadata.ContainsKey(o.result.HeadersOrTrailers(), "x-hoge")
      && TryRead(o.next, anySpan) == EndOfStream
  {
    ThreeFramesSlices();
    ReadTrailerFrame();
    TrailerEntries();
  }

  lemma ReadTrailerFrame()
    ensures TryRead(Streaming(0), TrailerFrame)
         == Read(BufferReadResult(Trailer, 1 + 4 + 28, [], StatusHogeFuga), ReaderState(true, 0, true))
  {
    assert TrailerFrame[1..5] == [0x00, 0x00, 0x00, 0x1c];
    assert TrailerFrame[5..33] == StatusHogeFuga;
  }

  /** The trailer body holds `grpc-status: 0` and `x-hoge: fuga`, in that order. */
  lemma TrailerEntries()
    ensures Metadata.Parse(StatusHogeFuga) == [StatusOk, HogeFuga]
    ensures Metadata.ContainsKey([StatusOk, HogeFuga], "grpc-status")
    ensures Metadata.ContainsKey([StatusOk, HogeFuga], "x-hoge")
  {
    TrailerBody();
    Metadata.ParseEncode([StatusOk, HogeFuga]);
    assert [StatusOk, HogeFuga][0].key == "grpc-status";
    assert [StatusOk, HogeFuga][1].key == "x-hoge";
  }

  /**
   * The caller's buffer grows a few bytes at a time and each call sees the
   * unconsumed slice: the envelope waits for all five bytes, and the body
   * then streams in as 6 + 5 = 11 bytes before the trailer is read.
   */
  lemma ReadChunkedContent(anySpan: seq<byte>)
    ensures var w1 := HeaderFrame;
            var w2 := w1 + [0x00];
            var w3 := w2 + [0x00, 0x00, 0x00, 0x0b];
            var w4 := w3 + [0x48, 0x65, 0x6c, 0x6c, 0x6f, 0x20];
            var w5 := w4 + [0x41, 0x6c, 0x69, 0x63, 0x65];
            var w6 := w5 + TrailerFrame;
            && TryRead(Initial, w1) == Read(BufferReadResult(Header, 27, [], FooBarHogeFuga), Initial)
            && TryRead(Initial, w2[27..]) == NeedMoreData
            && TryRead(Initial, w3[27..]) == Read(BufferReadResult(Content, 1 + 4, [], []), Streaming(11))
            && TryRead(Streaming(11), w4[32..])
               == Read(BufferReadResult(Content, 6, [0x48, 0x65, 0x6c, 0x6c, 0x6f, 0x20], []), Streaming(5))
            && TryRead(Streaming(5), w5[38..])
               == Read(BufferReadResult(Content, 5, [0x41, 0x6c, 0x69, 0x63, 0x65], []), Streaming(0))
            && TryRead(Streaming(0), w6[43..])
               == Read(BufferReadResult(Trailer, 1 + 4 + 28, [], StatusHogeFuga), ReaderState(true, 0, true))
            && TryRead(ReaderState(true, 0, true), anySpan) == EndOfStream
  {
    var w1 := HeaderFrame;
    ReadHeaderFrame([]);
    assert w1 + [] == w1;
    var w2 := w1 + [0x00];
    assert w2[27..] == [0x00];
    var w3 := w2 + [0x00, 0x00, 0x00, 0x0b];
    assert w3[27..] == [0x00, 0x00, 0x00, 0x00, 0x0b];
    var w4 := w3 + [0x48, 0x65, 0x6c, 0x6c, 0x6f, 0x20];
    assert w4[32..] == [0x48, 0x65, 0x6c, 0x6c, 0x6f, 0x20];
    var w5 := w4 + [0x41, 0x6c, 0x69, 0x63, 0x65];
    assert w5[38..] == [0x41, 0x6c, 0x69, 0x63, 0x65];
    var w6 := w5 + TrailerFrame;
    var t := w6[43..];
    assert t == TrailerFrame;
    assert t[1..5] == [0x00, 0x00, 0x00, 0x1c];
    assert t[5..33] == StatusHogeFuga;
  }

  // ---------------------------------------------------------------- any chunking

  const SentFrames: seq<WireStream.Frame> := [
    WireStream.MetadataFrame([FooBar, HogeFuga]),
    WireStream.MessageFrame(HelloAlice),
    WireStream.MetadataFrame([StatusOk, HogeFuga])]

  /** The three test frames are the encoding of a header block, one message and a trailer block. */
  lemma ThreeFramesEncoding()
    ensures WireStream.WellFormedFrames(SentFrames)
    ensures WireStream.EncodeFrames(SentFrames) == ThreeFrames
  {
    HeaderBody();
    TrailerBody();
    var f0, f1, f2 := SentFrames[0], SentFrames[1], SentFrames[2];
    assert WireStream.WellFormedFrame(f0) && WireStream.WellFormedFrame(f1) && WireStream.WellFormedFrame(f2);
    assert WriteUInt32BigEndian(22) == [0x00, 0x00, 0x00, 0x16];
    assert WriteUInt32BigEndian(11) == [0x00, 0x00, 0x00, 0x0b];
    assert WriteUInt32BigEndian(28) == [0x00, 0x00, 0x00, 0x1c];
    assert WireStream.EncodeFrame(f0) == HeaderFrame;
    assert WireStream.EncodeFrame(f1) == HelloAliceFrame;
    assert WireStream.EncodeFrame(f2) == TrailerFrame;
    assert SentFrames[1..] == [f1, f2];
    assert SentFrames[1..][1..] == [f2];
    assert [f2][1..] == [];
    assert WireStream.EncodeFrames([f2]) == TrailerFrame;
    assert WireStream.EncodeFrames([f1, f2]) == HelloAliceFrame + TrailerFrame;
  }

  /**
   * However the bytes of the three test frames are cut into arrivals (the
   * chunked test is one such cut), the caller's loop reports the header
   * block, the start of the message, its eleven bytes and the trailer block.
   */
  lemma ThreeFramesAnyChunking(chunks: seq<seq<byte>>)
    requires Caller.Concat(chunks) == ThreeFrames
    ensures Caller.Flatten(Caller.Feed(Initial, [], chunks).results)
         == [Caller.MetadataToken(Header, FooBarHogeFuga), Caller.PayloadStart]
            + Caller.ByteTokens(HelloAlice)
            + [Caller.MetadataToken(Trailer, StatusHogeFuga)]
  {
    ThreeFramesEncoding();
    WireStream.ReadChunkedStream(SentFrames, chunks);
    ThreeFramesExpected();
  }

  lemma ThreeFramesExpected()
    ensures WireStream.WellFormedFrames(SentFrames)
    ensures WireStream.Expected(false, SentFrames)
         == [Caller.MetadataToken(Header, FooBarHogeFuga), Caller.PayloadStart]
            + Caller.ByteTokens(HelloAlice)
            + [Caller.MetadataToken(Trailer, StatusHogeFuga)]
  {
    ThreeFramesEncoding();
    HeaderBody();
    TrailerBody();
    var f0, f1, f2 := SentFrames[0], SentFrames[1], SentFrames[2];
    assert SentFrames[1..] == [f1, f2];
    assert [f1, f2][1..] == [f2];
    assert [f2][1..] == [];
    var last := [Caller.MetadataToken(Trailer, StatusHogeFuga)];
    assert WireStream.Expected(true, [f2]) == last;
    var middle := [Caller.PayloadStart] + Caller.ByteTokens(HelloAlice) + last;
    assert WireStream.Expected(false, [f1, f2]) == middle;
    assert WireStream.Expected(false, SentFrames) == [Caller.MetadataToken(Header, FooBarHogeFuga)] + middle;
  }

  /**
   * However those bytes arrive, the caller sees the header block as the
   * Header and the trailer block as the Trailer, parsed back to their entries.
   */
  lemma ThreeFramesMetadata(chunks: seq<seq<byte>>)
    requires Caller.Concat(chunks) == ThreeFrames
    ensures WireStream.MetadataOf(Caller.Flatten(Caller.Feed(Initial, [], chunks).results))
         == [WireStream.Reported(Header, [FooBar, HogeFuga]), WireStream.Reported(Trailer, [StatusOk, HogeFuga])]
  {
    ThreeFramesEncoding();
    WireStream.ReadChunkedMetadata(SentFrames, chunks);
    var f0, f1, f2 := SentFrames[0], SentFrames[1], SentFrames[2];
    assert SentFrames[1..] == [f1, f2];
    assert SentFrames[1..][1..] == [f2];
    assert [f2][1..] == [];
    assert WireStream.SentMetadata(true, [f2]) == [WireStream.Reported(Trailer, [StatusOk, HogeFuga])];
    assert WireStream.SentMetadata(false, [f1, f2]) == WireStream.SentMetadata(true, [f2]);
  }
}
