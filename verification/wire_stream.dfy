/**
 * A whole stream on the wire: frames written one after another, each as an
 * envelope followed by its body. Reading the encoding of a frame sequence
 * reports exactly those frames (headers, payloads, the trailer), and by
 * fragmentation independence it does so however the bytes arrive.
 */
module WireStream {
  import opened Wrappers
  import opened Bytes
  import opened Envelope
  import opened BufferReader
  import opened Caller
  import Metadata

  datatype Frame =
    | MetadataFrame(block: Metadata.Block)
    | MessageFrame(message: seq<byte>)

  predicate WellFormedFrame(f: Frame)
  {
    match f
    case MetadataFrame(block) => Metadata.WellFormed(block) && |Metadata.Encode(block)| < LengthLimit
    case MessageFrame(message) => |message| < LengthLimit
  }

  predicate WellFormedFrames(fs: seq<Frame>)
  {
    forall i :: 0 <= i < |fs| ==> WellFormedFrame(fs[i])
  }

  function Body(f: Frame): (body: seq<byte>)
    requires WellFormedFrame(f)
    ensures |body| < LengthLimit
  {
    match f
    case MetadataFrame(block) => Metadata.Encode(block)
    case MessageFrame(message) => message
  }

  function Flags(f: Frame): byte
  {
    if f.MetadataFrame? then MetadataFlag else PayloadFlag
  }

  function EncodeFrame(f: Frame): seq<byte>
    requires WellFormedFrame(f)
  {
    EncodeEnvelope(Prefix(Flags(f), |Body(f)|)) + Body(f)
  }

  function EncodeFrames(fs: seq<Frame>): seq<byte>
    requires WellFormedFrames(fs)
  {
    if |fs| == 0 then [] else EncodeFrame(fs[0]) + EncodeFrames(fs[1..])
  }

  /**
   * What a reader should report for `fs`: a metadata frame is the Header
   * until a payload frame has been seen and the Trailer after, and nothing
   * follows a Trailer; a payload frame is its start marker followed by its
   * bytes.
   */
  function Expected(seenPayload: bool, fs: seq<Frame>): seq<Token>
    requires WellFormedFrames(fs)
    decreases |fs|
  {
    if |fs| == 0 then []
    else match fs[0]
      case MetadataFrame(block) =>
        if seenPayload then [MetadataToken(Trailer, Metadata.Encode(block))]
        else [MetadataToken(Header, Metadata.Encode(block))] + Expected(false, fs[1..])
      case MessageFrame(message) =>
        [PayloadStart] + ByteTokens(message) + Expected(true, fs[1..])
  }

  // ---------------------------------------------------------------- one frame

  /** Reading the envelope of an encoded frame, whatever follows it. */
  lemma EnvelopeOfFrame(f: Frame, tail: seq<byte>)
    requires WellFormedFrame(f)
    ensures var buf := EncodeFrame(f) + tail;
            && TryReadEnvelope(buf) == Some(Prefix(Flags(f), |Body(f)|))
            && buf[EnvelopeSize..] == Body(f) + tail
  {
    var e := Prefix(Flags(f), |Body(f)|);
    EnvelopeRoundTrip(e, Body(f) + tail);
    assert EncodeFrame(f) + tail == EncodeEnvelope(e) + (Body(f) + tail);
  }

  lemma ReadMetadataFrame(st: ReaderState, f: Frame, tail: seq<byte>)
    requires st.AwaitingEnvelope()
    requires f.MetadataFrame? && WellFormedFrame(f)
    ensures var buf := EncodeFrame(f) + tail;
            var n := EnvelopeSize + |Body(f)|;
            var kind := if st.seenPayload then Trailer else Header;
            var next := if st.seenPayload then st.(terminated := true) else st;
            && TryRead(st, buf) == Read(BufferReadResult(kind, n, [], Body(f)), next)
            && buf[n..] == tail
  {
    var buf := EncodeFrame(f) + tail;
    EnvelopeOfFrame(f, tail);
    var n := EnvelopeSize + |Body(f)|;
    assert buf[EnvelopeSize..n] == Body(f);
    assert buf[n..] == tail;
  }

  lemma ReadMessageEnvelope(st: ReaderState, f: Frame, tail: seq<byte>)
    requires st.AwaitingEnvelope()
    requires f.MessageFrame? && WellFormedFrame(f)
    ensures var buf := EncodeFrame(f) + tail;
            && TryRead(st, buf)
               == Read(BufferReadResult(Content, EnvelopeSize, [], []), ReaderState(true, |f.message|, false))
            && buf[EnvelopeSize..] == f.message + tail
  {
    EnvelopeOfFrame(f, tail);
  }

  lemma ReadMessageBody(st: ReaderState, message: seq<byte>, tail: seq<byte>)
    requires st.InPayloadBody() && st.remaining == |message|
    ensures var buf := message + tail;
            && TryRead(st, buf) == Read(BufferReadResult(Content, |message|, message, []), st.(remaining := 0))
            && buf[|message|..] == tail
  {
    var buf := message + tail;
    assert buf[..|message|] == message;
    assert buf[|message|..] == tail;
  }

  // ---------------------------------------------------------------- whole stream

  /** Reading an encoded frame sequence in one go reports exactly its frames. */
  lemma {:induction false} ReadEncodedFrames(st: ReaderState, fs: seq<Frame>)
    requires st.AwaitingEnvelope()
    requires WellFormedFrames(fs)
    ensures Flatten(Drain(st, EncodeFrames(fs)).results) == Expected(st.seenPayload, fs)
    decreases |fs|, 1
  {
    if |fs| == 0 {
      assert Drain(st, []) == Drained([], st, []);
    } else if fs[0].MetadataFrame? {
      ReadEncodedMetadataFirst(st, fs);
    } else {
      ReadEncodedMessageFirst(st, fs);
    }
  }

  lemma {:induction false} ReadEncodedMetadataFirst(st: ReaderState, fs: seq<Frame>)
    requires st.AwaitingEnvelope()
    requires WellFormedFrames(fs) && |fs| > 0 && fs[0].MetadataFrame?
    ensures Flatten(Drain(st, EncodeFrames(fs)).results) == Expected(st.seenPayload, fs)
    decreases |fs|, 0
  {
    var f, tail := fs[0], EncodeFrames(fs[1..]);
    var buf := EncodeFrames(fs);
    assert WellFormedFrame(f) && WellFormedFrames(fs[1..]);
    assert buf == EncodeFrame(f) + tail;
    ReadMetadataFrame(st, f, tail);
    var n := EnvelopeSize + |Body(f)|;
    var kind := if st.seenPayload then Trailer else Header;
    var next := if st.seenPayload then st.(terminated := true) else st;
    var r := BufferReadResult(kind, n, [], Body(f));
    DrainStep(st, buf, r, next);
    var d := Drain(next, tail);
    assert Drain(st, buf) == Drained([r] + d.results, d.state, d.rest);
    FlattenCons(r, d.results);
    if st.seenPayload {
      assert d == Drained([], next, tail);
    } else {
      ReadEncodedFrames(st, fs[1..]);
    }
  }

  lemma {:induction false} ReadEncodedMessageFirst(st: ReaderState, fs: seq<Frame>)
    requires st.AwaitingEnvelope()
    requires WellFormedFrames(fs) && |fs| > 0 && fs[0].MessageFrame?
    ensures Flatten(Drain(st, EncodeFrames(fs)).results) == Expected(st.seenPayload, fs)
    decreases |fs|, 0
  {
    var f, tail := fs[0], EncodeFrames(fs[1..]);
    var message := f.message;
    var buf := EncodeFrames(fs);
    assert WellFormedFrame(f) && WellFormedFrames(fs[1..]);
    assert buf == EncodeFrame(f) + tail;
    ReadMessageEnvelope(st, f, tail);
    var started := ReaderState(true, |message|, false);
    var r := BufferReadResult(Content, EnvelopeSize, [], []);
    DrainStep(st, buf, r, started);
    var d := Drain(started, message + tail);
    assert Drain(st, buf) == Drained([r] + d.results, d.state, d.rest);
    FlattenCons(r, d.results);
    var awaiting := ReaderState(true, 0, false);
    ReadEncodedFrames(awaiting, fs[1..]);
    var e := Drain(awaiting, tail);
    if |message| == 0 {
      assert message + tail == tail;
      assert ByteTokens(message) == [];
      assert Flatten(d.results) == ByteTokens(message) + Flatten(e.results);
    } else {
      ReadMessageBody(started, message, tail);
      var r2 := BufferReadResult(Content, |message|, message, []);
      DrainStep(started, message + tail, r2, awaiting);
      assert d == Drained([r2] + e.results, e.state, e.rest);
      FlattenCons(r2, e.results);
      assert Flatten(d.results) == ByteTokens(message) + Flatten(e.results);
    }
    assert Tokens(r) == [PayloadStart];
    assert Flatten(Drain(st, buf).results) == [PayloadStart] + Flatten(d.results);
    assert Expected(st.seenPayload, fs) == [PayloadStart] + ByteTokens(message) + Expected(true, fs[1..]);
    Regroup([PayloadStart], ByteTokens(message), Flatten(e.results), Flatten(d.results));
  }

  /**
   * However the encoded stream is cut into transport chunks, a fresh reader
   * driven by the caller's loop reports exactly the frames that were sent.
   */
  lemma ReadChunkedStream(fs: seq<Frame>, chunks: seq<seq<byte>>)
    requires WellFormedFrames(fs)
    requires Concat(chunks) == EncodeFrames(fs)
    ensures Flatten(Feed(Initial, [], chunks).results) == Expected(false, fs)
  {
    assert TryReadEnvelope([]).None?;
    FeedMatchesDrain(Initial, [], chunks);
    assert [] + Concat(chunks) == EncodeFrames(fs);
    ReadEncodedFrames(Initial, fs);
  }

  // ---------------------------------------------------------------- metadata

  /** One Header or Trailer result as the caller sees it: its kind and the parsed block. */
  datatype Reported = Reported(kind: BufferReadResultType, block: Metadata.Block)

  /** The Header and Trailer tokens of a stream, in order, with their bodies parsed. */
  function MetadataOf(ts: seq<Token>): seq<Reported>
  {
    if |ts| == 0 then []
    else if ts[0].MetadataToken? then [Reported(ts[0].kind, Metadata.Parse(ts[0].body))] + MetadataOf(ts[1..])
    else MetadataOf(ts[1..])
  }

  /**
   * The metadata blocks of `fs` as sent, in order: each is a Header until a
   * payload frame has gone by and a Trailer after, and the first Trailer is
   * the last one.
   */
  function SentMetadata(seenPayload: bool, fs: seq<Frame>): seq<Reported>
    decreases |fs|
  {
    if |fs| == 0 then []
    else match fs[0]
      case MetadataFrame(block) =>
        if seenPayload then [Reported(Trailer, block)]
        else [Reported(Header, block)] + SentMetadata(false, fs[1..])
      case MessageFrame(_) => SentMetadata(true, fs[1..])
  }

  lemma {:induction false} MetadataOfAppend(a: seq<Token>, b: seq<Token>)
    ensures MetadataOf(a + b) == MetadataOf(a) + MetadataOf(b)
    decreases |a|
  {
    if |a| == 0 {
      assert a + b == b;
    } else {
      assert (a + b)[1..] == a[1..] + b;
      MetadataOfAppend(a[1..], b);
    }
  }

  lemma {:induction false} MetadataOfByteTokens(data: seq<byte>)
    ensures MetadataOf(ByteTokens(data)) == []
    decreases |data|
  {
    if |data| > 0 {
      assert ByteTokens(data)[1..] == ByteTokens(data[1..]);
      MetadataOfByteTokens(data[1..]);
    }
  }

  /**
   * The k-th Header or Trailer a reader should report for `fs` carries, once
   * parsed, exactly the k-th metadata block that was sent, with its kind.
   */
  lemma {:induction false} ExpectedMetadata(seenPayload: bool, fs: seq<Frame>)
    requires WellFormedFrames(fs)
    ensures MetadataOf(Expected(seenPayload, fs)) == SentMetadata(seenPayload, fs)
    decreases |fs|
  {
    if |fs| > 0 {
      var rest := fs[1..];
      assert WellFormedFrame(fs[0]) && WellFormedFrames(rest);
      match fs[0]
      case MetadataFrame(block) =>
        Metadata.ParseEncode(block);
        var t := [MetadataToken(if seenPayload then Trailer else Header, Metadata.Encode(block))];
        assert MetadataOf(t) == [Reported(if seenPayload then Trailer else Header, block)];
        if !seenPayload {
          MetadataOfAppend(t, Expected(false, rest));
          ExpectedMetadata(false, rest);
        }
      case MessageFrame(message) =>
        MetadataOfAppend([PayloadStart], ByteTokens(message));
        MetadataOfAppend([PayloadStart] + ByteTokens(message), Expected(true, rest));
        MetadataOfByteTokens(message);
        ExpectedMetadata(true, rest);
    }
  }

  /**
   * However the encoded stream is cut into transport chunks, the Headers and
   * Trailers a fresh reader reports parse to the blocks sent, one for one.
   */
  lemma ReadChunkedMetadata(fs: seq<Frame>, chunks: seq<seq<byte>>)
    requires WellFormedFrames(fs)
    requires Concat(chunks) == EncodeFrames(fs)
    ensures MetadataOf(Flatten(Feed(Initial, [], chunks).results)) == SentMetadata(false, fs)
  {
    ReadChunkedStream(fs, chunks);
    ExpectedMetadata(false, fs);
  }
}
