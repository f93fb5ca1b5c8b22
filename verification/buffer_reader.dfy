/**
 * GrpcWebSocketBufferReader: the incremental frame reader. Each call looks
 * at the unconsumed bytes the caller holds and either reports that more data
 * is needed (consuming nothing) or returns one typed result together with
 * the number of bytes the caller must slide past.
 */
module BufferReader {
  import opened Wrappers
  import opened Bytes
  import opened Envelope
  import Metadata

  /**
   * What the reader remembers between calls: whether a payload frame has
   * been seen (this decides Header against Trailer), how many body bytes of
   * the current payload frame are still to come (0 while waiting for an
   * envelope), and whether a Trailer has ended the stream.
   */
  datatype ReaderState = ReaderState(seenPayload: bool, remaining: nat, terminated: bool)
  {
    predicate AwaitingEnvelope() { !terminated && remaining == 0 }
    predicate InPayloadBody() { !terminated && remaining > 0 }
  }

  /** The state of a freshly created reader. */
  const Initial := ReaderState(false, 0, false)

  datatype BufferReadResultType = Header | Content | Trailer

  /**
   * One successful read. A Content result carries payload bytes in `data`
   * (none for the result that reports a payload envelope); a Header or
   * Trailer result carries its frame body in `metadata`, read as entries
   * through `HeadersOrTrailers`.
   */
  datatype BufferReadResult = BufferReadResult(
    kind: BufferReadResultType,
    consumed: nat,
    data: seq<byte>,
    metadata: seq<byte>)
  {
    function HeadersOrTrailers(): Metadata.Block
    {
      Metadata.Parse(metadata)
    }
  }

  /**
   * The three ways a call ends: `NeedMoreData` is TryRead returning false,
   * `Read` is TryRead returning true with a result, and `EndOfStream` is the
   * InvalidOperationException thrown once the stream has terminated.
   */
  datatype ReadOutcome =
    | NeedMoreData
    | Read(result: BufferReadResult, next: ReaderState)
    | EndOfStream

  /**
   * `buf` starts with a metadata envelope whose length field announces
   * `consumed - 5` body bytes, all present, and `metadata` is that body.
   */
  predicate WholeMetadataFrame(buf: seq<byte>, consumed: nat, metadata: seq<byte>)
  {
    && |buf| >= EnvelopeSize
    && IsMetadata(buf[0])
    && consumed == EnvelopeSize + ReadUInt32BigEndian(buf[1..EnvelopeSize])
    && consumed <= |buf|
    && metadata == buf[EnvelopeSize..consumed]
  }

  /** `buf` starts with a metadata envelope and holds the whole body it announces. */
  predicate HasWholeMetadataFrame(buf: seq<byte>)
  {
    && |buf| >= EnvelopeSize
    && IsMetadata(buf[0])
    && EnvelopeSize + ReadUInt32BigEndian(buf[1..EnvelopeSize]) <= |buf|
  }

  /** `buf` starts with a payload envelope announcing `length` body bytes. */
  predicate PayloadEnvelope(buf: seq<byte>, length: nat)
  {
    && |buf| >= EnvelopeSize
    && !IsMetadata(buf[0])
    && length == ReadUInt32BigEndian(buf[1..EnvelopeSize])
  }

  function Min(a: nat, b: nat): nat { if a <= b then a else b }

  /**
   * One call of the reader on the unconsumed span `buf`.
   *  - Reading past the end of the stream fails, and only then.
   *  - Every successful call makes progress and never consumes past the span.
   *  - Awaiting an envelope, fewer than five bytes is never enough; inside a
   *    payload body, any non-empty span is enough.
   *  - A payload envelope is always read as soon as its five bytes are there,
   *    without waiting for the body: a Content result of five bytes without
   *    data, after which the reader expects the announced body.
   *  - Inside a body, a call hands out the leading min(available, remaining)
   *    bytes of the span and counts them off the frame.
   *  - A complete metadata frame is always read, never as Content; the result
   *    consumes the envelope and exactly `length` body bytes, which it carries.
   *  - A metadata frame is a Header before any payload frame and a Trailer
   *    after one. A Header leaves the state as it was; a Trailer only marks
   *    the stream terminated, and only a Trailer does.
   */
  function TryRead(st: ReaderState, buf: seq<byte>): (o: ReadOutcome)
    ensures o.EndOfStream? <==> st.terminated
    ensures o.Read? ==> 1 <= o.result.consumed <= |buf|
    ensures st.AwaitingEnvelope() && |buf| < EnvelopeSize ==> o.NeedMoreData?
    ensures st.InPayloadBody() ==> (o.NeedMoreData? <==> |buf| == 0)
    ensures o.Read? && o.result.kind == Content ==>
      o.result.data <= buf && |o.result.data| <= st.remaining
    ensures o.Read? && o.result.kind == Content && st.AwaitingEnvelope() ==>
      && o.result.consumed == EnvelopeSize && o.result.data == []
      && o.next.seenPayload && !o.next.terminated && PayloadEnvelope(buf, o.next.remaining)
    ensures o.Read? && o.result.kind == Content && st.InPayloadBody() ==>
      && o.result.consumed == |o.result.data| == Min(|buf|, st.remaining)
      && o.next == st.(remaining := st.remaining - o.result.consumed)
    ensures st.AwaitingEnvelope() && |buf| >= EnvelopeSize && !IsMetadata(buf[0]) ==>
      o.Read? && o.result.kind == Content
    ensures st.AwaitingEnvelope() && HasWholeMetadataFrame(buf) ==>
      o.Read? && o.result.kind != Content
    ensures o.Read? && o.result.kind != Content ==>
      st.AwaitingEnvelope() && WholeMetadataFrame(buf, o.result.consumed, o.result.metadata)
    ensures o.Read? && o.result.kind != Content ==>
      (o.result.kind == Trailer <==> st.seenPayload)
    ensures o.Read? && o.result.kind == Header ==> o.next == st
    ensures o.Read? && o.result.kind == Trailer ==> o.next == st.(terminated := true)
    ensures o.Read? ==> (o.next.terminated <==> o.result.kind == Trailer)
    ensures o.Read? ==> (st.seenPayload ==> o.next.seenPayload)
  {
    if st.terminated then EndOfStream
    else if st.remaining > 0 then
      if |buf| == 0 then NeedMoreData
      else
        var n := Min(|buf|, st.remaining);
        Read(BufferReadResult(Content, n, buf[..n], []), st.(remaining := st.remaining - n))
    else
      match TryReadEnvelope(buf)
      case None => NeedMoreData
      case Some(env) =>
        if IsMetadata(env.flags) then
          if |buf| - EnvelopeSize < env.length then NeedMoreData
          else
            var consumed := EnvelopeSize + env.length;
            var body := buf[EnvelopeSize..consumed];
            if st.seenPayload then
              Read(BufferReadResult(Trailer, consumed, [], body), st.(terminated := true))
            else
              Read(BufferReadResult(Header, consumed, [], body), st)
        else
          Read(BufferReadResult(Content, EnvelopeSize, [], []),
               st.(seenPayload := true, remaining := env.length))
  }
}
