/** Properties of single TryRead calls that relate several inputs. */
module ReaderProperties {
  import opened Bytes
  import opened Envelope
  import opened BufferReader
  import Metadata

  /**
   * A payload envelope is reported on its own: five bytes consumed, no data,
   * and the reader now expects `length` body bytes. It does not wait for any
   * of the body.
   */
  lemma PayloadEnvelopeRead(st: ReaderState, buf: seq<byte>)
    requires st.AwaitingEnvelope()
    requires |buf| >= EnvelopeSize && !IsMetadata(buf[0])
    ensures TryRead(st, buf)
         == Read(BufferReadResult(Content, EnvelopeSize, [], []),
                 ReaderState(true, TryReadEnvelope(buf).value.length, false))
  {
  }

  /**
   * Inside a payload body a call takes min(available, remaining) bytes, hands
   * exactly those bytes out, and counts them off the frame.
   */
  lemma BodyChunkRead(st: ReaderState, buf: seq<byte>)
    requires st.InPayloadBody() && |buf| > 0
    ensures var n := Min(|buf|, st.remaining);
      TryRead(st, buf) == Read(BufferReadResult(Content, n, buf[..n], []), st.(remaining := st.remaining - n))
  {
  }

  /**
   * Metadata frames are atomic: until the whole body is in the span nothing
   * is consumed, and once it is the frame is consumed exactly.
   */
  lemma MetadataNeedsWholeBody(st: ReaderState, buf: seq<byte>)
    requires st.AwaitingEnvelope()
    requires |buf| >= EnvelopeSize && IsMetadata(buf[0])
    ensures var len := TryReadEnvelope(buf).value.length;
      && (TryRead(st, buf).NeedMoreData? <==> |buf| < EnvelopeSize + len)
      && (TryRead(st, buf).Read? ==> TryRead(st, buf).result.consumed == EnvelopeSize + len)
  {
  }

  /**
   * A complete metadata frame is read in one call: the Header before any
   * payload frame has been seen, leaving the state as it was, and the
   * Trailer after one, terminating the stream. The result consumes exactly
   * the frame and carries its body.
   */
  lemma MetadataFrameRead(st: ReaderState, buf: seq<byte>)
    requires st.AwaitingEnvelope()
    requires |buf| >= EnvelopeSize && IsMetadata(buf[0])
    requires |buf| >= EnvelopeSize + TryReadEnvelope(buf).value.length
    ensures var n := EnvelopeSize + TryReadEnvelope(buf).value.length;
      TryRead(st, buf)
      == Read(BufferReadResult(if st.seenPayload then Trailer else Header, n, [], buf[EnvelopeSize..n]),
              if st.seenPayload then st.(terminated := true) else st)
  {
  }

  /**
   * A read that finishes a frame, or the body of a payload frame, is not
   * changed by more bytes after it: neither the result nor the next state.
   */
  lemma FrameReadIgnoresTail(st: ReaderState, x: seq<byte>, tail: seq<byte>)
    requires TryRead(st, x).Read?
    requires st.AwaitingEnvelope() || TryRead(st, x).result.consumed == st.remaining
    ensures TryRead(st, x + tail) == TryRead(st, x)
  {
    if st.AwaitingEnvelope() {
      var env := TryReadEnvelope(x).value;
      assert (x + tail)[1..EnvelopeSize] == x[1..EnvelopeSize];
      assert TryReadEnvelope(x + tail) == TryReadEnvelope(x);
      if IsMetadata(env.flags) {
        var consumed := EnvelopeSize + env.length;
        assert (x + tail)[EnvelopeSize..consumed] == x[EnvelopeSize..consumed];
      }
    } else {
      var c := TryRead(st, x).result.consumed;
      assert (x + tail)[..c] == x[..c];
    }
  }

  /**
   * A metadata frame that was not yet complete is read, once the span has
   * grown to hold it, exactly as if it had been complete all along: the same
   * envelope, the whole body, the same type and next state.
   */
  lemma MetadataRetry(st: ReaderState, partial: seq<byte>, more: seq<byte>)
    requires st.AwaitingEnvelope()
    requires |partial| >= EnvelopeSize && IsMetadata(partial[0])
    requires TryRead(st, partial).NeedMoreData?
    requires |partial + more| >= EnvelopeSize + TryReadEnvelope(partial).value.length
    ensures var n := EnvelopeSize + TryReadEnvelope(partial).value.length;
      TryRead(st, partial + more)
      == Read(BufferReadResult(if st.seenPayload then Trailer else Header, n, [], (partial + more)[EnvelopeSize..n]),
              if st.seenPayload then st.(terminated := true) else st)
  {
    assert (partial + more)[..EnvelopeSize] == partial[..EnvelopeSize];
    assert (partial + more)[1..EnvelopeSize] == partial[1..EnvelopeSize];
    MetadataFrameRead(st, partial + more);
  }
}
