/**
 * The caller's loop around the reader: it holds the unconsumed bytes, calls
 * TryRead on them, slides past `consumed` bytes after every result, and waits
 * for more transport bytes once the reader needs more data. After a trailer
 * the reader is terminated and the loop makes no further call; the bytes
 * behind the trailer stay unconsumed. The results are compared through the
 * token stream they denote, which forgets only where payload chunks were cut.
 */
module Caller {
  import opened Bytes
  import opened Envelope
  import opened BufferReader
  import ReaderProperties
  import Metadata

  /** After draining: the results in order, the reader state, and the bytes still unconsumed. */
  datatype Drained = Drained(results: seq<BufferReadResult>, state: ReaderState, rest: seq<byte>)

  /** The reader cannot make progress on `buf` without more bytes (or ever again). */
  predicate Stuck(st: ReaderState, buf: seq<byte>)
  {
    !TryRead(st, buf).Read?
  }

  function TotalConsumed(results: seq<BufferReadResult>): nat
  {
    if |results| == 0 then 0 else results[0].consumed + TotalConsumed(results[1..])
  }

  /**
   * Calls TryRead on the unconsumed suffix of `buf` until it produces nothing
   * more. Once a trailer has terminated the reader the loop stops without
   * calling it again, since TryRead refuses a terminated reader.
   */
  function Drain(st: ReaderState, buf: seq<byte>): Drained
    decreases |buf|
  {
    if st.terminated then Drained([], st, buf)
    else
      match TryRead(st, buf)
      case Read(r, next) =>
        var d := Drain(next, buf[r.consumed..]);
        Drained([r] + d.results, d.state, d.rest)
      case _ => Drained([], st, buf)
  }

  /**
   * The caller's bookkeeping adds up: the consumed counts of the results,
   * plus the bytes left over, are the whole span, and what is left over is
   * its tail.
   */
  lemma {:induction false} DrainConsumes(st: ReaderState, buf: seq<byte>)
    ensures var d := Drain(st, buf);
            && TotalConsumed(d.results) + |d.rest| == |buf|
            && d.rest == buf[|buf| - |d.rest|..]
    decreases |buf|
  {
    var o := TryRead(st, buf);
    if o.Read? {
      var r, next := o.result, o.next;
      DrainStep(st, buf, r, next);
      var tail := buf[r.consumed..];
      DrainConsumes(next, tail);
      var d := Drain(next, tail);
      assert ([r] + d.results)[1..] == d.results;
      assert TotalConsumed([r] + d.results) == r.consumed + TotalConsumed(d.results);
      assert tail[|tail| - |d.rest|..] == buf[|buf| - |d.rest|..];
    } else {
      assert Drain(st, buf) == Drained([], st, buf);
    }
  }

  /** Draining stops only where the reader cannot go on. */
  lemma {:induction false} DrainStops(st: ReaderState, buf: seq<byte>)
    ensures Stuck(Drain(st, buf).state, Drain(st, buf).rest)
    decreases |buf|
  {
    match TryRead(st, buf)
    case Read(r, next) => DrainStops(next, buf[r.consumed..]);
    case _ =>
  }

  /**
   * A trailer ends the stream: nothing is read after it, and the reader ends
   * terminated exactly when it started so or the last result was a trailer.
   */
  lemma {:induction false} DrainEndsAtTrailer(st: ReaderState, buf: seq<byte>)
    ensures var d := Drain(st, buf);
            && (forall i :: 0 <= i < |d.results| - 1 ==> d.results[i].kind != Trailer)
            && (d.state.terminated <==> st.terminated || (|d.results| > 0 && d.results[|d.results| - 1].kind == Trailer))
    decreases |buf|
  {
    if !st.terminated && TryRead(st, buf).Read? {
      var r, next := TryRead(st, buf).result, TryRead(st, buf).next;
      DrainStep(st, buf, r, next);
      DrainEndsAtTrailer(next, buf[r.consumed..]);
      var d := Drain(next, buf[r.consumed..]);
      if r.kind == Trailer {
        assert d.results == [];
      }
      assert forall i :: 1 <= i < |d.results| + 1 ==> ([r] + d.results)[i] == d.results[i - 1];
    }
  }

  function Concat(chunks: seq<seq<byte>>): seq<byte>
  {
    if |chunks| == 0 then [] else chunks[0] + Concat(chunks[1..])
  }

  /**
   * Transport chunks arrive one after another; after each, the caller
   * appends it to what is left unconsumed and drains.
   */
  function Feed(st: ReaderState, pending: seq<byte>, chunks: seq<seq<byte>>): Drained
    decreases |chunks|
  {
    if |chunks| == 0 then Drained([], st, pending)
    else
      var d1 := Drain(st, pending + chunks[0]);
      var d2 := Feed(d1.state, d1.rest, chunks[1..]);
      Drained(d1.results + d2.results, d2.state, d2.rest)
  }

  lemma {:induction false} TotalConsumedAppend(a: seq<BufferReadResult>, b: seq<BufferReadResult>)
    ensures TotalConsumed(a + b) == TotalConsumed(a) + TotalConsumed(b)
    decreases |a|
  {
    if |a| == 0 {
      assert a + b == b;
    } else {
      assert (a + b)[1..] == a[1..] + b;
      TotalConsumedAppend(a[1..], b);
    }
  }

  // ---------------------------------------------------------------- tokens

  /** What a stream of results says, independent of how payload bodies were cut into chunks. */
  datatype Token =
    | MetadataToken(kind: BufferReadResultType, body: seq<byte>)
    | PayloadStart
    | PayloadByte(b: byte)

  function ByteTokens(data: seq<byte>): (ts: seq<Token>)
    ensures |ts| == |data|
  {
    seq(|data|, i requires 0 <= i < |data| => PayloadByte(data[i]))
  }

  /** A Content result without data is the start of a payload frame; with data it is body bytes. */
  function Tokens(r: BufferReadResult): seq<Token>
  {
    if r.kind != Content then [MetadataToken(r.kind, r.metadata)]
    else if |r.data| == 0 then [PayloadStart]
    else ByteTokens(r.data)
  }

  function Flatten(results: seq<BufferReadResult>): seq<Token>
  {
    if |results| == 0 then [] else Tokens(results[0]) + Flatten(results[1..])
  }

  lemma {:induction false} FlattenAppend(a: seq<BufferReadResult>, b: seq<BufferReadResult>)
    ensures Flatten(a + b) == Flatten(a) + Flatten(b)
    decreases |a|
  {
    if |a| == 0 {
      assert a + b == b;
    } else {
      assert (a + b)[1..] == a[1..] + b;
      FlattenAppend(a[1..], b);
    }
  }

  lemma ByteTokensAppend(x: seq<byte>, y: seq<byte>)
    ensures ByteTokens(x + y) == ByteTokens(x) + ByteTokens(y)
  {
  }

  // ---------------------------------------------------------------- fragmentation

  /**
   * A body chunk cut short by the end of `x`, followed by the chunk read
   * from `b`, covers the same bytes as the one chunk read from `x + b`.
   */
  lemma ChunksMerge(st: ReaderState, x: seq<byte>, b: seq<byte>)
    requires st.InPayloadBody() && 0 < |x| < st.remaining && |b| > 0
    ensures var mid := st.(remaining := st.remaining - |x|);
            var c2 := Min(|b|, mid.remaining);
            var after := mid.(remaining := mid.remaining - c2);
            && TryRead(st, x) == Read(BufferReadResult(Content, |x|, x, []), mid)
            && TryRead(mid, b) == Read(BufferReadResult(Content, c2, b[..c2], []), after)
            && TryRead(st, x + b) == Read(BufferReadResult(Content, |x| + c2, x + b[..c2], []), after)
  {
    var mid := st.(remaining := st.remaining - |x|);
    var c2 := Min(|b|, mid.remaining);
    assert x[..|x|] == x;
    assert (x + b)[..|x| + c2] == x + b[..c2];
  }

  lemma DrainStep(st: ReaderState, buf: seq<byte>, r: BufferReadResult, next: ReaderState)
    requires TryRead(st, buf) == Read(r, next)
    ensures r.consumed <= |buf|
    ensures var d := Drain(next, buf[r.consumed..]);
            Drain(st, buf) == Drained([r] + d.results, d.state, d.rest)
  {
  }

  /** Draining `x`, then the leftover extended by `b`, against draining `x + b` at once. */
  ghost predicate SplitAgrees(st: ReaderState, x: seq<byte>, b: seq<byte>)
  {
    var d1 := Drain(st, x);
    var d2 := Drain(d1.state, d1.rest + b);
    var d := Drain(st, x + b);
    && Flatten(d1.results) + Flatten(d2.results) == Flatten(d.results)
    && d2.state == d.state
    && d2.rest == d.rest
  }

  /**
   * Draining `x` and then the leftover extended by `b` says the same thing,
   * and ends in the same place, as draining `x + b` in one go.
   */
  lemma {:induction false} DrainSplit(st: ReaderState, x: seq<byte>, b: seq<byte>)
    ensures SplitAgrees(st, x, b)
    decreases |x|, 1
  {
    var o := TryRead(st, x);
    if !o.Read? {
      assert Drain(st, x) == Drained([], st, x);
    } else if st.AwaitingEnvelope() || o.result.consumed == st.remaining {
      DrainSplitFinishing(st, x, b);
    } else {
      DrainSplitCutShort(st, x, b);
    }
  }

  lemma SkipPast(x: seq<byte>, b: seq<byte>, k: nat)
    requires k <= |b|
    ensures (x + b)[|x| + k..] == b[k..]
  {
  }

  /**
   * Concatenation regrouped around a part known under another name; stated
   * once so that proofs over long token streams need not rediscover it.
   */
  lemma Regroup(t: seq<Token>, a: seq<Token>, b: seq<Token>, ab: seq<Token>)
    requires a + b == ab
    ensures (t + a) + b == t + ab
  {
  }

  /** Two adjacent body chunks denote what the one chunk holding both denotes. */
  lemma ChunkTokensMerge(x: seq<byte>, y: seq<byte>, rest: seq<Token>)
    requires |x| > 0 && |y| > 0
    ensures Tokens(BufferReadResult(Content, |x|, x, []))
              + (Tokens(BufferReadResult(Content, |y|, y, [])) + rest)
         == Tokens(BufferReadResult(Content, |x| + |y|, x + y, [])) + rest
  {
    ByteTokensAppend(x, y);
  }

  lemma FlattenSingle(r: BufferReadResult)
    ensures Flatten([r]) == Tokens(r)
  {
  }

  lemma FlattenCons(r: BufferReadResult, rs: seq<BufferReadResult>)
    ensures Flatten([r] + rs) == Tokens(r) + Flatten(rs)
  {
    assert ([r] + rs)[1..] == rs;
  }

  lemma {:induction false} DrainSplitFinishing(st: ReaderState, x: seq<byte>, b: seq<byte>)
    requires TryRead(st, x).Read?
    requires st.AwaitingEnvelope() || TryRead(st, x).result.consumed == st.remaining
    ensures SplitAgrees(st, x, b)
    decreases |x|, 0
  {
    var o := TryRead(st, x);
    var r, next := o.result, o.next;
    var c := r.consumed;
    // The whole span reads the same first result as `x` alone.
    ReaderProperties.FrameReadIgnoresTail(st, x, b);
    var xb := x + b;
    assert TryRead(st, xb) == o;
    assert xb[c..] == x[c..] + b;
    var e := Drain(next, x[c..] + b);
    var d := Drain(st, xb);
    DrainStep(st, xb, r, next);
    assert d == Drained([r] + e.results, e.state, e.rest);
    // `x` alone: the same first result, then the rest of `x`.
    var e1 := Drain(next, x[c..]);
    var d1 := Drain(st, x);
    DrainStep(st, x, r, next);
    assert d1 == Drained([r] + e1.results, e1.state, e1.rest);
    DrainSplit(next, x[c..], b);
    var d2 := Drain(e1.state, e1.rest + b);
    assert Flatten(e1.results) + Flatten(d2.results) == Flatten(e.results);
    FlattenCons(r, e1.results);
    FlattenCons(r, e.results);
    Regroup(Tokens(r), Flatten(e1.results), Flatten(d2.results), Flatten(e.results));
  }

  lemma DrainSplitCutShort(st: ReaderState, x: seq<byte>, b: seq<byte>)
    requires TryRead(st, x).Read?
    requires !st.AwaitingEnvelope() && TryRead(st, x).result.consumed != st.remaining
    ensures SplitAgrees(st, x, b)
  {
    var o := TryRead(st, x);
    ReaderProperties.BodyChunkRead(st, x);
    assert o.result.consumed == |x| < st.remaining;
    DrainCutShort(st, x);
    FlattenSingle(o.result);
    assert [] + b == b;
    if |b| == 0 {
      assert x + b == x;
    } else {
      DrainMergedChunk(st, x, b);
    }
  }

  /** A span that ends inside a payload body is drained in one chunk. */
  lemma DrainCutShort(st: ReaderState, x: seq<byte>)
    requires st.InPayloadBody() && 0 < |x| < st.remaining
    ensures Drain(st, x)
         == Drained([BufferReadResult(Content, |x|, x, [])], st.(remaining := st.remaining - |x|), [])
  {
    var next := st.(remaining := st.remaining - |x|);
    ReaderProperties.BodyChunkRead(st, x);
    assert x[..|x|] == x;
    DrainStep(st, x, BufferReadResult(Content, |x|, x, []), next);
    assert x[|x|..] == [];
    assert Drain(next, []) == Drained([], next, []);
  }

  lemma DrainMergedChunk(st: ReaderState, x: seq<byte>, b: seq<byte>)
    requires st.InPayloadBody() && 0 < |x| < st.remaining && |b| > 0
    ensures var next := st.(remaining := st.remaining - |x|);
            var r := BufferReadResult(Content, |x|, x, []);
            var d2 := Drain(next, b);
            var d := Drain(st, x + b);
            && Flatten([r]) + Flatten(d2.results) == Flatten(d.results)
            && d2.state == d.state
            && d2.rest == d.rest
  {
    var next := st.(remaining := st.remaining - |x|);
    var r := BufferReadResult(Content, |x|, x, []);
    ChunksMerge(st, x, b);
    var c2 := Min(|b|, next.remaining);
    var y := b[..c2];
    assert 0 < c2 == |y|;
    var after := next.(remaining := next.remaining - c2);
    var r2 := BufferReadResult(Content, c2, y, []);
    var rAll := BufferReadResult(Content, |x| + c2, x + y, []);
    var g := Drain(after, b[c2..]);
    var d2 := Drain(next, b);
    DrainStep(next, b, r2, after);
    assert d2 == Drained([r2] + g.results, g.state, g.rest);
    var xb := x + b;
    SkipPast(x, b, c2);
    var d := Drain(st, xb);
    DrainStep(st, xb, rAll, after);
    assert xb[rAll.consumed..] == b[c2..];
    assert Drain(after, xb[rAll.consumed..]) == g;
    assert d == Drained([rAll] + g.results, g.state, g.rest);
    FlattenSingle(r);
    FlattenCons(r2, g.results);
    FlattenCons(rAll, g.results);
    ChunkTokensMerge(x, y, Flatten(g.results));
  }

  // ---------------------------------------------------------------- chunked arrival

  lemma ConcatCons(chunks: seq<seq<byte>>)
    requires |chunks| > 0
    ensures Concat(chunks) == chunks[0] + Concat(chunks[1..])
  {
  }

  /** The caller's bookkeeping over many arrivals: every byte received is consumed or still pending. */
  lemma {:induction false} FeedConsumes(st: ReaderState, pending: seq<byte>, chunks: seq<seq<byte>>)
    ensures var d := Feed(st, pending, chunks);
            TotalConsumed(d.results) + |d.rest| == |pending| + |Concat(chunks)|
    decreases |chunks|
  {
    if |chunks| > 0 {
      var d1 := Drain(st, pending + chunks[0]);
      var d2 := Feed(d1.state, d1.rest, chunks[1..]);
      DrainConsumes(st, pending + chunks[0]);
      FeedConsumes(d1.state, d1.rest, chunks[1..]);
      TotalConsumedAppend(d1.results, d2.results);
      ConcatCons(chunks);
    }
  }

  /**
   * Fragmentation independence: however the transport cuts the stream into
   * chunks, feeding them one at a time yields the same tokens, the same
   * final reader state and the same unconsumed bytes as one drain of
   * everything received.
   */
  lemma {:induction false} FeedMatchesDrain(st: ReaderState, pending: seq<byte>, chunks: seq<seq<byte>>)
    requires Stuck(st, pending)
    ensures var f := Feed(st, pending, chunks);
            var d := Drain(st, pending + Concat(chunks));
            && Flatten(f.results) == Flatten(d.results)
            && f.state == d.state
            && f.rest == d.rest
    decreases |chunks|
  {
    if |chunks| == 0 {
      assert pending + Concat(chunks) == pending;
      assert Drain(st, pending) == Drained([], st, pending);
    } else {
      var x := pending + chunks[0];
      var tail := Concat(chunks[1..]);
      ConcatCons(chunks);
      assert pending + Concat(chunks) == x + tail;
      // The first arrival is drained, the later ones continue from where it stopped.
      var d1 := Drain(st, x);
      var d2 := Feed(d1.state, d1.rest, chunks[1..]);
      assert Feed(st, pending, chunks) == Drained(d1.results + d2.results, d2.state, d2.rest);
      FlattenAppend(d1.results, d2.results);
      // By induction the later arrivals read like one drain of all of them ...
      DrainStops(st, x);
      FeedMatchesDrain(d1.state, d1.rest, chunks[1..]);
      var e := Drain(d1.state, d1.rest + tail);
      assert Flatten(d2.results) == Flatten(e.results) && d2.state == e.state && d2.rest == e.rest;
      // ... and two drains read like one.
      DrainSplit(st, x, tail);
      assert SplitAgrees(st, x, tail);
    }
  }

  /** Two deliveries of the same bytes, cut differently, read identically. */
  lemma ChunkingIrrelevant(a: seq<seq<byte>>, b: seq<seq<byte>>)
    requires Concat(a) == Concat(b)
    ensures Flatten(Feed(Initial, [], a).results) == Flatten(Feed(Initial, [], b).results)
    ensures Feed(Initial, [], a).state == Feed(Initial, [], b).state
    ensures Feed(Initial, [], a).rest == Feed(Initial, [], b).rest
  {
    assert TryReadEnvelope([]).None?;
    FeedMatchesDrain(Initial, [], a);
    FeedMatchesDrain(Initial, [], b);
  }

  /**
   * A payload body arriving in non-empty pieces, none of them reaching past
   * the body, is handed out piece by piece: one Content result per arrival
   * carrying exactly those bytes, and the frame's remaining count drops by
   * their total. When the total is the declared length, the reader is back
   * to waiting for an envelope.
   */
  lemma {:induction false} BodyArrivesInChunks(st: ReaderState, chunks: seq<seq<byte>>)
    requires !st.terminated
    requires forall i :: 0 <= i < |chunks| ==> |chunks[i]| > 0
    requires |Concat(chunks)| <= st.remaining
    ensures var f := Feed(st, [], chunks);
            && |f.results| == |chunks|
            && (forall i :: 0 <= i < |chunks| ==>
                  f.results[i] == BufferReadResult(Content, |chunks[i]|, chunks[i], []))
            && f.state == st.(remaining := st.remaining - |Concat(chunks)|)
            && f.rest == []
    decreases |chunks|
  {
    if |chunks| == 0 {
      assert st.(remaining := st.remaining - 0) == st;
    } else {
      var c, cs := chunks[0], chunks[1..];
      ConcatCons(chunks);
      var next := st.(remaining := st.remaining - |c|);
      var r := BufferReadResult(Content, |c|, c, []);
      assert [] + c == c;
      assert c[..|c|] == c;
      assert TryRead(st, c) == Read(r, next);
      DrainStep(st, c, r, next);
      assert c[|c|..] == [];
      assert Drain(next, []) == Drained([], next, []);
      var d1 := Drain(st, c);
      assert d1 == Drained([r], next, []);
      BodyArrivesInChunks(next, cs);
      var d2 := Feed(next, [], cs);
      assert Feed(st, [], chunks) == Drained([r] + d2.results, d2.state, d2.rest);
    }
  }
}
