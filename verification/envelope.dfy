/**
 * The 5-byte prefix in front of every frame of gRPC's length-prefixed message
 * framing: one flag byte, then the body length as a 4-byte big-endian unsigned
 * integer. The gRPC-Web convention marks a metadata (headers or trailers) frame
 * by setting bit 7 (0x80) of the flag byte.
 */
module Envelope {
  import opened Wrappers
  import opened Bytes

  /** Bytes taken by the flag byte and the length field together. */
  const EnvelopeSize: nat := 5

  /** Flag byte of a metadata frame; a payload frame carries 0x00. */
  const MetadataFlag: byte := 0x80
  const PayloadFlag: byte := 0x00

  /** The length field is an unsigned 32-bit integer. */
  const LengthLimit: nat := 0x1_0000_0000

  /** The envelope in front of one frame: its flag byte and its body length. */
  datatype Prefix = Prefix(flags: byte, length: nat)

  /** Bit 7 of the flag byte is set; for an octet that is the top half of its range. */
  predicate IsMetadata(flags: byte)
  {
    flags >= 0x80
  }

  /** The range test is the bit test on the flag byte. */
  lemma IsMetadataBit(flags: byte)
    ensures IsMetadata(flags) <==> (flags as bv8) & 0x80 != 0
  {
  }

  function ReadUInt32BigEndian(b: seq<byte>): (n: nat)
    requires |b| == 4
    ensures n < LengthLimit
  {
    ((b[0] as int * 0x100 + b[1]) * 0x100 + b[2]) * 0x100 + b[3]
  }

  function WriteUInt32BigEndian(n: nat): (b: seq<byte>)
    requires n < LengthLimit
    ensures |b| == 4
    ensures ReadUInt32BigEndian(b) == n
  {
    var b3 := n % 0x100;
    var n2 := n / 0x100;
    var b2 := n2 % 0x100;
    var n1 := n2 / 0x100;
    var b1 := n1 % 0x100;
    var b0 := n1 / 0x100;
    [b0, b1, b2, b3]
  }

  /**
   * Reads the envelope at the front of `buf`. Fewer than five bytes is not
   * enough; the body is not looked at.
   */
  function TryReadEnvelope(buf: seq<byte>): (r: Option<Prefix>)
    ensures r.Some? <==> |buf| >= EnvelopeSize
    ensures r.Some? ==> r.value.flags == buf[0] && r.value.length < LengthLimit
  {
    if |buf| < EnvelopeSize then None
    else Some(Prefix(buf[0], ReadUInt32BigEndian(buf[1..EnvelopeSize])))
  }

  function EncodeEnvelope(e: Prefix): (bs: seq<byte>)
    requires e.length < LengthLimit
    ensures |bs| == EnvelopeSize
  {
    [e.flags] + WriteUInt32BigEndian(e.length)
  }

  /** Reading then writing a length field gives back the four bytes read. */
  lemma WriteReadUInt32(b: seq<byte>)
    requires |b| == 4
    ensures WriteUInt32BigEndian(ReadUInt32BigEndian(b)) == b
  {
    var n := ReadUInt32BigEndian(b);
    var n1 := b[0] as int * 0x100 + b[1];
    var n2 := n1 * 0x100 + b[2];
    assert n == n2 * 0x100 + b[3];
    assert n % 0x100 == b[3] && n / 0x100 == n2;
    assert n2 % 0x100 == b[2] && n2 / 0x100 == n1;
    assert n1 % 0x100 == b[1] && n1 / 0x100 == b[0];
  }

  /** An encoded envelope reads back as itself, whatever follows it. */
  lemma EnvelopeRoundTrip(e: Prefix, tail: seq<byte>)
    requires e.length < LengthLimit
    ensures TryReadEnvelope(EncodeEnvelope(e) + tail) == Some(e)
  {
    var bs := EncodeEnvelope(e) + tail;
    assert bs[1..EnvelopeSize] == WriteUInt32BigEndian(e.length);
  }
}
