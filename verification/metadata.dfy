/**
 * Metadata blocks: the body of a headers or trailers frame is text made of
 * `Key: Value` lines separated by CRLF. Parsing keeps every entry in order of
 * appearance, duplicates included, so a key maps to all of its values.
 */
module Metadata {
  import opened Wrappers
  import opened Bytes

  datatype Entry = Entry(key: string, value: string)

  /** An ordered multi-valued mapping from header name to header values. */
  type Block = seq<Entry>

  // ---------------------------------------------------------------- lines

  predicate IsCrlfAt(s: seq<byte>, i: int)
  {
    0 <= i && i + 1 < |s| && s[i] == CR && s[i + 1] == LF
  }

  predicate NoCrlf(s: seq<byte>)
  {
    forall i :: 0 <= i < |s| ==> !IsCrlfAt(s, i)
  }

  /** The lines glued back together with a CRLF between neighbours. */
  function JoinLines(lines: seq<seq<byte>>): seq<byte>
  {
    if |lines| == 0 then []
    else if |lines| == 1 then lines[0]
    else lines[0] + [CR, LF] + JoinLines(lines[1..])
  }

  /**
   * Splits `s` at every CRLF. The pieces contain no CRLF and join back into
   * `s`, which determines them uniquely.
   */
  function SplitLines(s: seq<byte>): (lines: seq<seq<byte>>)
    ensures |lines| >= 1
    ensures lines[0] <= s
    ensures JoinLines(lines) == s
    ensures forall k :: 0 <= k < |lines| ==> NoCrlf(lines[k])
    decreases |s|
  {
    if |s| == 0 then [[]]
    else if IsCrlfAt(s, 0) then [[]] + SplitLines(s[2..])
    else
      var rest := SplitLines(s[1..]);
      assert s == [s[0]] + s[1..];
      var first := [s[0]] + rest[0];
      NoCrlfCons(s[0], rest[0]);
      JoinLinesCons(s[0], rest);
      [first] + rest[1..]
  }

  /** Prepending a byte to a CRLF-free line keeps it CRLF-free unless it completes a CRLF. */
  lemma NoCrlfCons(b: byte, line: seq<byte>)
    requires NoCrlf(line)
    requires b == CR ==> |line| == 0 || line[0] != LF
    ensures NoCrlf([b] + line)
  {
    var first := [b] + line;
    forall i | 0 <= i < |first| ensures !IsCrlfAt(first, i) {
      if i > 0 {
        assert !IsCrlfAt(line, i - 1);
      }
    }
  }

  /** Prepending a byte to the lines extends the first of them. */
  lemma JoinLinesCons(b: byte, lines: seq<seq<byte>>)
    requires |lines| >= 1
    ensures JoinLines([[b] + lines[0]] + lines[1..]) == [b] + JoinLines(lines)
  {
    var first := [b] + lines[0];
    var ls := [first] + lines[1..];
    if |lines| > 1 {
      assert ls[1..] == lines[1..];
    }
  }

  // ---------------------------------------------------------------- one line

  /** `": "` starts at position `i` of `line`. */
  predicate IsSeparatorAt(line: seq<byte>, i: int)
  {
    0 <= i && i + 1 < |line| && line[i] == Colon && line[i + 1] == Space
  }

  /** The position of the first `": "` in `line` at or after `from`. */
  function FindSeparator(line: seq<byte>, from: nat): (r: Option<nat>)
    ensures r.Some? ==> from <= r.value && IsSeparatorAt(line, r.value)
    ensures r.Some? ==> forall j :: from <= j < r.value ==> !IsSeparatorAt(line, j)
    ensures r.None? ==> forall j :: from <= j ==> !IsSeparatorAt(line, j)
    decreases |line| - from
  {
    if from + 1 >= |line| then None
    else if IsSeparatorAt(line, from) then Some(from)
    else FindSeparator(line, from + 1)
  }

  /**
   * A line splits at its first `": "` into key and value; a line without
   * one gives no entry.
   */
  function ParseLine(line: seq<byte>): (r: Option<Entry>)
  {
    match FindSeparator(line, 0)
    case None => None
    case Some(i) => Some(Entry(Text(line[..i]), Text(line[i + 2..])))
  }

  function ParseLines(lines: seq<seq<byte>>): Block
  {
    if |lines| == 0 then []
    else match ParseLine(lines[0])
      case None => ParseLines(lines[1..])
      case Some(e) => [e] + ParseLines(lines[1..])
  }

  /** Parses a complete metadata frame body. */
  function Parse(body: seq<byte>): Block
  {
    ParseLines(SplitLines(body))
  }

  // ---------------------------------------------------------------- lookups

  /** All values recorded under `key`, in order of appearance. */
  function GetValues(block: Block, key: string): (vs: seq<string>)
    ensures |vs| <= |block|
    ensures forall v :: v in vs <==> Entry(key, v) in block
  {
    if |block| == 0 then []
    else
      var rest := GetValues(block[1..], key);
      assert forall e :: e in block <==> e == block[0] || e in block[1..];
      if block[0].key == key then [block[0].value] + rest else rest
  }

  /** Some entry has name `key` (case-sensitive). */
  predicate ContainsKey(block: Block, key: string)
  {
    exists i :: 0 <= i < |block| && block[i].key == key
  }

  /** Lookup distributes over concatenation: values keep their block order. */
  lemma {:induction false} GetValuesAppend(a: Block, b: Block, key: string)
    ensures GetValues(a + b, key) == GetValues(a, key) + GetValues(b, key)
    decreases |a|
  {
    if |a| == 0 {
      assert a + b == b;
    } else {
      assert (a + b)[1..] == a[1..] + b;
      GetValuesAppend(a[1..], b, key);
    }
  }

  lemma GetValuesNonEmpty(block: Block, key: string)
    ensures GetValues(block, key) != [] <==> ContainsKey(block, key)
  {
    if ContainsKey(block, key) {
      var i :| 0 <= i < |block| && block[i].key == key;
      assert Entry(key, block[i].value) == block[i];
      assert block[i].value in GetValues(block, key);
    }
  }

  // ---------------------------------------------------------------- encoding

  /** A header name: ASCII without CR, LF or ':'. */
  predicate IsKey(s: string)
  {
    IsAscii(s) && forall i :: 0 <= i < |s| ==> s[i] != '\r' && s[i] != '\n' && s[i] != ':'
  }

  /** A header value: ASCII without CR or LF. */
  predicate IsValue(s: string)
  {
    IsAscii(s) && forall i :: 0 <= i < |s| ==> s[i] != '\r' && s[i] != '\n'
  }

  predicate WellFormed(block: Block)
  {
    forall k :: 0 <= k < |block| ==> IsKey(block[k].key) && IsValue(block[k].value)
  }

  function EncodeLine(e: Entry): seq<byte>
    requires IsKey(e.key) && IsValue(e.value)
  {
    AsciiBytes(e.key) + [Colon, Space] + AsciiBytes(e.value)
  }

  function EncodeLines(block: Block): (lines: seq<seq<byte>>)
    requires WellFormed(block)
    ensures |lines| == |block|
  {
    if |block| == 0 then [] else [EncodeLine(block[0])] + EncodeLines(block[1..])
  }

  /** The wire text of a block: one `Key: Value` line per entry, CRLF between lines. */
  function Encode(block: Block): seq<byte>
    requires WellFormed(block)
  {
    JoinLines(EncodeLines(block))
  }

  // ---------------------------------------------------------------- round trip

  predicate NoCr(l: seq<byte>)
  {
    forall i :: 0 <= i < |l| ==> l[i] != CR
  }

  lemma {:induction false} SplitLineWithoutCr(l: seq<byte>)
    requires NoCr(l)
    ensures SplitLines(l) == [l]
    decreases |l|
  {
    if |l| > 0 {
      SplitLineWithoutCr(l[1..]);
      assert [l[0]] + l[1..] == l;
    }
  }

  lemma {:induction false} SplitAfterLine(l: seq<byte>, t: seq<byte>)
    requires NoCr(l)
    ensures SplitLines(l + [CR, LF] + t) == [l] + SplitLines(t)
    decreases |l|
  {
    var s := l + [CR, LF] + t;
    if |l| == 0 {
      assert s[2..] == t;
    } else {
      assert s[1..] == l[1..] + [CR, LF] + t;
      SplitAfterLine(l[1..], t);
      assert [l[0]] + l[1..] == l;
    }
  }

  /** Splitting undoes joining, for lines with no CR in them. */
  lemma {:induction false} SplitJoin(lines: seq<seq<byte>>)
    requires |lines| >= 1
    requires forall k :: 0 <= k < |lines| ==> NoCr(lines[k])
    ensures SplitLines(JoinLines(lines)) == lines
    decreases |lines|
  {
    if |lines| == 1 {
      SplitLineWithoutCr(lines[0]);
    } else {
      SplitAfterLine(lines[0], JoinLines(lines[1..]));
      SplitJoin(lines[1..]);
      assert [lines[0]] + lines[1..] == lines;
    }
  }

  lemma EncodeLineNoCr(e: Entry)
    requires IsKey(e.key) && IsValue(e.value)
    ensures NoCr(EncodeLine(e))
  {
    var line := EncodeLine(e);
    forall i | 0 <= i < |line| ensures line[i] != CR {
      if i < |e.key| {
        assert line[i] == e.key[i] as int;
      } else if i >= |e.key| + 2 {
        assert line[i] == e.value[i - |e.key| - 2] as int;
      }
    }
  }

  /** A line written from an entry parses back to that entry. */
  lemma ParseEncodedLine(e: Entry)
    requires IsKey(e.key) && IsValue(e.value)
    ensures ParseLine(EncodeLine(e)) == Some(e)
  {
    var line := EncodeLine(e);
    var k := AsciiBytes(e.key);
    assert IsSeparatorAt(line, |k|);
    forall j | 0 <= j < |k| ensures !IsSeparatorAt(line, j) {
      assert line[j] == e.key[j] as int;
    }
    assert line[..|k|] == k;
    assert line[|k| + 2..] == AsciiBytes(e.value);
  }

  lemma {:induction false} ParseEncodedLines(block: Block)
    requires WellFormed(block)
    ensures ParseLines(EncodeLines(block)) == block
    decreases |block|
  {
    if |block| > 0 {
      var lines := EncodeLines(block);
      ParseEncodedLine(block[0]);
      assert lines[1..] == EncodeLines(block[1..]);
      ParseEncodedLines(block[1..]);
      assert [block[0]] + block[1..] == block;
    }
  }

  /** The wire text of a well-formed block parses back to the same entries, duplicates and order included. */
  lemma ParseEncode(block: Block)
    requires WellFormed(block)
    ensures Parse(Encode(block)) == block
  {
    var lines := EncodeLines(block);
    if |block| == 0 {
      assert Encode(block) == [];
    } else {
      forall k | 0 <= k < |lines| ensures NoCr(lines[k]) {
        EncodeLinesAt(block, k);
        EncodeLineNoCr(block[k]);
      }
      SplitJoin(lines);
      ParseEncodedLines(block);
    }
  }

  lemma {:induction false} EncodeLinesAt(block: Block, k: nat)
    requires WellFormed(block)
    requires k < |block|
    ensures EncodeLines(block)[k] == EncodeLine(block[k])
    decreases k
  {
    if k > 0 {
      EncodeLinesAt(block[1..], k - 1);
    }
  }
}
