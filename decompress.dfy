/**
 * The run-length decoder of target/package/shoko-0.1.1-rc1/src/decompress.rs.
 *
 * `Decode` is the functional description on the remaining input; the
 * `Decompress` method is the decoder's loop with its early error returns,
 * proved to compute `Decode`. The decoder inverts the encoder of module
 * `Codec` and accepts exactly the serialisations of record sequences.
 */
module Decompress {
  import opened Common
  import opened Codec

  /** The four ways a stream is malformed, one per error message of `decompress`. */
  datatype DecodeError =
    | UnexpectedEndOfRun
    | MissingLiteralLength
    | LiteralLengthExceedsData
    | InvalidControlByte(control: byte)

  /** What `decompress(s)` returns. */
  function Decode(s: seq<byte>): (r: Result<seq<byte>, DecodeError>)
    decreases |s|
  {
    if s == [] then Ok([])
    else if s[0] == RunTag then
      if |s| < 3 then Err(UnexpectedEndOfRun)
      else Prepend(Repeat(s[2], s[1]), Decode(s[3..]))
    else if s[0] == LiteralTag then
      if |s| < 2 then Err(MissingLiteralLength)
      else if 2 + s[1] > |s| then Err(LiteralLengthExceedsData)
      else Prepend(s[2..2 + s[1]], Decode(s[2 + s[1]..]))
    else Err(InvalidControlByte(s[0]))
  }

  /**
   * The outcomes of `decompress` by its first bytes: empty input is
   * `Ok(empty)`; a run tag without both its bytes, a literal tag without
   * its length, a literal longer than the rest, and any other control byte
   * are the four errors.
   */
  lemma DecodeCases(s: seq<byte>)
    ensures s == [] ==> Decode(s) == Ok([])
    ensures s != [] && s[0] == RunTag && |s| < 3 ==> Decode(s) == Err(UnexpectedEndOfRun)
    ensures s != [] && s[0] == LiteralTag && |s| < 2 ==> Decode(s) == Err(MissingLiteralLength)
    ensures |s| >= 2 && s[0] == LiteralTag && 2 + s[1] > |s| ==> Decode(s) == Err(LiteralLengthExceedsData)
    ensures s != [] && s[0] != RunTag && s[0] != LiteralTag ==> Decode(s) == Err(InvalidControlByte(s[0]))
  {
  }

  /** A run record at `i` stands for `data[i + 1]` copies of `data[i + 2]` and takes three bytes. */
  lemma DecodeRunAt(data: seq<byte>, i: nat)
    requires i + 3 <= |data| && data[i] == RunTag
    ensures Decode(data[i..]) == Prepend(Repeat(data[i + 2], data[i + 1]), Decode(data[i + 3..]))
  {
    assert data[i..][3..] == data[i + 3..];
  }

  /** A literal record at `i` stands for the `data[i + 1]` bytes after its header. */
  lemma DecodeLiteralAt(data: seq<byte>, i: nat)
    requires i + 2 <= |data| && data[i] == LiteralTag && i + 2 + data[i + 1] <= |data|
    ensures Decode(data[i..]) == Prepend(data[i + 2..i + 2 + data[i + 1]], Decode(data[i + 2 + data[i + 1]..]))
  {
    assert data[i..][2..2 + data[i + 1]] == data[i + 2..i + 2 + data[i + 1]];
    assert data[i..][2 + data[i + 1]..] == data[i + 2 + data[i + 1]..];
  }

  /** Decoding across a run record whose tag is at `i - 1`. */
  lemma RunStep(data: seq<byte>, i: nat, out: seq<byte>)
    requires 1 <= i && i + 2 <= |data| && data[i - 1] == RunTag
    ensures Prepend(out, Decode(data[i - 1..])) == Prepend(out + Repeat(data[i + 1], data[i]), Decode(data[i + 2..]))
  {
    DecodeRunAt(data, i - 1);
    PrependPrepend(out, Repeat(data[i + 1], data[i]), Decode(data[i + 2..]));
  }

  /** Decoding across a literal record of `litLen` bytes starting at `i`. */
  lemma LiteralStep(data: seq<byte>, i: nat, litLen: byte, out: seq<byte>)
    requires 2 <= i && i + litLen <= |data| && data[i - 2] == LiteralTag && data[i - 1] == litLen
    ensures Prepend(out, Decode(data[i - 2..])) == Prepend(out + data[i..i + litLen], Decode(data[i + litLen..]))
  {
    var tag := i - 2;
    DecodeLiteralAt(data, tag);
    assert data[tag + 2..tag + 2 + data[tag + 1]] == data[i..i + litLen];
    assert data[tag + 2 + data[tag + 1]..] == data[i + litLen..];
    PrependPrepend(out, data[i..i + litLen], Decode(data[i + litLen..]));
  }

  /** The decoder's run loop: appends `n` copies of `value`. */
  method AppendRun(out: seq<byte>, value: byte, n: nat) returns (r: seq<byte>)
    ensures r == out + Repeat(value, n)
  {
    r := out;
    var k := 0;
    while k < n
      invariant k <= n
      invariant |r| == |out| + k && r[..|out|] == out
      invariant forall j :: |out| <= j < |r| ==> r[j] == value
    {
      r := r + [value];
      k := k + 1;
    }
    assert r == out + Repeat(value, n);
  }

  /**
   * One pass of the decoder loop at `i`: the record there appended to
   * `out` and the position after it, or the error that makes `decompress`
   * return early.
   */
  method DecodeNext(data: seq<byte>, i: nat, out: seq<byte>) returns (r: Result<(seq<byte>, nat), DecodeError>)
    requires i < |data|
    ensures r.Err? ==> Decode(data[i..]) == Err(r.error)
    ensures r.Ok? ==> i < r.value.1 <= |data|
    ensures r.Ok? ==> Prepend(out, Decode(data[i..])) == Prepend(r.value.0, Decode(data[r.value.1..]))
  {
    var control := data[i];
    var j := i + 1;
    DecodeCases(data[i..]);
    assert data[i..][0] == control;
    if control == RunTag {
      if j + 1 >= |data| {
        return Err(UnexpectedEndOfRun);
      }
      RunStep(data, j, out);
      var decompressed := AppendRun(out, data[j + 1], data[j]);
      return Ok((decompressed, j + 2));
    } else if control == LiteralTag {
      if j >= |data| {
        return Err(MissingLiteralLength);
      }
      var litLen := data[j];
      j := j + 1;
      if j + litLen > |data| {
        return Err(LiteralLengthExceedsData);
      }
      LiteralStep(data, j, litLen, out);
      return Ok((out + data[j..j + litLen], j + litLen));
    } else {
      return Err(InvalidControlByte(control));
    }
  }

  /** `decompress`: the decoder loop, returning early on the first malformed record. */
  method Decompress(data: seq<byte>) returns (r: Result<seq<byte>, DecodeError>)
    ensures r == Decode(data)
  {
    if |data| == 0 {
      return Ok([]);
    }
    var decompressed: seq<byte> := [];
    var i := 0;
    assert data[i..] == data;
    PrependEmpty(Decode(data));
    while i < |data|
      invariant i <= |data|
      invariant Decode(data) == Prepend(decompressed, Decode(data[i..]))
      decreases |data| - i
    {
      var step := DecodeNext(data, i, decompressed);
      if step.Err? {
        return Err(step.error);
      }
      decompressed, i := step.value.0, step.value.1;
    }
    assert data[i..] == [];
    assert decompressed + [] == decompressed;
    return Ok(decompressed);
  }

  /** A record's bytes decode to what the record stands for, whatever follows them. */
  lemma DecodeRecord(r: Record, rest: seq<byte>)
    ensures Decode(RecordBytes(r) + rest) == Prepend(Expand(r), Decode(rest))
  {
    var s := RecordBytes(r) + rest;
    match r
    case Run(n, v) =>
      assert s[3..] == rest;
    case Literal(b) =>
      assert s[2..2 + |b|] == b;
      assert s[2 + |b|..] == rest;
  }

  /** Serialised records decode, without error, to the concatenation of what they stand for. */
  lemma {:induction false} DecodeSerialize(rs: seq<Record>)
    ensures Decode(Serialize(rs)) == Ok(ExpandAll(rs))
  {
    if rs != [] {
      DecodeSerialize(rs[1..]);
      DecodeRecord(rs[0], Serialize(rs[1..]));
    }
  }

  /**
   * Conversely, a stream that decodes without error is the serialisation of
   * records that stand for the decoded bytes: `decompress` accepts exactly
   * the streams made of complete run and literal records.
   */
  lemma {:induction false} DecodeParses(s: seq<byte>) returns (rs: seq<Record>)
    requires Decode(s).Ok?
    ensures Serialize(rs) == s && ExpandAll(rs) == Decode(s).value
    decreases |s|
  {
    if s == [] {
      rs := [];
    } else {
      var r: Record;
      var rest: seq<byte>;
      if s[0] == RunTag {
        r, rest := Run(s[1], s[2]), s[3..];
        assert s == RecordBytes(r) + rest;
      } else {
        var payload: Payload := s[2..2 + s[1]];
        r, rest := Literal(payload), s[2 + s[1]..];
        assert s == RecordBytes(r) + rest;
      }
      DecodeRecord(r, rest);
      var tail := DecodeParses(rest);
      rs := [r] + tail;
      assert rs[1..] == tail;
    }
  }

  /** Decoding a concatenation of complete streams concatenates their decodings. */
  lemma DecodeAppend(a: seq<byte>, b: seq<byte>)
    requires Decode(a).Ok?
    ensures Decode(a + b) == Prepend(Decode(a).value, Decode(b))
  {
    var rs := DecodeParses(a);
    DecodeAppendRecords(rs, b);
  }

  lemma {:induction false} DecodeAppendRecords(rs: seq<Record>, b: seq<byte>)
    ensures Decode(Serialize(rs) + b) == Prepend(ExpandAll(rs), Decode(b))
  {
    if rs == [] {
      assert Serialize(rs) + b == b;
      PrependEmpty(Decode(b));
    } else {
      DecodeAppendRecords(rs[1..], b);
      assert Serialize(rs) + b == RecordBytes(rs[0]) + (Serialize(rs[1..]) + b);
      DecodeRecord(rs[0], Serialize(rs[1..]) + b);
      PrependPrepend(Expand(rs[0]), ExpandAll(rs[1..]), Decode(b));
    }
  }

  /** `decompress(compress(x, l)) == Ok(x)` for every input and level. */
  lemma RoundTrip(data: seq<byte>, clevel: byte)
    ensures Decode(Compressed(data, clevel)) == Ok(data)
  {
    if data != [] {
      PlanCovers(data, 0, Threshold(clevel));
      DecodeSerialize(Plan(data, 0, Threshold(clevel)));
    }
  }
}
