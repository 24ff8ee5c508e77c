/**
 * The run-length encoder of shoko/src/compress.rs.
 *
 * The encoder's output is a sequence of records: a run record `0x00 len val`
 * stands for `len` copies of `val`, a literal record `0x01 len bytes...` for
 * its `len` payload bytes. `Plan` is the functional description of which
 * records the encoder chooses; `Compress` is the encoder's loop, proved to
 * emit exactly the serialisation of that plan.
 */
module Codec {
  import opened Common

  const RunTag: byte := 0x00
  const LiteralTag: byte := 0x01
  /** A run is cut at 255 bytes, a literal at 254. */
  const MaxRun: nat := 255
  const MaxLiteral: nat := 254

  /** The shortest run the encoder emits as a run record, by compression level. */
  function Threshold(clevel: byte): (t: nat)
    ensures 2 <= t <= 4
    ensures 1 <= clevel <= 3 ==> t == 4
    ensures 4 <= clevel <= 6 ==> t == 3
    ensures 7 <= clevel <= 9 ==> t == 2
    ensures clevel == 0 || 10 <= clevel ==> t == 3
  {
    if 1 <= clevel <= 3 then 4
    else if 4 <= clevel <= 6 then 3
    else if 7 <= clevel <= 9 then 2
    else 3
  }

  /** The run scan: extends the run of copies of `data[i]` at `i` from length `n`. */
  function RunScan(data: seq<byte>, i: nat, n: nat): (m: nat)
    requires 1 <= n && i + n <= |data| && n <= MaxRun
    ensures n <= m && i + m <= |data| && m <= MaxRun
    decreases MaxRun - n
  {
    if i + n < |data| && data[i + n] == data[i] && n < MaxRun then RunScan(data, i, n + 1) else n
  }

  /** Length of the run of copies of `data[i]` at `i`, capped at 255. */
  function RunLength(data: seq<byte>, i: nat): (n: nat)
    requires i < |data|
    ensures 1 <= n && i + n <= |data| && n <= MaxRun
  {
    RunScan(data, i, 1)
  }

  /** Started on equal bytes, the scan stops on a maximal run of equal bytes. */
  lemma {:induction false} RunScanMaximal(data: seq<byte>, i: nat, n: nat)
    requires 1 <= n && i + n <= |data| && n <= MaxRun
    requires forall k :: i <= k < i + n ==> data[k] == data[i]
    ensures var m := RunScan(data, i, n);
      (forall k :: i <= k < i + m ==> data[k] == data[i]) &&
      (m == MaxRun || i + m == |data| || data[i + m] != data[i])
    decreases MaxRun - n
  {
    if i + n < |data| && data[i + n] == data[i] && n < MaxRun {
      RunScanMaximal(data, i, n + 1);
    }
  }

  /**
   * The run at `i` is all copies of `data[i]`, and it is as long as it can
   * be: it ends at 255 bytes, at the end of the data, or before a different byte.
   */
  lemma RunLengthMaximal(data: seq<byte>, i: nat)
    requires i < |data|
    ensures var n := RunLength(data, i);
      (forall k :: i <= k < i + n ==> data[k] == data[i]) &&
      (n == MaxRun || i + n == |data| || data[i + n] != data[i])
  {
    RunScanMaximal(data, i, 1);
  }

  /** No two equal adjacent bytes start at position `k` of `data`. */
  predicate NoPairAt(data: seq<byte>, k: nat)
  {
    k + 1 >= |data| || data[k] != data[k + 1]
  }

  /**
   * The literal scan: extends a literal that starts at `i` to end `e` until
   * it meets two equal adjacent bytes (whatever the threshold), the end of
   * the data, or 254 bytes.
   */
  function LiteralScan(data: seq<byte>, i: nat, e: nat): (m: nat)
    requires i <= e <= |data| && e - i <= MaxLiteral
    ensures e <= m <= |data| && m - i <= MaxLiteral
    decreases |data| - e
  {
    if e < |data| && NoPairAt(data, e) && e - i < MaxLiteral then
      LiteralScan(data, i, e + 1)
    else
      e
  }

  /**
   * The literal found from `i` has no two equal adjacent bytes starting
   * inside it, and it stops at the end of the data, at 254 bytes, or at
   * the start of a pair of equal bytes.
   */
  lemma {:induction false} LiteralScanMaximal(data: seq<byte>, i: nat, e: nat)
    requires i <= e <= |data| && e - i <= MaxLiteral
    ensures var m := LiteralScan(data, i, e);
      (forall k :: e <= k < m ==> NoPairAt(data, k)) &&
      (m == |data| || m - i == MaxLiteral || !NoPairAt(data, m))
    decreases |data| - e
  {
    if e < |data| && NoPairAt(data, e) && e - i < MaxLiteral {
      LiteralScanMaximal(data, i, e + 1);
    }
  }

  /** A literal payload fits its one-byte length field. */
  type Payload = b: seq<byte> | |b| <= 255

  datatype Record = Run(count: byte, value: byte) | Literal(bytes: Payload)

  /** `n` copies of `v`. */
  function Repeat(v: byte, n: nat): (r: seq<byte>)
    ensures |r| == n && forall j :: 0 <= j < n ==> r[j] == v
  {
    if n == 0 then [] else [v] + Repeat(v, n - 1)
  }

  /** The bytes a record stands for. */
  function Expand(r: Record): seq<byte>
  {
    match r
    case Run(n, v) => Repeat(v, n)
    case Literal(b) => b
  }

  function ExpandAll(rs: seq<Record>): seq<byte>
  {
    if rs == [] then [] else Expand(rs[0]) + ExpandAll(rs[1..])
  }

  /** The records the encoder emits at a given threshold. */
  predicate WellFormed(r: Record, threshold: nat)
  {
    match r
    case Run(n, _) => threshold <= n <= MaxRun
    case Literal(b) => 1 <= |b| <= MaxLiteral
  }

  function RecordBytes(r: Record): seq<byte>
  {
    match r
    case Run(n, v) => [RunTag, n, v]
    case Literal(b) => [LiteralTag, |b|] + b
  }

  function Serialize(rs: seq<Record>): seq<byte>
  {
    if rs == [] then [] else RecordBytes(rs[0]) + Serialize(rs[1..])
  }

  /**
   * The record the encoder chooses at `i < |data|` and where the next one
   * starts: a run record when the run at `i` is at least `threshold` long;
   * otherwise the literal found by the literal scan, or a one-byte literal
   * when that scan is empty.
   */
  function Next(data: seq<byte>, i: nat, threshold: nat): (step: (Record, nat))
    requires i < |data|
    ensures i < step.1 <= |data|
  {
    var runLen := RunLength(data, i);
    if runLen >= threshold then
      (Run(runLen, data[i]), i + runLen)
    else
      var literalEnd := LiteralScan(data, i, i);
      if literalEnd > i then
        (Literal(data[i..literalEnd]), literalEnd)
      else
        (Literal([data[i]]), i + 1)
  }

  /** The records the encoder chooses from position `i` on. */
  function Plan(data: seq<byte>, i: nat, threshold: nat): (rs: seq<Record>)
    requires i <= |data|
    decreases |data| - i
  {
    if i == |data| then [] else [Next(data, i, threshold).0] + Plan(data, Next(data, i, threshold).1, threshold)
  }

  lemma ExpandCons(r: Record, rs: seq<Record>)
    ensures ExpandAll([r] + rs) == Expand(r) + ExpandAll(rs)
  {
    assert ([r] + rs)[1..] == rs;
  }

  lemma SerializeCons(r: Record, rs: seq<Record>)
    ensures Serialize([r] + rs) == RecordBytes(r) + Serialize(rs)
  {
    assert ([r] + rs)[1..] == rs;
  }

  /**
   * Emitting the record the encoder chooses at `i` leaves the plan from the
   * next record's start to emit.
   */
  lemma EmitNext(data: seq<byte>, i: nat, threshold: nat, before: seq<byte>, total: seq<byte>)
    requires i < |data|
    requires before + Serialize(Plan(data, i, threshold)) == total
    ensures before + RecordBytes(Next(data, i, threshold).0) + Serialize(Plan(data, Next(data, i, threshold).1, threshold)) == total
  {
    var (r, j) := Next(data, i, threshold);
    SerializeCons(r, Plan(data, j, threshold));
  }

  lemma RunExpands(data: seq<byte>, i: nat, n: byte)
    requires i < |data| && i + n <= |data|
    requires forall k :: i <= k < i + n ==> data[k] == data[i]
    ensures Expand(Run(n, data[i])) == data[i..i + n]
  {
  }

  /**
   * The record the encoder chooses at `i` is well formed and stands for
   * exactly the bytes from `i` up to where the next record starts.
   */
  lemma NextCovers(data: seq<byte>, i: nat, threshold: nat)
    requires i < |data|
    ensures WellFormed(Next(data, i, threshold).0, threshold)
    ensures Expand(Next(data, i, threshold).0) == data[i..Next(data, i, threshold).1]
  {
    var runLen := RunLength(data, i);
    if runLen >= threshold {
      RunLengthMaximal(data, i);
      RunExpands(data, i, runLen);
    }
  }

  /**
   * Every record of the plan is well formed (runs of `threshold` to 255
   * copies, literals of 1 to 254 bytes), and in order the records stand
   * for exactly the input from `i` on.
   */
  lemma {:induction false} PlanCovers(data: seq<byte>, i: nat, threshold: nat)
    requires i <= |data|
    ensures forall r <- Plan(data, i, threshold) :: WellFormed(r, threshold)
    ensures ExpandAll(Plan(data, i, threshold)) == data[i..]
    decreases |data| - i
  {
    if i < |data| {
      var (r, j) := Next(data, i, threshold);
      assert data[i..] == data[i..j] + data[j..];
      NextCovers(data, i, threshold);
      PlanCovers(data, j, threshold);
      ExpandCons(r, Plan(data, j, threshold));
    }
  }

  /** What `compress(data, clevel)` returns. */
  function Compressed(data: seq<byte>, clevel: byte): seq<byte>
  {
    if data == [] then [] else Serialize(Plan(data, 0, Threshold(clevel)))
  }

  /** Serialising well-formed records costs at most three bytes per byte they stand for. */
  lemma {:induction false} SerializeSize(rs: seq<Record>, threshold: nat)
    requires threshold >= 1
    requires forall r <- rs :: WellFormed(r, threshold)
    ensures |Serialize(rs)| <= 3 * |ExpandAll(rs)|
  {
    if rs != [] {
      SerializeSize(rs[1..], threshold);
      assert rs[0] in rs;
      match rs[0]
      case Run(n, v) => assert |Expand(rs[0])| == n;
      case Literal(b) =>
    }
  }

  /**
   * Empty input gives empty output, and any other input gives a stream
   * that starts with a record tag.
   */
  lemma CompressedEmpty(data: seq<byte>, clevel: byte)
    ensures Compressed(data, clevel) == [] <==> data == []
    ensures data != [] ==> Compressed(data, clevel)[0] in {RunTag, LiteralTag}
  {
    if data != [] {
      var t := Threshold(clevel);
      var rs := Plan(data, 0, t);
      assert rs == [Next(data, 0, t).0] + Plan(data, Next(data, 0, t).1, t);
      SerializeCons(rs[0], rs[1..]);
      assert rs[1..] == Plan(data, Next(data, 0, t).1, t);
    }
  }

  /** The encoder's output is at most three times as long as its input. */
  lemma CompressedSize(data: seq<byte>, clevel: byte)
    ensures |Compressed(data, clevel)| <= 3 * |data|
  {
    if data != [] {
      PlanCovers(data, 0, Threshold(clevel));
      SerializeSize(Plan(data, 0, Threshold(clevel)), Threshold(clevel));
    }
  }

  /** The encoder's run scan: counts the copies of `data[i]` from `i` on, up to 255. */
  method ScanRun(data: seq<byte>, i: nat) returns (runLen: nat)
    requires i < |data|
    ensures runLen == RunLength(data, i)
  {
    runLen := 1;
    while i + runLen < |data| && data[i + runLen] == data[i] && runLen < 255
      invariant 1 <= runLen <= 255 && i + runLen <= |data|
      invariant RunScan(data, i, runLen) == RunLength(data, i)
      decreases 255 - runLen
    {
      runLen := runLen + 1;
    }
  }

  /**
   * The encoder's literal scan: moves the literal's end from `i` while the
   * byte there differs from the next one (or is the last byte), up to 254 bytes.
   */
  method ScanLiteral(data: seq<byte>, i: nat) returns (literalEnd: nat)
    requires i < |data|
    ensures literalEnd == LiteralScan(data, i, i)
  {
    literalEnd := i;
    while literalEnd < |data| && (literalEnd + 1 >= |data| || data[literalEnd] != data[literalEnd + 1]) && literalEnd - i < 254
      invariant i <= literalEnd <= |data| && literalEnd - i <= 254
      invariant LiteralScan(data, i, literalEnd) == LiteralScan(data, i, i)
      decreases |data| - literalEnd
    {
      literalEnd := literalEnd + 1;
    }
  }

  /**
   * One pass of the encoder's outer loop at `i`: the bytes it appends for
   * the record chosen there, and where the next pass starts.
   */
  method EmitRecord(data: seq<byte>, i: nat, threshold: nat) returns (bytes: seq<byte>, next: nat)
    requires i < |data|
    ensures bytes == RecordBytes(Next(data, i, threshold).0)
    ensures next == Next(data, i, threshold).1
  {
    var runLen := ScanRun(data, i);
    if runLen >= threshold {
      bytes := [RunTag, runLen, data[i]];
      next := i + runLen;
    } else {
      var literalEnd := ScanLiteral(data, i);
      var litLen := literalEnd - i;
      if litLen > 0 {
        bytes := [LiteralTag, litLen] + data[i..literalEnd];
        next := literalEnd;
      } else {
        bytes := [LiteralTag, 1, data[i]];
        next := i + 1;
      }
    }
  }

  /** `compress`: the encoder loop, emitting the serialisation of `Plan`. */
  method Compress(data: seq<byte>, clevel: byte) returns (compressed: seq<byte>)
    ensures compressed == Compressed(data, clevel)
  {
    if |data| == 0 {
      return [];
    }
    compressed := [];
    var i := 0;
    var threshold := Threshold(clevel);
    ghost var total := Serialize(Plan(data, 0, threshold));
    while i < |data|
      invariant i <= |data|
      invariant compressed + Serialize(Plan(data, i, threshold)) == total
      decreases |data| - i
    {
      var bytes, next := EmitRecord(data, i, threshold);
      EmitNext(data, i, threshold, compressed, total);
      compressed := compressed + bytes;
      i := next;
    }
  }
}
