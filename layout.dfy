/**
 * The on-disk layout of a shoko archive: `"SHOKO001"`, the blob region, the
 * index (one record per entry) and a 14-byte footer. The encoders here are
 * what the writers' `write_index_entry` and `finalize` put at the cursor;
 * the parsers are what the reader's `read_index_entry` and
 * `get_footer_info` get back, failing where a `read_exact` would.
 */
module Layout {
  import opened Common
  import opened FileIo

  /** `ShokoEntry` (shoko/src/archive.rs): a blob's path, stored size, offset and compression level. */
  datatype Entry = Entry(path: seq<byte>, size: nat, offset: nat, clevel: byte)

  /** The file header `"SHOKO001"`. */
  const Magic: seq<byte> := [0x53, 0x48, 0x4F, 0x4B, 0x4F, 0x30, 0x30, 0x31]
  /** The footer's last two bytes, `"SK"`. */
  const Trailer: seq<byte> := [0x53, 0x4B]
  const FooterLength: nat := 14

  /** Where the blob of `e` ends. */
  function End(e: Entry): nat
  {
    e.offset + e.size
  }

  /** The values of an entry fit the widths of its index record. */
  predicate Fits(e: Entry)
  {
    |e.path| < U32Bound && e.size < U64Bound && e.offset < U64Bound
  }

  /** `write_index_entry`: path length (as u32), path, size, offset, level. */
  function EntryBytes(e: Entry): (b: seq<byte>)
    ensures |b| == 21 + |e.path|
  {
    LE32(|e.path|) + e.path + LE64(e.size) + LE64(e.offset) + [e.clevel]
  }

  function IndexBytes(es: seq<Entry>): seq<byte>
  {
    if es == [] then [] else EntryBytes(es[0]) + IndexBytes(es[1..])
  }

  /** `finalize`: index start (u64), entry count (u32), `"SK"`. */
  function FooterBytes(indexStart: nat, count: nat): (b: seq<byte>)
    ensures |b| == FooterLength
  {
    LE64(indexStart) + LE32(count) + Trailer
  }

  /**
   * `read_index_entry` at `p`: the entry and the position after it. Each
   * field is one `read_exact`, so a record cut short fails with `UnexpectedEof`.
   */
  function ParseEntryAt(f: seq<byte>, p: nat): Result<(Entry, nat), ErrorKind>
  {
    match ReadAt(f, p, 4)
    case Err(e) => Err(e)
    case Ok(lenBytes) => ParsePathAt(f, p + 4, FromLE(lenBytes))
  }

  /** The rest of an index record once its path length is known. */
  function ParsePathAt(f: seq<byte>, p: nat, pathLen: nat): Result<(Entry, nat), ErrorKind>
  {
    match ReadAt(f, p, pathLen)
    case Err(e) => Err(e)
    case Ok(path) => ParseNumbersAt(f, p + pathLen, path)
  }

  /** The size, offset and level that end an index record. */
  function ParseNumbersAt(f: seq<byte>, p: nat, path: seq<byte>): Result<(Entry, nat), ErrorKind>
  {
    match ReadAt(f, p, 8)
    case Err(e) => Err(e)
    case Ok(sizeBytes) =>
      match ReadAt(f, p + 8, 8)
      case Err(e) => Err(e)
      case Ok(offsetBytes) =>
        match ReadAt(f, p + 16, 1)
        case Err(e) => Err(e)
        case Ok(clevelBytes) =>
          Ok((Entry(path, FromLE(sizeBytes), FromLE(offsetBytes), clevelBytes[0]), p + 17))
  }

  /**
   * A record read at `p` takes exactly 21 bytes plus its path, all inside
   * the file, and its first four bytes are the path length; a record that
   * does not read fails with `UnexpectedEof`.
   */
  lemma ParseEntryExtent(f: seq<byte>, p: nat)
    ensures ParseEntryAt(f, p).Ok? ==>
      var (e, q) := ParseEntryAt(f, p).value;
      q == p + 21 + |e.path| && q <= |f| && |e.path| == FromLE(f[p..p + 4])
    ensures ParseEntryAt(f, p).Err? ==> ParseEntryAt(f, p).error == UnexpectedEof
  {
  }

  /** `count` index records read one after the other from `p`. */
  function ParseIndexAt(f: seq<byte>, p: nat, count: nat): Result<seq<Entry>, ErrorKind>
    decreases count
  {
    if count == 0 then Ok([])
    else
      var (e, q) :- ParseEntryAt(f, p);
      var rest :- ParseIndexAt(f, q, count - 1);
      Ok([e] + rest)
  }

  /**
   * `get_footer_info`: a file under 14 bytes is `InvalidInput`, a footer
   * not ending in `"SK"` is `InvalidData`; otherwise the index start and
   * the entry count.
   */
  function FooterInfo(f: seq<byte>): (r: Result<(nat, nat), ErrorKind>)
    ensures r.Ok? ==> r.value.0 < U64Bound && r.value.1 < U32Bound
  {
    Pow256Widths();
    if |f| < FooterLength then Err(InvalidInput)
    else if f[|f| - 2..] != Trailer then Err(InvalidData)
    else Ok((FromLE(f[|f| - 14..|f| - 6]), FromLE(f[|f| - 6..|f| - 2])))
  }

  /**
   * The entries `open` finds in a file: none when the footer is missing or
   * invalid, otherwise the index records it points to, and an error when
   * one of them is cut short.
   */
  function Opened(f: seq<byte>): Result<seq<Entry>, ErrorKind>
  {
    match FooterInfo(f)
    case Err(_) => Ok([])
    case Ok((indexStart, count)) => ParseIndexAt(f, indexStart, count)
  }

  /** The largest blob end of a non-empty entry list. */
  function MaxEnd(es: seq<Entry>): nat
    requires es != []
  {
    if |es| == 1 then End(es[0]) else Max(End(es[0]), MaxEnd(es[1..]))
  }

  /** Where the next blob and the index go: the largest blob end, or 8 when there are no entries. */
  function NextOffset(es: seq<Entry>): nat
  {
    if es == [] then |Magic| else MaxEnd(es)
  }

  /** No blob ends past the next offset, and a non-empty list has one that ends there. */
  lemma {:induction false} NextOffsetBounds(es: seq<Entry>)
    ensures forall e <- es :: End(e) <= NextOffset(es)
    ensures es != [] ==> exists e <- es :: End(e) == NextOffset(es)
  {
    if |es| == 1 {
      assert es[0] in es;
    } else if |es| > 1 {
      NextOffsetBounds(es[1..]);
      assert es == [es[0]] + es[1..];
      if End(es[0]) < MaxEnd(es[1..]) {
        var e :| e in es[1..] && End(e) == NextOffset(es[1..]);
        assert e in es;
      } else {
        assert es[0] in es;
      }
    }
  }

  /** A file holding `prefix`, then the index of `es`, then the footer that points at it. */
  function Finished(prefix: seq<byte>, es: seq<Entry>): seq<byte>
  {
    prefix + IndexBytes(es) + FooterBytes(|prefix|, |es|)
  }

  /** Five reads in a row, of the widths `read_index_entry` reads, parse as one entry. */
  lemma ParseFields(f: seq<byte>, p: nat, lenBytes: seq<byte>, path: seq<byte>,
                    sizeBytes: seq<byte>, offsetBytes: seq<byte>, clevelBytes: seq<byte>)
    requires FromLE(lenBytes) == |path|
    requires ReadAt(f, p, 4) == Ok(lenBytes) && ReadAt(f, p + 4, |path|) == Ok(path)
    requires ReadAt(f, p + 4 + |path|, 8) == Ok(sizeBytes)
    requires ReadAt(f, p + 4 + |path| + 8, 8) == Ok(offsetBytes)
    requires ReadAt(f, p + 4 + |path| + 16, 1) == Ok(clevelBytes)
    ensures ParseEntryAt(f, p) ==
      Ok((Entry(path, FromLE(sizeBytes), FromLE(offsetBytes), clevelBytes[0]), p + 4 + |path| + 17))
  {
  }

  /** `read_exact` of `w` bytes where the file holds `a` gets `a`. */
  lemma ReadSlice(f: seq<byte>, p: nat, w: nat, a: seq<byte>)
    requires p + w <= |f| && f[p..p + w] == a
    ensures ReadAt(f, p, w) == Ok(a)
  {
  }

  /** Five fields laid out one after another at `p` parse as one entry. */
  lemma ParseRecord(f: seq<byte>, p: nat, a: seq<byte>, b: seq<byte>, c: seq<byte>, d: seq<byte>, e: seq<byte>)
    requires |a| == 4 && |c| == 8 && |d| == 8 && |e| == 1 && FromLE(a) == |b|
    requires p + 4 + |b| + 17 <= |f|
    requires var n := |b|;
      f[p..p + 4] == a && f[p + 4..p + 4 + n] == b && f[p + 4 + n..p + 4 + n + 8] == c &&
      f[p + 4 + n + 8..p + 4 + n + 8 + 8] == d && f[p + 4 + n + 16..p + 4 + n + 16 + 1] == e
    ensures ParseEntryAt(f, p) == Ok((Entry(b, FromLE(c), FromLE(d), e[0]), p + 4 + |b| + 17))
  {
    var n := |b|;
    ReadSlice(f, p, 4, a);
    ReadSlice(f, p + 4, n, b);
    ReadSlice(f, p + 4 + n, 8, c);
    ReadSlice(f, p + 4 + n + 8, 8, d);
    ReadSlice(f, p + 4 + n + 16, 1, e);
    ParseFields(f, p, a, b, c, d, e);
  }

  /** A part of what a file holds at `p` is held at the corresponding position. */
  lemma SubSlice(f: seq<byte>, p: nat, r: seq<byte>, i: nat, j: nat)
    requires p + |r| <= |f| && f[p..p + |r|] == r && i <= j <= |r|
    ensures f[p + i..p + j] == r[i..j]
  {
    var g := f[p..p + |r|];
    assert |g[i..j]| == |f[p + i..p + j]|;
    forall k | 0 <= k < j - i
      ensures g[i..j][k] == f[p + i..p + j][k]
    {
      assert g[i..j][k] == g[i + k] == f[p + i + k];
    }
  }

  /** The fields of a record held at `p` are where `read_index_entry` reads them. */
  lemma RecordSlices(f: seq<byte>, p: nat, a: seq<byte>, b: seq<byte>, c: seq<byte>, d: seq<byte>, e: seq<byte>)
    requires |a| == 4 && |c| == 8 && |d| == 8 && |e| == 1
    requires p + |a + b + c + d + e| <= |f| && f[p..p + |a + b + c + d + e|] == a + b + c + d + e
    ensures p + 4 + |b| + 17 <= |f|
    ensures var n := |b|;
      f[p..p + 4] == a && f[p + 4..p + 4 + n] == b && f[p + 4 + n..p + 4 + n + 8] == c &&
      f[p + 4 + n + 8..p + 4 + n + 8 + 8] == d && f[p + 4 + n + 16..p + 4 + n + 16 + 1] == e
  {
    var r, n := a + b + c + d + e, |b|;
    SubSlice(f, p, r, 0, 4);
    SubSlice(f, p, r, 4, 4 + n);
    SubSlice(f, p, r, 4 + n, 4 + n + 8);
    SubSlice(f, p, r, 4 + n + 8, 4 + n + 8 + 8);
    SubSlice(f, p, r, 4 + n + 16, 4 + n + 16 + 1);
    assert r[0..4] == a && r[4..4 + n] == b && r[4 + n..4 + n + 8] == c;
    assert r[4 + n + 8..4 + n + 8 + 8] == d && r[4 + n + 16..4 + n + 16 + 1] == e;
  }

  /** Five fields held one after another at `p` parse as one entry. */
  lemma ParseHeldRecord(f: seq<byte>, p: nat, a: seq<byte>, b: seq<byte>, c: seq<byte>, d: seq<byte>, e: seq<byte>)
    requires |a| == 4 && |c| == 8 && |d| == 8 && |e| == 1 && FromLE(a) == |b|
    requires p + |a + b + c + d + e| <= |f| && f[p..p + |a + b + c + d + e|] == a + b + c + d + e
    ensures ParseEntryAt(f, p) == Ok((Entry(b, FromLE(c), FromLE(d), e[0]), p + 4 + |b| + 17))
  {
    RecordSlices(f, p, a, b, c, d, e);
    ParseRecord(f, p, a, b, c, d, e);
  }

  /** The fields of the index record of `e` decode to the values of `e`. */
  lemma EntryFields(e: Entry)
    requires Fits(e)
    ensures EntryBytes(e) == LE32(|e.path|) + e.path + LE64(e.size) + LE64(e.offset) + [e.clevel]
    ensures |LE32(|e.path|)| == 4 && FromLE(LE32(|e.path|)) == |e.path|
    ensures |LE64(e.size)| == 8 && |LE64(e.offset)| == 8
    ensures Entry(e.path, FromLE(LE64(e.size)), FromLE(LE64(e.offset)), [e.clevel][0]) == e
  {
    LE32Inverse(|e.path|);
    LE64Inverse(e.size);
    LE64Inverse(e.offset);
  }

  /** A file holding the index record of `e` at `p` parses as `e` there. */
  lemma ParseEntryIn(f: seq<byte>, p: nat, e: Entry)
    requires Fits(e)
    requires p + |EntryBytes(e)| <= |f| && f[p..p + |EntryBytes(e)|] == EntryBytes(e)
    ensures ParseEntryAt(f, p) == Ok((e, p + |EntryBytes(e)|))
  {
    EntryFields(e);
    ParseHeldRecord(f, p, LE32(|e.path|), e.path, LE64(e.size), LE64(e.offset), [e.clevel]);
  }

  /** An index record reads back as the entry it was written from, whatever surrounds it. */
  lemma ParseEntryBytes(x: seq<byte>, e: Entry, y: seq<byte>)
    requires Fits(e)
    ensures ParseEntryAt(x + EntryBytes(e) + y, |x|) == Ok((e, |x| + |EntryBytes(e)|))
  {
    var f, r := x + EntryBytes(e) + y, EntryBytes(e);
    assert f[|x|..|x| + |r|] == r;
    ParseEntryIn(f, |x|, e);
  }

  lemma IndexBytesCons(e: Entry, es: seq<Entry>)
    ensures IndexBytes([e] + es) == EntryBytes(e) + IndexBytes(es)
  {
    assert ([e] + es)[1..] == es;
  }

  /** The index of `es` followed by one more entry's record is the index of the longer list. */
  lemma {:induction false} IndexBytesSnoc(es: seq<Entry>, e: Entry)
    ensures IndexBytes(es + [e]) == IndexBytes(es) + EntryBytes(e)
    decreases |es|
  {
    if es == [] {
      assert [] + [e] == [e];
      assert [e][1..] == [];
    } else {
      assert (es + [e])[1..] == es[1..] + [e];
      IndexBytesSnoc(es[1..], e);
    }
  }

  lemma ParseIndexOk(f: seq<byte>, p: nat, count: nat, e: Entry, q: nat, rest: seq<Entry>)
    requires count > 0 && ParseEntryAt(f, p) == Ok((e, q)) && ParseIndexAt(f, q, count - 1) == Ok(rest)
    ensures ParseIndexAt(f, p, count) == Ok([e] + rest)
  {
  }

  /** The index of `es` reads back as `es`, whatever precedes and follows it. */
  lemma {:induction false} ParseIndexBytes(x: seq<byte>, es: seq<Entry>, y: seq<byte>)
    requires forall e <- es :: Fits(e)
    ensures ParseIndexAt(x + IndexBytes(es) + y, |x|, |es|) == Ok(es)
    decreases |es|
  {
    if es != [] {
      var e, tail := es[0], es[1..];
      var a, b := EntryBytes(e), IndexBytes(tail);
      assert es == [e] + tail;
      IndexBytesCons(e, tail);
      assert x + (a + b) + y == x + a + (b + y) == (x + a) + b + y;
      ParseEntryBytes(x, e, b + y);
      ParseIndexBytes(x + a, tail, y);
      ParseIndexOk(x + IndexBytes(es) + y, |x|, |es|, e, |x| + |a|, tail);
    }
  }

  /** A footer at the end of a file reads back as the values it was written from. */
  lemma FooterInfoBytes(x: seq<byte>, indexStart: nat, count: nat)
    requires indexStart < U64Bound && count < U32Bound
    ensures FooterInfo(x + FooterBytes(indexStart, count)) == Ok((indexStart, count))
  {
    var f := x + FooterBytes(indexStart, count);
    var n := |f|;
    LE64Inverse(indexStart);
    LE32Inverse(count);
    assert f[n - 14..n - 6] == LE64(indexStart);
    assert f[n - 6..n - 2] == LE32(count);
    assert f[n - 2..] == Trailer;
  }

  /** `open` of a finished file finds exactly the entries whose index it ends with. */
  lemma OpenedFinished(prefix: seq<byte>, es: seq<Entry>)
    requires |prefix| < U64Bound && |es| < U32Bound
    requires forall e <- es :: Fits(e)
    ensures Opened(Finished(prefix, es)) == Ok(es)
  {
    var f := Finished(prefix, es);
    FooterInfoBytes(prefix + IndexBytes(es), |prefix|, |es|);
    ParseIndexBytes(prefix, es, FooterBytes(|prefix|, |es|));
  }

  /** A file too short for a footer, or without the trailer, opens with no entries. */
  lemma OpenedWithoutFooter(f: seq<byte>)
    requires |f| < FooterLength || f[|f| - 2..] != Trailer
    ensures Opened(f) == Ok([])
  {
  }

  /** A valid footer whose index lies past the end of the file is an error, not an empty archive. */
  lemma OpenedCutIndex(f: seq<byte>)
    requires FooterInfo(f).Ok? && FooterInfo(f).value.1 > 0 && FooterInfo(f).value.0 >= |f|
    ensures Opened(f) == Err(UnexpectedEof)
  {
  }
}
