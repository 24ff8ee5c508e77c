/**
 * An open file as the engine uses it through `std::fs::File`: its bytes and
 * a cursor. A write at the cursor overwrites, extends the file when it runs
 * past the end, and fills any gap between the old end and the cursor with
 * zero bytes; `set_len` truncates or zero-extends and leaves the cursor.
 */
module FileIo {
  import opened Common

  /** The file as seen from a cursor at `p`: zero-filled up to `p` when `p` is past the end. */
  function Pad(f: seq<byte>, p: nat): (g: seq<byte>)
    ensures |g| == Max(|f|, p)
  {
    if p <= |f| then f else f + Zeros(p - |f|)
  }

  /** The file after writing `d` at position `p`. */
  function Splice(f: seq<byte>, p: nat, d: seq<byte>): (g: seq<byte>)
    ensures |g| == Max(|f|, p + |d|)
  {
    seq(Max(|f|, p + |d|), k requires 0 <= k < Max(|f|, p + |d|) =>
      if p <= k < p + |d| then d[k - p] else if k < |f| then f[k] else 0)
  }

  /** Padding keeps the file's own bytes in front. */
  lemma PadKeeps(f: seq<byte>, p: nat)
    ensures |f| <= |Pad(f, p)| && Pad(f, p)[..|f|] == f
  {
    if p > |f| {
      assert (f + Zeros(p - |f|))[..|f|] == f;
    }
  }

  /** Placing data at `p` keeps every byte of the old file in front of `p`. */
  lemma PlaceKeeps(f: seq<byte>, p: nat, d: seq<byte>, i: nat, j: nat)
    requires i <= j <= p && j <= |f|
    ensures j <= |Place(f, p, d)| && Place(f, p, d)[i..j] == f[i..j]
  {
    var pad := Pad(f, p);
    PadKeeps(f, p);
    assert Place(f, p, d)[i..j] == pad[..p][i..j] == pad[i..j];
    assert pad[i..j] == pad[..|f|][i..j];
  }

  /** The file after `set_len(n)`. */
  function Resize(f: seq<byte>, n: nat): (g: seq<byte>)
    ensures |g| == n
  {
    if n <= |f| then f[..n] else f + Zeros(n - |f|)
  }

  /** The file after writing `d` at `p` and cutting it at the end of `d`. */
  function Place(f: seq<byte>, p: nat, d: seq<byte>): (g: seq<byte>)
  {
    Pad(f, p)[..p] + d
  }

  /**
   * What a write at `p` changes: `d` lands at `[p, p + |d|)`, every other
   * byte of the old file keeps its value, and a gap between the old end and
   * `p` reads as zeros.
   */
  lemma SpliceFrame(f: seq<byte>, p: nat, d: seq<byte>)
    ensures |Splice(f, p, d)| == Max(|f|, p + |d|)
    ensures Splice(f, p, d)[p..p + |d|] == d
    ensures forall k :: 0 <= k < |f| && !(p <= k < p + |d|) ==> Splice(f, p, d)[k] == f[k]
    ensures forall k :: |f| <= k < p ==> Splice(f, p, d)[k] == 0
  {
    var g := Splice(f, p, d);
    var padded := Pad(f, p);
    assert g[p..p + |d|] == d;
    forall k | 0 <= k < |f| && !(p <= k < p + |d|)
      ensures g[k] == f[k]
    {
      if k < p {
        assert g[k] == padded[k];
      } else {
        assert g[k] == padded[k];
      }
    }
  }

  /** Two writes in a row are one write of both buffers. */
  lemma SpliceSplice(f: seq<byte>, p: nat, a: seq<byte>, b: seq<byte>)
    ensures Splice(Splice(f, p, a), p + |a|, b) == Splice(f, p, a + b)
  {
    var g := Splice(f, p, a);
    var lhs := Splice(g, p + |a|, b);
    var rhs := Splice(f, p, a + b);
    SpliceFrame(f, p, a);
    SpliceFrame(g, p + |a|, b);
    SpliceFrame(f, p, a + b);
    assert |lhs| == |rhs|;
    forall k | 0 <= k < |lhs|
      ensures lhs[k] == rhs[k]
    {
      if k < p {
      } else if k < p + |a| {
        assert lhs[k] == g[k] == a[k - p];
        assert rhs[k] == rhs[p..p + |a| + |b|][k - p] == (a + b)[k - p];
      } else if k < p + |a| + |b| {
        assert lhs[k] == lhs[p + |a|..p + |a| + |b|][k - p - |a|];
        assert rhs[k] == rhs[p..p + |a| + |b|][k - p] == (a + b)[k - p];
      } else {
      }
    }
  }

  /** Five writes in a row are one write of the five buffers. */
  lemma SpliceFields(f: seq<byte>, p: nat, a: seq<byte>, b: seq<byte>, c: seq<byte>, d: seq<byte>, e: seq<byte>)
    ensures Splice(Splice(Splice(Splice(Splice(f, p, a), p + |a|, b), p + |a| + |b|, c),
                          p + |a| + |b| + |c|, d), p + |a| + |b| + |c| + |d|, e)
         == Splice(f, p, a + b + c + d + e)
  {
    var g2 := Splice(Splice(f, p, a), p + |a|, b);
    SpliceSplice(f, p, a, b);
    assert g2 == Splice(f, p, a + b);
    var g3 := Splice(g2, p + |a| + |b|, c);
    SpliceSplice(f, p, a + b, c);
    assert g3 == Splice(f, p, a + b + c);
    var g4 := Splice(g3, p + |a| + |b| + |c|, d);
    SpliceSplice(f, p, a + b + c, d);
    assert g4 == Splice(f, p, a + b + c + d);
    SpliceSplice(f, p, a + b + c + d, e);
  }

  /** Writing at `p` and then truncating at the new cursor. */
  lemma ResizeSplice(f: seq<byte>, p: nat, d: seq<byte>)
    ensures Resize(Splice(f, p, d), p + |d|) == Place(f, p, d)
  {
    var g := Splice(f, p, d);
    SpliceFrame(f, p, d);
    assert g[..p] == Pad(f, p)[..p];
    assert g[..p + |d|] == g[..p] + g[p..p + |d|];
  }

  /** What `read_exact` of `n` bytes at `p` yields: an empty read always succeeds. */
  function ReadAt(f: seq<byte>, p: nat, n: nat): (r: Result<seq<byte>, ErrorKind>)
    ensures r.Ok? ==> |r.value| == n
  {
    if n == 0 then Ok([])
    else if p + n > |f| then Err(UnexpectedEof)
    else Ok(f[p..p + n])
  }

  /** Reading back what was just written at `p` yields it. */
  lemma SpliceRead(f: seq<byte>, p: nat, d: seq<byte>)
    ensures ReadAt(Splice(f, p, d), p, |d|) == Ok(d)
  {
    SpliceFrame(f, p, d);
  }

  /** Writing `d` at the start of an empty file gives `d`. */
  lemma SpliceEmpty(d: seq<byte>)
    ensures Splice([], 0, d) == d
  {
    SpliceFrame([], 0, d);
    assert Splice([], 0, d)[0..|d|] == Splice([], 0, d);
  }

  class FileHandle {
    var data: seq<byte>
    var pos: nat

    /** A handle at position 0 on a file holding `contents`. */
    constructor (contents: seq<byte>)
      ensures data == contents && pos == 0
    {
      data := contents;
      pos := 0;
    }

    /** `metadata().len()`. */
    function Len(): nat
      reads this
    {
      |data|
    }

    /** `write_all(buf)` at the cursor. */
    method WriteAll(buf: seq<byte>)
      modifies this
      ensures data == Splice(old(data), old(pos), buf)
      ensures pos == old(pos) + |buf|
    {
      data := Splice(data, pos, buf);
      pos := pos + |buf|;
    }

    /** `stream_position()`. */
    method StreamPosition() returns (p: nat)
      ensures p == pos
    {
      p := pos;
    }

    /** `seek(SeekFrom::Start(p))`. */
    method Seek(p: nat)
      modifies this
      ensures pos == p && data == old(data)
    {
      pos := p;
    }

    /** `seek(SeekFrom::End(0))`. */
    method SeekEnd() returns (p: nat)
      modifies this
      ensures p == pos == |data| && data == old(data)
    {
      pos := |data|;
      p := pos;
    }

    /** `seek(SeekFrom::End(-back))`: seeking before the start is `InvalidInput`. */
    method SeekFromEnd(back: nat) returns (r: Result<nat, ErrorKind>)
      modifies this
      ensures data == old(data)
      ensures back <= |data| ==> r == Ok(|data| - back) && pos == |data| - back
      ensures back > |data| ==> r == Err(InvalidInput) && pos == old(pos)
    {
      if back > |data| {
        return Err(InvalidInput);
      }
      pos := |data| - back;
      return Ok(pos);
    }

    /**
     * `read_exact` of `n` bytes: the next `n` bytes, or `UnexpectedEof`
     * after consuming what is left when fewer remain.
     */
    method ReadExact(n: nat) returns (r: Result<seq<byte>, ErrorKind>)
      modifies this
      ensures data == old(data)
      ensures r == ReadAt(data, old(pos), n)
      ensures pos == if r.Ok? then old(pos) + n else Max(old(pos), |data|)
    {
      if n == 0 {
        return Ok([]);
      }
      if pos + n > |data| {
        pos := Max(pos, |data|);
        return Err(UnexpectedEof);
      }
      r := Ok(data[pos..pos + n]);
      pos := pos + n;
    }

    /** `set_len(n)`: the cursor does not move. */
    method SetLen(n: nat)
      modifies this
      ensures data == Resize(old(data), n) && pos == old(pos)
    {
      data := Resize(data, n);
    }
  }
}
