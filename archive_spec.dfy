/**
 * What the operations of `ShokoArchive` (shoko/src/archive.rs and
 * shoko/src/delete.rs) do to the archive's two pieces of state, the file's
 * bytes and the entry list, as functions of the old state; and the laws
 * they obey: a written file extracts as its content, other paths are not
 * disturbed, a rewritten index reopens as the same entries, and `defrag`
 * packs the blobs without changing what any path extracts to.
 */
module ArchiveSpec {
  import opened Common
  import opened Codec
  import opened Cipher
  import opened FileIo
  import opened Layout
  import opened Blob
  import opened Entries

  /**
   * The file after `rewrite_index` with entries `es`: cut at the next
   * offset, then the index and the footer, whose count is `len() as u32`.
   */
  function Rewritten(f: seq<byte>, es: seq<Entry>): (g: seq<byte>)
    ensures |g| == NextOffset(es) + |IndexBytes(es)| + FooterLength
  {
    Place(f, NextOffset(es), IndexBytes(es) + FooterBytes(NextOffset(es), |es| % U32Bound))
  }

  /** `extract_file(path)`: `NotFound` when no entry has the path, else `read_blob` of the first that has it. */
  function Extracted(f: seq<byte>, es: seq<Entry>, path: seq<byte>, env: Option<seq<byte>>): Result<seq<byte>, ErrorKind>
  {
    match Find(es, path)
    case None => Err(NotFound)
    case Some(e) => BlobRead(f, e.offset, e.size, e.clevel, env)
  }

  /**
   * The state after `write_file_direct` has written `blob` at the next
   * offset: the entries with that path dropped, the new entry appended, and
   * the index rewritten behind it.
   */
  function Placed(f: seq<byte>, es: seq<Entry>, path: seq<byte>, blob: seq<byte>, clevel: byte): (seq<byte>, seq<Entry>)
  {
    var written := RemovePath(es, path) + [Entry(path, |blob|, NextOffset(es), clevel)];
    (Rewritten(Splice(f, NextOffset(es), blob), written), written)
  }

  /**
   * `write_file_direct(path, content, clevel)`: `write_blob` of the package
   * writer at the next offset, then the entry and the index. A key error
   * from `write_blob` changes nothing.
   */
  function DirectWrite(f: seq<byte>, es: seq<Entry>, path: seq<byte>, content: seq<byte>, clevel: byte,
                       env: Option<seq<byte>>, nonce: Nonce): Result<(seq<byte>, seq<Entry>), ErrorKind>
  {
    var blob :- Sealed(content, clevel, env, nonce);
    Ok(Placed(f, es, path, blob, clevel))
  }

  /** `delete_file(path)`: `NotFound` when no entry has the path; otherwise the entries without it, and the index rewritten. */
  function Deleted(f: seq<byte>, es: seq<Entry>, path: seq<byte>): Result<(seq<byte>, seq<Entry>), ErrorKind>
  {
    var rest := RemovePath(es, path);
    if |rest| == |es| then Err(NotFound) else Ok((Rewritten(f, rest), rest))
  }

  /** The level `defrag` rewrites a path at: that of the first entry with the path, 0 if none. */
  function LevelOf(es: seq<Entry>, path: seq<byte>): byte
  {
    match Find(es, path)
    case Some(e) => e.clevel
    case None => 0
  }

  /**
   * The scratch archive of `defrag` once rounds `k` onwards have run on the
   * scratch archive `(g, gs)`: each round extracts the next path from the
   * old archive and writes it into the scratch archive with
   * `write_file_direct`, using nonce `nonces(round)`; the first failure
   * ends the rebuild.
   */
  function Rebuilding(f: seq<byte>, es: seq<Entry>, env: Option<seq<byte>>, nonces: nat -> Nonce, k: nat,
                      g: seq<byte>, gs: seq<Entry>): Result<(seq<byte>, seq<Entry>), ErrorKind>
    requires k <= |es|
    decreases |es| - k
  {
    if k == |es| then Ok((g, gs))
    else
      var next :- Round(f, es, env, nonces(k), g, gs, k);
      Rebuilding(f, es, env, nonces, k + 1, next.0, next.1)
  }

  /** The scratch archive of `defrag`: every round, from a file holding only the header. */
  function Rebuilt(f: seq<byte>, es: seq<Entry>, env: Option<seq<byte>>, nonces: nat -> Nonce)
    : Result<(seq<byte>, seq<Entry>), ErrorKind>
  {
    Rebuilding(f, es, env, nonces, 0, Magic, [])
  }

  /** Round `m` of `defrag`: extract path `m` from the old archive and write it into the scratch archive `(g, gs)`. */
  function Round(f: seq<byte>, es: seq<Entry>, env: Option<seq<byte>>, nonce: Nonce, g: seq<byte>, gs: seq<Entry>, m: nat)
    : Result<(seq<byte>, seq<Entry>), ErrorKind>
    requires m < |es|
  {
    var path := es[m].path;
    var data :- Extracted(f, es, path, env);
    DirectWrite(g, gs, path, data, LevelOf(es, path), env, nonce)
  }

  /**
   * `defrag`: the file becomes the scratch archive; the entries are then
   * re-read from its footer and index, or left as they were when it has no
   * valid footer.
   */
  function Defragged(f: seq<byte>, es: seq<Entry>, env: Option<seq<byte>>, nonces: nat -> Nonce)
    : Result<(seq<byte>, seq<Entry>), ErrorKind>
  {
    var built :- Rebuilt(f, es, env, nonces);
    match FooterInfo(built.0)
    case Err(_) => Ok((built.0, es))
    case Ok(info) =>
      var found :- ParseIndexAt(built.0, info.0, info.1);
      Ok((built.0, found))
  }

  /** The blob of `e` lies inside the file and is canonical. */
  predicate Stored(f: seq<byte>, e: Entry, env: Option<seq<byte>>)
  {
    ReadAt(f, e.offset, e.size).Ok? && Canonical(ReadAt(f, e.offset, e.size).value, e.clevel, env)
  }

  /**
   * The invariant of an archive this engine has written: the header is
   * there, paths are unique, blobs are stacked in entry order inside the
   * file, and each blob is one `write_blob` would produce for its content.
   */
  predicate Sound(f: seq<byte>, es: seq<Entry>, env: Option<seq<byte>>)
  {
    Laid(f, es) && forall e <- es :: Stored(f, e, env)
  }

  /** The layout half of `Sound`: header, unique paths, blobs stacked in entry order inside the file. */
  predicate Laid(f: seq<byte>, es: seq<Entry>)
  {
    |Magic| <= |f| && UniquePaths(es) && Stacked(es) && forall e <- es :: End(e) <= |f|
  }

  /** The file ends with the index of `es` at their next offset and the footer pointing at it. */
  predicate Indexed(f: seq<byte>, es: seq<Entry>)
  {
    es == [] || f == Rewritten(f, es)
  }

  /** Bytes before the cut that `rewrite_index` makes are kept, so a blob that ends before it reads as before. */
  lemma RewrittenKeeps(f: seq<byte>, es: seq<Entry>, e: Entry)
    requires End(e) <= NextOffset(es) && End(e) <= |f|
    ensures ReadAt(Rewritten(f, es), e.offset, e.size) == ReadAt(f, e.offset, e.size)
  {
    var q := NextOffset(es);
    PlaceKeeps(f, q, IndexBytes(es) + FooterBytes(q, |es| % U32Bound), e.offset, End(e));
  }

  /** A write at `p` does not change a blob that ends at or before `p`. */
  lemma SpliceKeeps(f: seq<byte>, p: nat, d: seq<byte>, e: Entry)
    requires End(e) <= p && End(e) <= |f|
    ensures ReadAt(Splice(f, p, d), e.offset, e.size) == ReadAt(f, e.offset, e.size)
  {
    var g := Splice(f, p, d);
    SpliceFrame(f, p, d);
    if e.size > 0 {
      assert g[e.offset..End(e)] == f[e.offset..End(e)];
    }
  }

  /** `rewrite_index` twice is `rewrite_index` once: its result already ends with the index and footer it writes. */
  lemma RewrittenIdempotent(f: seq<byte>, es: seq<Entry>)
    ensures Rewritten(Rewritten(f, es), es) == Rewritten(f, es)
  {
    var q := NextOffset(es);
    var g := Rewritten(f, es);
    assert g[..q] == Pad(f, q)[..q];
  }

  /** While the count fits in a u32, `rewrite_index` finishes the file cut at the next offset. */
  lemma RewrittenFinished(f: seq<byte>, es: seq<Entry>)
    requires |es| < U32Bound
    ensures Rewritten(f, es) == Finished(Pad(f, NextOffset(es))[..NextOffset(es)], es)
  {
    var q := NextOffset(es);
    var prefix := Pad(f, q)[..q];
    var index := IndexBytes(es);
    assert |es| % U32Bound == |es|;
    assert Rewritten(f, es) == prefix + (index + FooterBytes(|prefix|, |es|));
    assert prefix + (index + FooterBytes(|prefix|, |es|)) == prefix + index + FooterBytes(|prefix|, |es|);
  }

  /**
   * After `rewrite_index`, the footer holds the next offset and the entry
   * count, and `open` reads back exactly the entries, as long as the file
   * stays below 2^64 bytes and the counts and path lengths fit in a u32.
   */
  lemma RewrittenOpens(f: seq<byte>, es: seq<Entry>)
    requires |Rewritten(f, es)| < U64Bound && |es| < U32Bound
    requires forall e <- es :: |e.path| < U32Bound
    ensures FooterInfo(Rewritten(f, es)) == Ok((NextOffset(es), |es|))
    ensures Opened(Rewritten(f, es)) == Ok(es)
  {
    var q := NextOffset(es);
    var prefix := Pad(f, q)[..q];
    NextOffsetBounds(es);
    RewrittenFinished(f, es);
    FooterInfoBytes(prefix + IndexBytes(es), q, |es|);
    OpenedFinished(prefix, es);
  }

  /** The header is kept when the next offset is past it. */
  lemma NextOffsetPastHeader(es: seq<Entry>)
    requires Stacked(es)
    ensures |Magic| <= NextOffset(es)
  {
    if es != [] {
      NextOffsetBounds(es);
      assert es[0] in es;
    }
  }

  /** The new entry of `write_file_direct` is the one that ends last. */
  lemma WrittenNextOffset(es: seq<Entry>, x: Entry)
    requires x.offset == NextOffset(es)
    ensures NextOffset(RemovePath(es, x.path) + [x]) == End(x)
  {
    var r := RemovePath(es, x.path);
    if r != [] {
      NextOffsetBounds(es);
      NextOffsetAtMost(r, x.offset);
    }
    NextOffsetAppend(r, x);
  }

  /** Where `write_file_direct` puts the blob, the bytes of an old blob are kept. */
  lemma PlacedKeeps(f: seq<byte>, es: seq<Entry>, path: seq<byte>, blob: seq<byte>, clevel: byte, e: Entry)
    requires e in es && End(e) <= |f|
    ensures ReadAt(Placed(f, es, path, blob, clevel).0, e.offset, e.size) == ReadAt(f, e.offset, e.size)
  {
    var x := Entry(path, |blob|, NextOffset(es), clevel);
    var h := Splice(f, NextOffset(es), blob);
    NextOffsetBounds(es);
    WrittenNextOffset(es, x);
    SpliceKeeps(f, NextOffset(es), blob, e);
    RewrittenKeeps(h, RemovePath(es, path) + [x], e);
  }

  /**
   * The blob lands at the old next offset, its entry comes last and ends
   * last, and the file ends with the index and footer.
   */
  lemma PlacedShape(f: seq<byte>, es: seq<Entry>, path: seq<byte>, blob: seq<byte>, clevel: byte)
    ensures var (g, written) := Placed(f, es, path, blob, clevel);
      var x := Entry(path, |blob|, NextOffset(es), clevel);
      written == RemovePath(es, path) + [x] && NextOffset(written) == End(x) && g == Rewritten(g, written) &&
      ReadAt(g, x.offset, x.size) == Ok(blob)
  {
    var x := Entry(path, |blob|, NextOffset(es), clevel);
    var h := Splice(f, NextOffset(es), blob);
    var written := RemovePath(es, path) + [x];
    WrittenNextOffset(es, x);
    SpliceRead(f, NextOffset(es), blob);
    RewrittenKeeps(h, written, x);
    RewrittenIdempotent(h, written);
  }

  /** After the blob is placed, its path extracts as the blob decodes. */
  lemma PlacedFinds(f: seq<byte>, es: seq<Entry>, path: seq<byte>, blob: seq<byte>, clevel: byte, env: Option<seq<byte>>)
    ensures var (g, written) := Placed(f, es, path, blob, clevel);
      Extracted(g, written, path, env) == BlobDecode(blob, clevel, env)
  {
    PlacedShape(f, es, path, blob, clevel);
    FindReplaced(es, Entry(path, |blob|, NextOffset(es), clevel), path);
  }

  /** After the blob is placed, every other path extracts as before, as long as the old blobs lie inside the file. */
  lemma PlacedOthers(f: seq<byte>, es: seq<Entry>, path: seq<byte>, blob: seq<byte>, clevel: byte,
                     env: Option<seq<byte>>, other: seq<byte>)
    requires (forall e <- es :: End(e) <= |f|) && other != path
    ensures var (g, written) := Placed(f, es, path, blob, clevel);
      Extracted(g, written, other, env) == Extracted(f, es, other, env)
  {
    FindReplaced(es, Entry(path, |blob|, NextOffset(es), clevel), other);
    if Find(es, other).Some? {
      PlacedKeeps(f, es, path, blob, clevel, Find(es, other).value);
    }
  }

  /** Placing a blob keeps the layout invariant, and the file then ends with its index. */
  lemma PlacedLaid(f: seq<byte>, es: seq<Entry>, path: seq<byte>, blob: seq<byte>, clevel: byte)
    requires Laid(f, es)
    ensures var (g, written) := Placed(f, es, path, blob, clevel);
      Laid(g, written) && Indexed(g, written)
  {
    var (g, written) := Placed(f, es, path, blob, clevel);
    var x := Entry(path, |blob|, NextOffset(es), clevel);
    var r := RemovePath(es, path);
    PlacedShape(f, es, path, blob, clevel);
    NextOffsetPastHeader(es);
    RemoveUnique(es, path);
    AppendUnique(r, x);
    RemoveStacked(es, path);
    NextOffsetBounds(es);
    if r != [] {
      NextOffsetAtMost(r, x.offset);
    }
    AppendStacked(r, x);
    NextOffsetBounds(written);
  }

  /** Placing a canonical blob keeps every blob stored. */
  lemma PlacedStored(f: seq<byte>, es: seq<Entry>, path: seq<byte>, blob: seq<byte>, clevel: byte, env: Option<seq<byte>>)
    requires (forall e <- es :: End(e) <= |f|) && (forall e <- es :: Stored(f, e, env)) && Canonical(blob, clevel, env)
    ensures var (g, written) := Placed(f, es, path, blob, clevel);
      forall e <- written :: Stored(g, e, env)
  {
    var (g, written) := Placed(f, es, path, blob, clevel);
    var x := Entry(path, |blob|, NextOffset(es), clevel);
    PlacedShape(f, es, path, blob, clevel);
    PlacedKeepsAll(f, es, path, blob, clevel);
    forall e <- written
      ensures Stored(g, e, env)
    {
      if e != x {
        assert e in es;
      }
    }
  }

  /** Placing a canonical blob keeps the archive sound. */
  lemma PlacedSound(f: seq<byte>, es: seq<Entry>, path: seq<byte>, blob: seq<byte>, clevel: byte, env: Option<seq<byte>>)
    requires Sound(f, es, env) && Canonical(blob, clevel, env)
    ensures var (g, written) := Placed(f, es, path, blob, clevel);
      Sound(g, written, env) && Indexed(g, written)
  {
    PlacedLaid(f, es, path, blob, clevel);
    PlacedStored(f, es, path, blob, clevel, env);
  }

  /** `extract_file(path)` after `write_file_direct(path, content, clevel)` returns `content`. */
  lemma WriteThenExtract(f: seq<byte>, es: seq<Entry>, path: seq<byte>, content: seq<byte>, clevel: byte,
                         env: Option<seq<byte>>, nonce: Nonce)
    requires DirectWrite(f, es, path, content, clevel, env, nonce).Ok?
    ensures var (g, written) := DirectWrite(f, es, path, content, clevel, env, nonce).value;
      Extracted(g, written, path, env) == Ok(content)
  {
    SealedDecodes(content, clevel, env, nonce);
    PlacedFinds(f, es, path, Sealed(content, clevel, env, nonce).value, clevel, env);
  }

  /**
   * Had `write_file_direct` used the working-tree writer, which stores the
   * processed content without encrypting it, a file of fewer than 12 bytes
   * written at level 0 would extract as `InvalidData`.
   */
  lemma PlainWriteUnreadable(f: seq<byte>, es: seq<Entry>, path: seq<byte>, content: seq<byte>, env: Option<seq<byte>>)
    requires |content| < NonceLength
    ensures var (g, written) := Placed(f, es, path, Processed(content, 0), 0);
      Extracted(g, written, path, env) == Err(InvalidData)
  {
    PlacedFinds(f, es, path, Processed(content, 0), 0, env);
  }

  /** `write_file_direct(path, …)` leaves what every other path extracts to as it was. */
  lemma WriteKeepsOthers(f: seq<byte>, es: seq<Entry>, path: seq<byte>, content: seq<byte>, clevel: byte,
                         env: Option<seq<byte>>, nonce: Nonce, other: seq<byte>)
    requires DirectWrite(f, es, path, content, clevel, env, nonce).Ok?
    requires (forall e <- es :: End(e) <= |f|) && other != path
    ensures var (g, written) := DirectWrite(f, es, path, content, clevel, env, nonce).value;
      Extracted(g, written, other, env) == Extracted(f, es, other, env)
  {
    PlacedOthers(f, es, path, Sealed(content, clevel, env, nonce).value, clevel, env, other);
  }

  /**
   * After `write_file_direct(path, …)` exactly one entry has `path`, the
   * last one, placed at the old next offset with the stored size and the
   * given level; the other entries keep their fields and order: all of them
   * when the path was new, all but entry `i` when entry `i` had it.
   */
  lemma WriteEntries(f: seq<byte>, es: seq<Entry>, path: seq<byte>, content: seq<byte>, clevel: byte,
                     env: Option<seq<byte>>, nonce: Nonce)
    requires DirectWrite(f, es, path, content, clevel, env, nonce).Ok?
    ensures var written := DirectWrite(f, es, path, content, clevel, env, nonce).value.1;
      var x := Entry(path, |Sealed(content, clevel, env, nonce).value|, NextOffset(es), clevel);
      written[|written| - 1] == x &&
      (forall i :: 0 <= i < |written| - 1 ==> written[i].path != path) &&
      ((forall e <- es :: e.path != path) ==> written == es + [x]) &&
      (UniquePaths(es) ==> UniquePaths(written)) &&
      (forall i :: 0 <= i < |es| && UniquePaths(es) && es[i].path == path ==>
         written == es[..i] + es[i + 1..] + [x])
  {
    var blob := Sealed(content, clevel, env, nonce).value;
    var r := RemovePath(es, path);
    var x := Entry(path, |blob|, NextOffset(es), clevel);
    var written := r + [x];
    assert DirectWrite(f, es, path, content, clevel, env, nonce).value.1 == written;
    forall i | 0 <= i < |written| - 1
      ensures written[i].path != path
    {
      assert written[i] == r[i] && r[i] in r;
    }
    RemoveAbsent(es, path);
    if UniquePaths(es) {
      RemoveUnique(es, path);
      AppendUnique(r, x);
    }
    forall i | 0 <= i < |es| && UniquePaths(es) && es[i].path == path
      ensures written == es[..i] + es[i + 1..] + [x]
    {
      RemoveOne(es, path, i);
    }
  }

  /** `write_file_direct` keeps the archive sound, and its file ends with its index and footer. */
  lemma WriteSound(f: seq<byte>, es: seq<Entry>, path: seq<byte>, content: seq<byte>, clevel: byte,
                   env: Option<seq<byte>>, nonce: Nonce)
    requires Sound(f, es, env) && DirectWrite(f, es, path, content, clevel, env, nonce).Ok?
    ensures var (g, written) := DirectWrite(f, es, path, content, clevel, env, nonce).value;
      Sound(g, written, env) && Indexed(g, written)
  {
    SealedDecodes(content, clevel, env, nonce);
    PlacedSound(f, es, path, Sealed(content, clevel, env, nonce).value, clevel, env);
  }

  /** `delete_file` fails, with `NotFound`, exactly when no entry has the path. */
  lemma DeleteMissing(f: seq<byte>, es: seq<Entry>, path: seq<byte>)
    ensures Deleted(f, es, path).Err? <==> forall e <- es :: e.path != path
    ensures Deleted(f, es, path).Err? ==> Deleted(f, es, path).error == NotFound
  {
    RemoveAbsent(es, path);
  }

  /**
   * A successful `delete_file` strictly shortens the entry list, and what is
   * left is exactly the old entries with other paths.
   */
  lemma DeleteShrinks(f: seq<byte>, es: seq<Entry>, path: seq<byte>)
    requires Deleted(f, es, path).Ok?
    ensures var rest := Deleted(f, es, path).value.1;
      |rest| < |es| && forall e :: e in rest <==> e in es && e.path != path
  {
  }

  /** `delete_file` of an indexed archive makes the file shorter: the index loses a record and the cut does not move out. */
  lemma DeleteSmaller(f: seq<byte>, es: seq<Entry>, path: seq<byte>)
    requires Laid(f, es) && Indexed(f, es) && Deleted(f, es, path).Ok?
    ensures |Deleted(f, es, path).value.0| < |f|
  {
    var rest := RemovePath(es, path);
    RemoveIndexShorter(es, path);
    NextOffsetBounds(es);
    if rest != [] {
      NextOffsetAtMost(rest, NextOffset(es));
    } else {
      NextOffsetPastHeader(es);
    }
  }

  /**
   * Deleting a path and then compacting leaves a file strictly shorter than
   * before the delete, and every remaining path extracts as before.
   */
  lemma DeleteThenDefrag(f: seq<byte>, es: seq<Entry>, path: seq<byte>, env: Option<seq<byte>>, nonces: nat -> Nonce)
    requires Sound(f, es, env) && Indexed(f, es) && Deleted(f, es, path).Ok?
    requires |f| < U64Bound && |es| < U32Bound && forall e <- es :: |e.path| < U32Bound
    ensures var (g, rest) := Deleted(f, es, path).value;
      Defragged(g, rest, env, nonces).Ok? && |Defragged(g, rest, env, nonces).value.0| < |f| &&
      forall other :: other != path ==> Extracted(Defragged(g, rest, env, nonces).value.0, Defragged(g, rest, env, nonces).value.1, other, env) == Extracted(f, es, other, env)
  {
    var (g, rest) := Deleted(f, es, path).value;
    DeleteSound(f, es, path, env);
    DeleteSmaller(f, es, path);
    DefragPacks(g, rest, env, nonces);
    forall other | other != path
      ensures Extracted(g, rest, other, env) == Extracted(f, es, other, env)
    {
      DeleteKeepsOthers(f, es, path, env, other);
    }
  }

  /** After `delete_file(path)`, the path extracts as `NotFound` and deleting it again fails. */
  lemma DeleteThenExtract(f: seq<byte>, es: seq<Entry>, path: seq<byte>, env: Option<seq<byte>>)
    requires Deleted(f, es, path).Ok?
    ensures var (g, rest) := Deleted(f, es, path).value;
      Extracted(g, rest, path, env) == Err(NotFound) && Deleted(g, rest, path) == Err(NotFound)
  {
    var rest := RemovePath(es, path);
    RemoveAbsent(rest, path);
  }

  /** Under unique paths, `delete_file` of the path of entry `i` removes that entry and keeps the others in order. */
  lemma DeleteOne(f: seq<byte>, es: seq<Entry>, i: nat)
    requires UniquePaths(es) && i < |es|
    ensures Deleted(f, es, es[i].path) == Ok((Rewritten(f, es[..i] + es[i + 1..]), es[..i] + es[i + 1..]))
  {
    RemoveOne(es, es[i].path, i);
  }

  /** `delete_file(path)` leaves what every other path extracts to as it was: blob bytes are not moved. */
  lemma DeleteKeepsOthers(f: seq<byte>, es: seq<Entry>, path: seq<byte>, env: Option<seq<byte>>, other: seq<byte>)
    requires Deleted(f, es, path).Ok?
    requires (forall e <- es :: End(e) <= |f|) && other != path
    ensures var (g, rest) := Deleted(f, es, path).value;
      Extracted(g, rest, other, env) == Extracted(f, es, other, env)
  {
    var rest := RemovePath(es, path);
    FindRemove(es, path, other);
    match Find(es, other)
    case None =>
    case Some(e) =>
      NextOffsetBounds(rest);
      RewrittenKeeps(f, rest, e);
  }

  /** `delete_file` keeps the archive sound. */
  lemma DeleteSound(f: seq<byte>, es: seq<Entry>, path: seq<byte>, env: Option<seq<byte>>)
    requires Sound(f, es, env) && Deleted(f, es, path).Ok?
    ensures var (g, rest) := Deleted(f, es, path).value;
      Sound(g, rest, env) && Indexed(g, rest)
  {
    var rest := RemovePath(es, path);
    var g := Rewritten(f, rest);
    RemoveUnique(es, path);
    RemoveStacked(es, path);
    NextOffsetPastHeader(rest);
    NextOffsetBounds(rest);
    forall e <- rest
      ensures Stored(g, e, env)
    {
      RewrittenKeeps(f, rest, e);
    }
    RewrittenIdempotent(f, rest);
  }

  /** A blob that reads back was read with a usable key. */
  lemma StoredKey(f: seq<byte>, e: Entry, env: Option<seq<byte>>)
    requires Stored(f, e, env)
    ensures GetKey(env).Ok?
  {
  }

  /**
   * Entry `m` of a sound archive extracts, at its own level, to content
   * whose processed form plus the cipher overhead is exactly its size.
   */
  lemma StoredExtract(f: seq<byte>, es: seq<Entry>, env: Option<seq<byte>>, m: nat)
    requires Sound(f, es, env) && m < |es|
    ensures var e := es[m];
      Extracted(f, es, e.path, env).Ok? && LevelOf(es, e.path) == e.clevel && GetKey(env).Ok? &&
      |Processed(Extracted(f, es, e.path, env).value, e.clevel)| + SealOverhead == e.size
  {
    FindUnique(es, m);
    assert es[m] in es;
    StoredKey(f, es[m], env);
  }

  /**
   * What the scratch archive of `defrag` is after `n` rounds: the first `n`
   * entries packed, sound, ending with its index (or just the header when
   * nothing was written yet), each of their paths extracting as in `f`.
   */
  predicate Rounds(f: seq<byte>, es: seq<Entry>, env: Option<seq<byte>>, g: seq<byte>, gs: seq<Entry>, n: nat)
    requires n <= |es|
  {
    gs == Packed(es[..n]) && Sound(g, gs, env) &&
    (n == 0 ==> g == Magic) && (n > 0 ==> g == Rewritten(g, gs)) &&
    forall j {:trigger Extracted(g, gs, es[j].path, env)} :: 0 <= j < n ==> Extracted(g, gs, es[j].path, env) == Extracted(f, es, es[j].path, env)
  }

  /** Placing a blob of the size of entry `m` after the first `m` entries packed packs the first `m + 1`. */
  lemma PackedNext(es: seq<Entry>, m: nat, g: seq<byte>, gs: seq<Entry>, blob: seq<byte>)
    requires UniquePaths(es) && m < |es| && gs == Packed(es[..m]) && |blob| == es[m].size
    ensures Placed(g, gs, es[m].path, blob, es[m].clevel).1 == Packed(es[..m + 1])
  {
    PackedContiguous(es[..m]);
    PackedFresh(es, m);
    RemoveAbsent(gs, es[m].path);
    PackedSnoc(es, m);
  }

  /** Under unique paths, no entry among the first `m` packed has the path of entry `m`. */
  lemma PackedFresh(es: seq<Entry>, m: nat)
    requires UniquePaths(es) && m < |es|
    ensures forall y <- Packed(es[..m]) :: y.path != es[m].path
  {
    var gs := Packed(es[..m]);
    forall y <- gs
      ensures y.path != es[m].path
    {
      var j :| 0 <= j < |gs| && gs[j] == y;
      assert y.path == es[j].path;
    }
  }

  /** A path extracts alike from two archives that find the same entry for it and hold the same bytes at its blob. */
  lemma ExtractedSame(g: seq<byte>, gs: seq<Entry>, h: seq<byte>, hs: seq<Entry>, path: seq<byte>, env: Option<seq<byte>>)
    requires Find(hs, path) == Find(gs, path)
    requires Find(gs, path).Some? ==>
      ReadAt(h, Find(gs, path).value.offset, Find(gs, path).value.size) ==
      ReadAt(g, Find(gs, path).value.offset, Find(gs, path).value.size)
    ensures Extracted(h, hs, path, env) == Extracted(g, gs, path, env)
  {
  }

  /**
   * Replacing the entry of path `x.path` by `x`, in a copy where the first
   * `m` paths of `es` extract as in `f` and the old blobs are kept, gives a
   * copy where the first `m + 1` do, once `x` itself extracts as entry `m`.
   */
  lemma ReplacedAgrees(f: seq<byte>, es: seq<Entry>, env: Option<seq<byte>>, g: seq<byte>, gs: seq<Entry>,
                       h: seq<byte>, x: Entry, m: nat)
    requires UniquePaths(es) && m < |es| && x.path == es[m].path
    requires forall e <- gs :: ReadAt(h, e.offset, e.size) == ReadAt(g, e.offset, e.size)
    requires forall j {:trigger Extracted(g, gs, es[j].path, env)} :: 0 <= j < m ==>
      Extracted(g, gs, es[j].path, env) == Extracted(f, es, es[j].path, env)
    requires Extracted(h, RemovePath(gs, x.path) + [x], x.path, env) == Extracted(f, es, x.path, env)
    ensures forall j {:trigger Extracted(h, RemovePath(gs, x.path) + [x], es[j].path, env)} :: 0 <= j < m + 1 ==>
      Extracted(h, RemovePath(gs, x.path) + [x], es[j].path, env) == Extracted(f, es, es[j].path, env)
  {
    var hs := RemovePath(gs, x.path) + [x];
    forall j | 0 <= j < m
      ensures Extracted(h, hs, es[j].path, env) == Extracted(f, es, es[j].path, env)
    {
      FindReplaced(gs, x, es[j].path);
      ExtractedSame(g, gs, h, hs, es[j].path, env);
    }
  }

  /** Where `write_file_direct` puts the blob, every old blob inside the old file is kept. */
  lemma PlacedKeepsAll(f: seq<byte>, es: seq<Entry>, path: seq<byte>, blob: seq<byte>, clevel: byte)
    requires forall e <- es :: End(e) <= |f|
    ensures forall e <- es :: ReadAt(Placed(f, es, path, blob, clevel).0, e.offset, e.size) == ReadAt(f, e.offset, e.size)
  {
    forall e <- es
      ensures ReadAt(Placed(f, es, path, blob, clevel).0, e.offset, e.size) == ReadAt(f, e.offset, e.size)
    {
      PlacedKeeps(f, es, path, blob, clevel, e);
    }
  }

  /**
   * Placing, after `m` rounds, a canonical blob of the size of entry `m`
   * that decodes as entry `m` extracts gives the scratch archive after
   * `m + 1` rounds.
   */
  lemma PackedPlaced(f: seq<byte>, es: seq<Entry>, env: Option<seq<byte>>, g: seq<byte>, gs: seq<Entry>, m: nat,
                     blob: seq<byte>)
    requires UniquePaths(es) && m < |es| && Rounds(f, es, env, g, gs, m)
    requires |blob| == es[m].size && Canonical(blob, es[m].clevel, env)
    requires BlobDecode(blob, es[m].clevel, env) == Extracted(f, es, es[m].path, env)
    ensures var h := Placed(g, gs, es[m].path, blob, es[m].clevel);
      Rounds(f, es, env, h.0, h.1, m + 1)
  {
    var h := Placed(g, gs, es[m].path, blob, es[m].clevel);
    PackedNext(es, m, g, gs, blob);
    PlacedShape(g, gs, es[m].path, blob, es[m].clevel);
    PlacedSound(g, gs, es[m].path, blob, es[m].clevel, env);
    PlacedFinds(g, gs, es[m].path, blob, es[m].clevel, env);
    PlacedKeepsAll(g, gs, es[m].path, blob, es[m].clevel);
    ReplacedAgrees(f, es, env, g, gs, h.0, Entry(es[m].path, |blob|, NextOffset(gs), es[m].clevel), m);
  }

  /**
   * One round of `defrag` on a sound archive succeeds and takes the scratch
   * archive after `m` rounds to the scratch archive after `m + 1` rounds.
   */
  lemma RoundNext(f: seq<byte>, es: seq<Entry>, env: Option<seq<byte>>, g: seq<byte>, gs: seq<Entry>, m: nat, nonce: Nonce)
    requires Sound(f, es, env) && m < |es| && Rounds(f, es, env, g, gs, m)
    ensures Round(f, es, env, nonce, g, gs, m).Ok?
    ensures Rounds(f, es, env, Round(f, es, env, nonce, g, gs, m).value.0, Round(f, es, env, nonce, g, gs, m).value.1, m + 1)
  {
    StoredExtract(f, es, env, m);
    var data := Extracted(f, es, es[m].path, env).value;
    SealedSize(data, es[m].clevel, env, nonce);
    SealedDecodes(data, es[m].clevel, env, nonce);
    var blob := Sealed(data, es[m].clevel, env, nonce).value;
    PackedPlaced(f, es, env, g, gs, m, blob);
    assert Round(f, es, env, nonce, g, gs, m) == DirectWrite(g, gs, es[m].path, data, es[m].clevel, env, nonce);
    assert Round(f, es, env, nonce, g, gs, m) == Ok(Placed(g, gs, es[m].path, blob, es[m].clevel));
  }

  /** Round `m` of `defrag`: the extraction, then the write into the scratch archive. */
  lemma RoundSteps(f: seq<byte>, es: seq<Entry>, env: Option<seq<byte>>, nonce: Nonce, g: seq<byte>, gs: seq<Entry>, m: nat)
    requires m < |es|
    ensures Extracted(f, es, es[m].path, env).Err? ==>
      Round(f, es, env, nonce, g, gs, m) == Err(Extracted(f, es, es[m].path, env).error)
    ensures Extracted(f, es, es[m].path, env).Ok? ==>
      Round(f, es, env, nonce, g, gs, m) ==
      DirectWrite(g, gs, es[m].path, Extracted(f, es, es[m].path, env).value, LevelOf(es, es[m].path), env, nonce)
  {
  }

  /** Rounds `k` onwards: a failure of round `k` ends the rebuild, a success goes on from its result. */
  lemma RebuildingStep(f: seq<byte>, es: seq<Entry>, env: Option<seq<byte>>, nonces: nat -> Nonce, k: nat,
                       g: seq<byte>, gs: seq<Entry>)
    requires k < |es|
    ensures Round(f, es, env, nonces(k), g, gs, k).Err? ==>
      Rebuilding(f, es, env, nonces, k, g, gs) == Err(Round(f, es, env, nonces(k), g, gs, k).error)
    ensures Round(f, es, env, nonces(k), g, gs, k).Ok? ==>
      Rebuilding(f, es, env, nonces, k, g, gs) ==
      Rebuilding(f, es, env, nonces, k + 1, Round(f, es, env, nonces(k), g, gs, k).value.0,
                 Round(f, es, env, nonces(k), g, gs, k).value.1)
  {
  }

  /** Rounds `k` onwards succeed and end with every entry packed. */
  predicate PacksAll(f: seq<byte>, es: seq<Entry>, env: Option<seq<byte>>, nonces: nat -> Nonce, k: nat, g: seq<byte>, gs: seq<Entry>)
    requires k <= |es|
  {
    var r := Rebuilding(f, es, env, nonces, k, g, gs);
    r.Ok? && Rounds(f, es, env, r.value.0, r.value.1, |es|)
  }

  /** Rounds `k` onwards, on a sound archive and after `k` rounds, succeed and pack every entry. */
  lemma {:induction false} RebuildingShape(f: seq<byte>, es: seq<Entry>, env: Option<seq<byte>>, nonces: nat -> Nonce,
                                           k: nat, g: seq<byte>, gs: seq<Entry>)
    requires Sound(f, es, env) && k <= |es| && Rounds(f, es, env, g, gs, k)
    ensures PacksAll(f, es, env, nonces, k, g, gs)
    decreases |es| - k
  {
    if k < |es| {
      RoundNext(f, es, env, g, gs, k, nonces(k));
      var next := Round(f, es, env, nonces(k), g, gs, k).value;
      RebuildingStep(f, es, env, nonces, k, g, gs);
      RebuildingShape(f, es, env, nonces, k + 1, next.0, next.1);
      assert Rebuilding(f, es, env, nonces, k, g, gs) == Rebuilding(f, es, env, nonces, k + 1, next.0, next.1);
    } else {
      assert Rebuilding(f, es, env, nonces, k, g, gs) == Ok((g, gs));
    }
  }

  /** The scratch archive before any round: the header alone, no entries. */
  lemma RoundsStart(f: seq<byte>, es: seq<Entry>, env: Option<seq<byte>>)
    ensures Rounds(f, es, env, Magic, [], 0)
  {
    assert es[..0] == [];
  }

  /** Once every path of `es` extracts from the packed copy as from `f`, every path does. */
  lemma PackedExtract(f: seq<byte>, es: seq<Entry>, g: seq<byte>, gs: seq<Entry>, env: Option<seq<byte>>, path: seq<byte>)
    requires gs == Packed(es)
    requires forall j {:trigger Extracted(g, gs, es[j].path, env)} :: 0 <= j < |es| ==> Extracted(g, gs, es[j].path, env) == Extracted(f, es, es[j].path, env)
    ensures Extracted(g, gs, path, env) == Extracted(f, es, path, env)
  {
    if Find(es, path).Some? {
      var j :| 0 <= j < |es| && es[j] == Find(es, path).value;
    } else {
      assert forall j :: 0 <= j < |gs| ==> gs[j].path == es[j].path && es[j] in es;
    }
  }

  /**
   * The packed copy of a sound, indexed archive is shorter than the archive
   * by exactly the gaps between its blobs: no longer, strictly shorter when
   * there is a gap, and as long when there is none.
   */
  lemma PackedSmaller(f: seq<byte>, es: seq<Entry>, g: seq<byte>, env: Option<seq<byte>>)
    requires Sound(f, es, env) && Indexed(f, es) && es != [] && g == Rewritten(g, Packed(es))
    ensures |g| <= |f|
    ensures NextOffset(es) > |Magic| + SizeSum(es) ==> |g| < |f|
    ensures |g| + NextOffset(es) == |f| + |Magic| + SizeSum(es)
  {
    PackedContiguous(es);
    StackedSizes(es);
    IndexLength(Packed(es), es);
  }

  /**
   * After all rounds on a sound, indexed archive, the scratch file is no
   * longer than the old one, and its footer and index read back as the
   * packed entries (a scratch file of just the header has no footer).
   */
  lemma RebuiltReopens(f: seq<byte>, es: seq<Entry>, env: Option<seq<byte>>, g: seq<byte>, gs: seq<Entry>)
    requires Sound(f, es, env) && Indexed(f, es)
    requires |f| < U64Bound && |es| < U32Bound && forall e <- es :: |e.path| < U32Bound
    requires gs == Packed(es) && (es == [] ==> g == Magic) && (es != [] ==> g == Rewritten(g, gs))
    ensures |g| <= |f|
    ensures es != [] && NextOffset(es) > |Magic| + SizeSum(es) ==> |g| < |f|
    ensures es != [] ==> |g| + NextOffset(es) == |f| + |Magic| + SizeSum(es)
    ensures es == [] ==> FooterInfo(g).Err?
    ensures es != [] ==> FooterInfo(g).Ok? && ParseIndexAt(g, FooterInfo(g).value.0, FooterInfo(g).value.1) == Ok(gs)
  {
    if es != [] {
      PackedSmaller(f, es, g, env);
      forall e <- gs
        ensures |e.path| < U32Bound
      {
        var j :| 0 <= j < |gs| && gs[j] == e;
        assert es[j] in es;
      }
      RewrittenOpens(g, gs);
    }
  }

  /**
   * `defrag` of a sound archive that ends with its index succeeds; its
   * entries are the old ones in the same order with the same paths, sizes
   * and levels, their blobs packed back to back from offset 8; every path
   * extracts to what it did before; the file shrinks by exactly the gaps
   * between the blobs; and the result is again sound and indexed. Requires
   * the file to stay below 2^64 bytes and counts and path lengths to fit in
   * a u32.
   */
  lemma DefragPacks(f: seq<byte>, es: seq<Entry>, env: Option<seq<byte>>, nonces: nat -> Nonce)
    requires Sound(f, es, env) && Indexed(f, es)
    requires |f| < U64Bound && |es| < U32Bound && forall e <- es :: |e.path| < U32Bound
    ensures Defragged(f, es, env, nonces).Ok?
    ensures var (g, packed) := Defragged(f, es, env, nonces).value;
      packed == Packed(es) && Contiguous(packed) && |g| <= |f| &&
      (es != [] && NextOffset(es) > |Magic| + SizeSum(es) ==> |g| < |f|) &&
      (es != [] ==> |g| + NextOffset(es) == |f| + |Magic| + SizeSum(es)) &&
      Sound(g, packed, env) && Indexed(g, packed) &&
      forall path :: Extracted(g, packed, path, env) == Extracted(f, es, path, env)
  {
    var g, gs := DefragRebuilt(f, es, env, nonces);
    forall path
      ensures Extracted(g, gs, path, env) == Extracted(f, es, path, env)
    {
      PackedExtract(f, es, g, gs, env, path);
    }
  }

  /** The state `defrag` ends in, before the extraction law is lifted from the listed paths to every path. */
  lemma DefragRebuilt(f: seq<byte>, es: seq<Entry>, env: Option<seq<byte>>, nonces: nat -> Nonce)
    returns (g: seq<byte>, gs: seq<Entry>)
    requires Sound(f, es, env) && Indexed(f, es)
    requires |f| < U64Bound && |es| < U32Bound && forall e <- es :: |e.path| < U32Bound
    ensures Defragged(f, es, env, nonces) == Ok((g, gs))
    ensures gs == Packed(es) && Contiguous(gs) && |g| <= |f|
    ensures es != [] && NextOffset(es) > |Magic| + SizeSum(es) ==> |g| < |f|
    ensures es != [] ==> |g| + NextOffset(es) == |f| + |Magic| + SizeSum(es)
    ensures Sound(g, gs, env) && Indexed(g, gs)
    ensures forall j {:trigger Extracted(g, gs, es[j].path, env)} :: 0 <= j < |es| ==> Extracted(g, gs, es[j].path, env) == Extracted(f, es, es[j].path, env)
  {
    RoundsStart(f, es, env);
    RebuildingShape(f, es, env, nonces, 0, Magic, []);
    assert es[..|es|] == es;
    g, gs := Rebuilt(f, es, env, nonces).value.0, Rebuilt(f, es, env, nonces).value.1;
    RebuiltReopens(f, es, env, g, gs);
    assert Defragged(f, es, env, nonces) == Ok((g, gs));
    PackedContiguous(es);
  }
}
