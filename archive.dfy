/**
 * `ShokoArchive` (shoko/src/archive.rs and shoko/src/delete.rs): an open
 * archive file and the entry list kept in memory. Every operation is proved
 * to leave the file's bytes and the entries as the functions of
 * `ArchiveSpec` say, so the laws proved there hold of the methods.
 */
module Archive {
  import opened Common
  import opened Cipher
  import opened FileIo
  import opened Layout
  import opened Blob
  import opened Entries
  import opened ArchiveSpec
  import opened Reader
  import opened PackageWriter

  /** A `read_index_entry` that fails fails the whole index read. */
  lemma ParseIndexFails(f: seq<byte>, p: nat, count: nat, pre: seq<Entry>)
    requires count > 0 && ParseEntryAt(f, p).Err?
    ensures Prepend(pre, ParseIndexAt(f, p, count)) == Err(ParseEntryAt(f, p).error)
  {
  }

  /** A `read_index_entry` that succeeds moves one record from the rest of the index to the entries read. */
  lemma ParseIndexStep(f: seq<byte>, p: nat, q: nat, count: nat, pre: seq<Entry>, e: Entry)
    requires count > 0 && ParseEntryAt(f, p) == Ok((e, q))
    ensures Prepend(pre, ParseIndexAt(f, p, count)) == Prepend(pre + [e], ParseIndexAt(f, q, count - 1))
  {
    match ParseIndexAt(f, q, count - 1)
    case Ok(rest) =>
      assert pre + ([e] + rest) == pre + [e] + rest;
    case Err(_) =>
  }

  /** The loop of `open`: `count` calls of `read_index_entry` from the reader's position, stopping at the first error. */
  method ReadRecords(reader: ShokoReader, count: nat) returns (r: Result<seq<Entry>, ErrorKind>)
    modifies reader.handle
    ensures reader.handle.data == old(reader.handle.data)
    ensures r == ParseIndexAt(reader.handle.data, old(reader.handle.pos), count)
  {
    ghost var d := reader.handle.data;
    ghost var whole := ParseIndexAt(d, reader.handle.pos, count);
    var entries: seq<Entry> := [];
    PrependEmpty(whole);
    var left := count;
    while left > 0
      invariant reader.handle.data == d
      invariant whole == Prepend(entries, ParseIndexAt(d, reader.handle.pos, left))
    {
      var e;
      e, entries, left := ReadNext(reader, d, whole, entries, left);
      if e.Err? {
        return Err(e.error);
      }
    }
    PrependNothing<Entry, ErrorKind>(entries);
    r := Ok(entries);
  }

  /** One pass of the `open` loop: the next `read_index_entry` appended to the records read, or the error that ends the loop. */
  method ReadNext(reader: ShokoReader, ghost d: seq<byte>, ghost whole: Result<seq<Entry>, ErrorKind>, entries: seq<Entry>, left: nat)
    returns (e: Result<Entry, ErrorKind>, entries': seq<Entry>, left': nat)
    requires left > 0 && reader.handle.data == d
    requires whole == Prepend(entries, ParseIndexAt(d, reader.handle.pos, left))
    modifies reader.handle
    ensures reader.handle.data == d && left' < left
    ensures e.Err? ==> whole == Err(e.error)
    ensures e.Ok? ==> entries' == entries + [e.value] && whole == Prepend(entries', ParseIndexAt(d, reader.handle.pos, left'))
  {
    ghost var p := reader.handle.pos;
    e := reader.ReadIndexEntry();
    entries', left' := entries, left - 1;
    if e.Err? {
      ParseIndexFails(d, p, left, entries);
    } else {
      ParseIndexStep(d, p, reader.handle.pos, left, entries, e.value);
      entries' := entries + [e.value];
    }
  }

  /** The file after the first `k` records of the index loop have been written from `p` over `f`. */
  function AfterRecords(f: seq<byte>, p: nat, es: seq<Entry>, k: nat): seq<byte>
    requires k <= |es|
  {
    if k == 0 then f else Splice(f, p, IndexBytes(es[..k]))
  }

  /** The records of the first `k + 1` entries. */
  lemma RecordsGrow(es: seq<Entry>, k: nat)
    requires k < |es|
    ensures IndexBytes(es[..k + 1]) == IndexBytes(es[..k]) + EntryBytes(es[k])
  {
    assert es[..k + 1] == es[..k] + [es[k]];
    IndexBytesSnoc(es[..k], es[k]);
  }

  /** A record written right after the first `k > 0` records. */
  lemma RecordAppended(f: seq<byte>, p: nat, es: seq<Entry>, k: nat)
    requires 0 < k < |es|
    ensures Splice(Splice(f, p, IndexBytes(es[..k])), p + |IndexBytes(es[..k])|, EntryBytes(es[k]))
         == Splice(f, p, IndexBytes(es[..k + 1]))
  {
    RecordsGrow(es, k);
    SpliceSplice(f, p, IndexBytes(es[..k]), EntryBytes(es[k]));
  }

  /** The first record of the index. */
  lemma RecordFirst(f: seq<byte>, p: nat, es: seq<Entry>)
    requires 0 < |es|
    ensures Splice(f, p, EntryBytes(es[0])) == Splice(f, p, IndexBytes(es[..1]))
  {
    RecordsGrow(es, 0);
    assert IndexBytes(es[..0]) == [];
  }

  /** One more `write_index_entry` of the index loop. */
  lemma RecordStep(f: seq<byte>, p: nat, es: seq<Entry>, k: nat)
    requires k < |es|
    ensures Splice(AfterRecords(f, p, es, k), p + |IndexBytes(es[..k])|, EntryBytes(es[k])) == AfterRecords(f, p, es, k + 1)
    ensures |IndexBytes(es[..k + 1])| == |IndexBytes(es[..k])| + 21 + |es[k].path|
  {
    RecordsGrow(es, k);
    if k > 0 {
      RecordAppended(f, p, es, k);
    } else {
      assert IndexBytes(es[..k]) == [];
      RecordFirst(f, p, es);
    }
  }

  /** The footer written after a non-empty index. */
  lemma FooterAppended(f: seq<byte>, p: nat, index: seq<byte>, records: seq<byte>, end: nat, footer: seq<byte>)
    requires records == Splice(f, p, index) && end == p + |index|
    ensures Resize(Splice(records, end, footer), end + |footer|) == Place(f, p, index + footer)
  {
    SpliceSplice(f, p, index, footer);
    ResizeSplice(f, p, index + footer);
  }

  /** The loop over all of a non-empty index leaves the whole index written at `p`. */
  lemma AllRecords(f: seq<byte>, p: nat, es: seq<Entry>)
    requires es != []
    ensures AfterRecords(f, p, es, |es|) == Splice(f, p, IndexBytes(es))
  {
    assert es[..|es|] == es;
  }

  /** The footer written after a non-empty index, then `set_len` at the cursor. */
  lemma RecordsThenFooter(f: seq<byte>, p: nat, es: seq<Entry>, records: seq<byte>, end: nat, footer: seq<byte>)
    requires es != []
    requires records == AfterRecords(f, p, es, |es|) && end == p + |IndexBytes(es)|
    ensures Resize(Splice(records, end, footer), end + |footer|) == Place(f, p, IndexBytes(es) + footer)
  {
    AllRecords(f, p, es);
    FooterAppended(f, p, IndexBytes(es), records, end, footer);
  }

  /** With no entries the loop writes nothing and the footer lands at `p`. */
  lemma FooterOnly(f: seq<byte>, p: nat, es: seq<Entry>, records: seq<byte>, end: nat, footer: seq<byte>)
    requires es == []
    requires records == AfterRecords(f, p, es, |es|) && end == p + |IndexBytes(es)|
    ensures Resize(Splice(records, end, footer), end + |footer|) == Place(f, p, IndexBytes(es) + footer)
  {
    assert IndexBytes(es) + footer == footer;
    ResizeSplice(f, p, footer);
  }

  /** The footer written after the index, then `set_len` at the cursor. */
  lemma RecordsDone(f: seq<byte>, p: nat, es: seq<Entry>, records: seq<byte>, end: nat, footer: seq<byte>)
    requires records == AfterRecords(f, p, es, |es|) && end == p + |IndexBytes(es)|
    ensures Resize(Splice(records, end, footer), end + |footer|) == Place(f, p, IndexBytes(es) + footer)
  {
    if es != [] {
      RecordsThenFooter(f, p, es, records, end, footer);
    } else {
      FooterOnly(f, p, es, records, end, footer);
    }
  }

  /** The index loop, the footer and `set_len` together give the file `Rewritten` describes. */
  lemma IndexRewritten(f: seq<byte>, es: seq<Entry>, p: nat, records: seq<byte>, end: nat, footer: seq<byte>)
    requires p == NextOffset(es) && footer == FooterBytes(p, |es| % U32Bound)
    requires records == AfterRecords(f, p, es, |es|) && end == p + |IndexBytes(es)|
    ensures Resize(Splice(records, end, footer), end + |footer|) == Rewritten(f, es)
  {
    RecordsDone(f, p, es, records, end, footer);
    assert Rewritten(f, es) == Place(f, p, IndexBytes(es) + footer);
  }

  /** The loop of `rewrite_index`: one record per entry, in order, written from position `p`. */
  method WriteRecords(writer: ShokoWriter, es: seq<Entry>, p: nat)
    requires writer.handle.pos == p
    modifies writer.handle
    ensures writer.handle.data == AfterRecords(old(writer.handle.data), p, es, |es|)
    ensures writer.handle.pos == p + |IndexBytes(es)|
  {
    ghost var f0 := writer.handle.data;
    var k := 0;
    while k < |es|
      invariant 0 <= k <= |es|
      invariant writer.handle.data == AfterRecords(f0, p, es, k)
      invariant writer.handle.pos == p + |IndexBytes(es[..k])|
    {
      var e := es[k];
      RecordStep(f0, p, es, k);
      writer.WriteIndexEntry(e.path, e.size, e.offset, e.clevel);
      assert Entry(e.path, e.size, e.offset, e.clevel) == e;
      k := k + 1;
    }
    assert es[..k] == es;
  }

  class ShokoArchive {
    const file: FileHandle
    var entries: seq<Entry>

    /** `create`: a new, truncated file holding only the header, and no entries. */
    constructor Create()
      ensures fresh(file) && file.data == Magic && file.pos == |Magic| && entries == []
    {
      file := new FileHandle([]);
      entries := [];
      new;
      file.WriteAll(Magic);
      SpliceEmpty(Magic);
    }

    /** The archive value `open` returns. */
    constructor FromParts(file: FileHandle, entries: seq<Entry>)
      ensures this.file == file && this.entries == entries
    {
      this.file := file;
      this.entries := entries;
    }

    /**
     * `open`: when the footer reads back, the index records it points to
     * are read one by one, and a record cut short fails the whole open;
     * when it does not, the archive opens with no entries. The header is
     * not checked.
     */
    static method Open(f: FileHandle) returns (r: Result<ShokoArchive, ErrorKind>)
      modifies f
      ensures f.data == old(f.data)
      ensures Opened(f.data).Err? ==> r == Err(Opened(f.data).error)
      ensures Opened(f.data).Ok? ==> r.Ok? && fresh(r.value) && r.value.file == f && r.value.entries == Opened(f.data).value
    {
      var reader := new ShokoReader(f);
      var footer := reader.GetFooterInfo();
      var entries: seq<Entry> := [];
      if footer.Ok? {
        var (indexStart, count) := footer.value;
        var found := ReadIndex(f, indexStart, count);
        if found.Err? {
          return Err(found.error);
        }
        entries := found.value;
      }
      var archive := new ShokoArchive.FromParts(f, entries);
      r := Ok(archive);
    }

    /** The loop of `open` and `defrag`: seek to the index and read `count` records. */
    static method ReadIndex(f: FileHandle, indexStart: nat, count: nat) returns (r: Result<seq<Entry>, ErrorKind>)
      modifies f
      ensures f.data == old(f.data)
      ensures r == ParseIndexAt(f.data, indexStart, count)
    {
      f.Seek(indexStart);
      var reader := new ShokoReader(f);
      r := ReadRecords(reader, count);
    }

    /**
     * `rewrite_index`: the index records of the entries and the footer,
     * written at the next offset, and the file cut just after them.
     */
    method RewriteIndex()
      modifies file
      ensures file.data == Rewritten(old(file.data), entries)
      ensures file.pos == |file.data|
    {
      var es := entries;
      var indexStart := NextOffset(es);
      file.Seek(indexStart);
      var writer := new ShokoWriter(file);
      ghost var f0 := file.data;
      assert f0 == old(file.data);
      WriteRecords(writer, es, indexStart);
      ghost var records, end := file.data, file.pos;
      var entryCount := |es| % U32Bound;
      ghost var footer := FooterBytes(indexStart, entryCount);
      writer.Finalize(indexStart, entryCount);
      assert file.data == Splice(records, end, footer) && file.pos == end + |footer|;
      var finalSize := file.StreamPosition();
      file.SetLen(finalSize);
      IndexRewritten(f0, es, indexStart, records, end, footer);
      assert file.data == Rewritten(f0, es);
    }

    /**
     * `write_file_direct(path, content, clevel)`: the blob goes at the next
     * offset, any entry with the path is dropped, the new one is appended,
     * and the index is rewritten. A key error changes neither the file nor
     * the entries.
     */
    method WriteFileDirect(path: seq<byte>, content: seq<byte>, clevel: byte, env: Option<seq<byte>>, nonce: Nonce)
      returns (r: Result<(), ErrorKind>)
      modifies this, file
      ensures DirectWrite(old(file.data), old(entries), path, content, clevel, env, nonce).Err? ==>
        r == Err(DirectWrite(old(file.data), old(entries), path, content, clevel, env, nonce).error) &&
        file.data == old(file.data) && entries == old(entries)
      ensures DirectWrite(old(file.data), old(entries), path, content, clevel, env, nonce).Ok? ==>
        r == Ok(()) && (file.data, entries) == DirectWrite(old(file.data), old(entries), path, content, clevel, env, nonce).value
    {
      var dataOffset := NextOffset(entries);
      file.Seek(dataOffset);
      var writer := new ShokoWriter(file);
      var written := writer.WriteBlob(content, clevel, env, nonce);
      if written.Err? {
        return Err(written.error);
      }
      entries := RemovePath(entries, path);
      entries := entries + [Entry(path, written.value, dataOffset, clevel)];
      RewriteIndex();
      r := Ok(());
    }

    /** `extract_file(path)`: `NotFound` when no entry has the path, else `read_blob` of the first that has it. */
    method ExtractFile(path: seq<byte>, env: Option<seq<byte>>) returns (r: Result<seq<byte>, ErrorKind>)
      modifies file
      ensures file.data == old(file.data)
      ensures r == Extracted(file.data, entries, path, env)
    {
      match Find(entries, path)
      case None =>
        r := Err(NotFound);
      case Some(e) =>
        var reader := new ShokoReader(file);
        r := reader.ReadBlob(e.offset, e.size, e.clevel, env);
    }

    /**
     * `delete_file(path)`: drops the entries with the path and rewrites the
     * index; `NotFound`, with nothing changed, when no entry has it. The
     * blob bytes stay where they were until `defrag`.
     */
    method DeleteFile(path: seq<byte>) returns (r: Result<(), ErrorKind>)
      modifies this, file
      ensures Deleted(old(file.data), old(entries), path).Err? ==>
        r == Err(NotFound) && file.data == old(file.data) && entries == old(entries)
      ensures Deleted(old(file.data), old(entries), path).Ok? ==>
        r == Ok(()) && (file.data, entries) == Deleted(old(file.data), old(entries), path).value
    {
      var originalLen := |entries|;
      RemoveAbsent(entries, path);
      entries := RemovePath(entries, path);
      if |entries| == originalLen {
        return Err(NotFound);
      }
      RewriteIndex();
      r := Ok(());
    }

    /**
     * One round of `defrag`: the level of entry `m`'s path, its content
     * extracted from this archive, and that content written into `scratch`.
     */
    method CopyRound(scratch: ShokoArchive, m: nat, env: Option<seq<byte>>, nonce: Nonce) returns (r: Result<(), ErrorKind>)
      requires m < |entries| && scratch != this && scratch.file != file
      modifies file, scratch, scratch.file
      ensures file.data == old(file.data)
      ensures Round(file.data, entries, env, nonce, old(scratch.file.data), old(scratch.entries), m).Err? ==>
        r == Err(Round(file.data, entries, env, nonce, old(scratch.file.data), old(scratch.entries), m).error)
      ensures Round(file.data, entries, env, nonce, old(scratch.file.data), old(scratch.entries), m).Ok? ==>
        r == Ok(()) &&
        (scratch.file.data, scratch.entries) == Round(file.data, entries, env, nonce, old(scratch.file.data), old(scratch.entries), m).value
    {
      RoundSteps(file.data, entries, env, nonce, scratch.file.data, scratch.entries, m);
      var path := entries[m].path;
      var clevel := LevelOf(entries, path);
      var data := ExtractFile(path, env);
      if data.Err? {
        return Err(data.error);
      }
      r := scratch.WriteFileDirect(path, data.value, clevel, env, nonce);
    }

    /**
     * The first half of `defrag`: every path is extracted and written, in
     * entry order and at its level, into a fresh scratch archive, with
     * `nonces(k)` the nonce of round `k`. The first failure is returned.
     */
    method Rebuild(env: Option<seq<byte>>, nonces: nat -> Nonce) returns (r: Result<ShokoArchive, ErrorKind>)
      modifies file
      ensures file.data == old(file.data)
      ensures r.Ok? <==> Rebuilt(file.data, entries, env, nonces).Ok?
      ensures r.Ok? ==>
        fresh(r.value) && fresh(r.value.file) &&
        (r.value.file.data, r.value.entries) == Rebuilt(file.data, entries, env, nonces).value
      ensures r.Err? ==> r.error == Rebuilt(file.data, entries, env, nonces).error
    {
      ghost var f0 := file.data;
      var scratch := new ShokoArchive.Create();
      var k := 0;
      while k < |entries|
        invariant 0 <= k <= |entries| && file.data == f0
        invariant fresh(scratch) && fresh(scratch.file)
        invariant Rebuilt(f0, entries, env, nonces) == Rebuilding(f0, entries, env, nonces, k, scratch.file.data, scratch.entries)
      {
        RebuildingStep(f0, entries, env, nonces, k, scratch.file.data, scratch.entries);
        var copied := CopyRound(scratch, k, env, nonces(k));
        if copied.Err? {
          return Err(copied.error);
        }
        k := k + 1;
      }
      r := Ok(scratch);
    }

    /**
     * `defrag`: the scratch archive of `Rebuild`; the file is then replaced
     * by the scratch file and the entries are re-read from its footer and
     * index, or kept when it has no valid footer. A failed round returns its
     * error with the file and the entries untouched; a failure while
     * re-reading the index leaves the new file in place.
     */
    method Defrag(env: Option<seq<byte>>, nonces: nat -> Nonce) returns (r: Result<(), ErrorKind>)
      modifies this, file
      ensures Defragged(old(file.data), old(entries), env, nonces).Ok? ==>
        r == Ok(()) && (file.data, entries) == Defragged(old(file.data), old(entries), env, nonces).value
      ensures Rebuilt(old(file.data), old(entries), env, nonces).Err? ==>
        r == Err(Rebuilt(old(file.data), old(entries), env, nonces).error) &&
        file.data == old(file.data) && entries == old(entries)
      ensures Rebuilt(old(file.data), old(entries), env, nonces).Ok? &&
              Defragged(old(file.data), old(entries), env, nonces).Err? ==>
        r == Err(Defragged(old(file.data), old(entries), env, nonces).error) &&
        file.data == Rebuilt(old(file.data), old(entries), env, nonces).value.0
    {
      var scratch := Rebuild(env, nonces);
      if scratch.Err? {
        return Err(scratch.error);
      }
      var built := scratch.value.file.data;
      file.SetLen(0);
      file.Seek(0);
      file.WriteAll(built);
      SpliceEmpty(built);
      var reader := new ShokoReader(file);
      var footer := reader.GetFooterInfo();
      if footer.Ok? {
        var (indexStart, count) := footer.value;
        entries := [];
        var found := ReadIndex(file, indexStart, count);
        if found.Err? {
          return Err(found.error);
        }
        entries := found.value;
      }
      r := Ok(());
    }
  }
}
