/**
 * The working-tree writer of shoko/src/write.rs: every operation is a series
 * of `write_all` calls at the handle's cursor. Its `write_blob` does not
 * encrypt, unlike the package writer of module `PackageWriter`.
 */
module TreeWriter {
  import opened Common
  import opened Codec
  import opened FileIo
  import opened Layout
  import opened Blob

  class ShokoWriter {
    const handle: FileHandle

    constructor (handle: FileHandle)
      ensures this.handle == handle
    {
      this.handle := handle;
    }

    /**
     * `write_blob`: compresses above level 0, writes the result at the
     * cursor unencrypted, and returns how far the cursor moved, which is the
     * number of bytes written.
     */
    method WriteBlob(data: seq<byte>, clevel: byte) returns (written: nat)
      modifies handle
      ensures written == |Processed(data, clevel)|
      ensures handle.data == Splice(old(handle.data), old(handle.pos), Processed(data, clevel))
      ensures handle.pos == old(handle.pos) + written
    {
      var processed: seq<byte>;
      if clevel > 0 {
        processed := Compress(data, clevel);
      } else {
        processed := data;
      }
      var startPos := handle.StreamPosition();
      handle.WriteAll(processed);
      var endPos := handle.StreamPosition();
      written := endPos - startPos;
    }

    /**
     * `write_index_entry`: the path length as a little-endian u32, the path,
     * the size and offset as little-endian u64s and the level byte, that is
     * exactly the index record of the entry, written at the cursor.
     */
    method WriteIndexEntry(path: seq<byte>, size: nat, offset: nat, clevel: byte)
      modifies handle
      ensures handle.data == Splice(old(handle.data), old(handle.pos), EntryBytes(Entry(path, size, offset, clevel)))
      ensures handle.pos == old(handle.pos) + 21 + |path|
    {
      ghost var f, p := handle.data, handle.pos;
      handle.WriteAll(LE32(|path|));
      handle.WriteAll(path);
      handle.WriteAll(LE64(size));
      handle.WriteAll(LE64(offset));
      handle.WriteAll([clevel]);
      SpliceFields(f, p, LE32(|path|), path, LE64(size), LE64(offset), [clevel]);
    }

    /** `finalize`: the 14-byte footer, index start, entry count and `"SK"`, written at the cursor. */
    method Finalize(indexStart: nat, entryCount: u32)
      modifies handle
      ensures handle.data == Splice(old(handle.data), old(handle.pos), FooterBytes(indexStart, entryCount))
      ensures handle.pos == old(handle.pos) + FooterLength
    {
      ghost var f, p := handle.data, handle.pos;
      handle.WriteAll(LE64(indexStart));
      handle.WriteAll(LE32(entryCount));
      SpliceSplice(f, p, LE64(indexStart), LE32(entryCount));
      handle.WriteAll(Trailer);
      SpliceSplice(f, p, LE64(indexStart) + LE32(entryCount), Trailer);
    }

    /** `seek_to_end`: moves the cursor to the end of the file and returns the file's length. */
    method SeekToEnd() returns (length: nat)
      modifies handle
      ensures length == |handle.data| && handle.pos == length
      ensures handle.data == old(handle.data)
    {
      length := handle.SeekEnd();
    }
  }
}
