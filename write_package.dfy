/**
 * The published writer of target/package/shoko-0.1.1-rc1/src/write.rs: the
 * same cursor-advancing `write_all` sequences as the working-tree writer,
 * except that `write_blob` encrypts the processed content before writing
 * it. The key comes from `env` (the `SHOKO_KEY` variable) and the random
 * nonce is the parameter `nonce`.
 */
module PackageWriter {
  import opened Common
  import opened Codec
  import opened Cipher
  import opened FileIo
  import opened Layout
  import opened Blob

  /** `count_to_bytes`: the entry count as a little-endian u32. */
  function CountToBytes(count: u32): (b: seq<byte>)
    ensures |b| == 4 && FromLE(b) == count
  {
    LE32Inverse(count);
    LE32(count)
  }

  class ShokoWriter {
    const handle: FileHandle

    constructor (handle: FileHandle)
      ensures this.handle == handle
    {
      this.handle := handle;
    }

    /**
     * `write_blob`: compresses above level 0, encrypts, writes the sealed
     * bytes at the cursor and returns how far the cursor moved. When the key
     * is unusable nothing is written and the key error is returned.
     */
    method WriteBlob(data: seq<byte>, clevel: byte, env: Option<seq<byte>>, nonce: Nonce)
      returns (r: Result<nat, ErrorKind>)
      modifies handle
      ensures Sealed(data, clevel, env, nonce).Err? ==>
        r == Err(Sealed(data, clevel, env, nonce).error) && unchanged(handle)
      ensures Sealed(data, clevel, env, nonce).Ok? ==>
        var blob := Sealed(data, clevel, env, nonce).value;
        r == Ok(|blob|) &&
        handle.data == Splice(old(handle.data), old(handle.pos), blob) &&
        handle.pos == old(handle.pos) + |blob|
    {
      var processed: seq<byte>;
      if clevel > 0 {
        processed := Compress(data, clevel);
      } else {
        processed := data;
      }
      var encrypted :- EncryptData(env, nonce, processed);
      var startPos := handle.StreamPosition();
      handle.WriteAll(encrypted);
      var endPos := handle.StreamPosition();
      return Ok(endPos - startPos);
    }

    /** `write_index_entry`: the index record of the entry, written at the cursor field by field. */
    method WriteIndexEntry(path: seq<byte>, size: nat, offset: nat, clevel: byte)
      modifies handle
      ensures handle.data == Splice(old(handle.data), old(handle.pos), EntryBytes(Entry(path, size, offset, clevel)))
      ensures handle.pos == old(handle.pos) + 21 + |path|
    {
      ghost var f, p := handle.data, handle.pos;
      handle.WriteAll(LE32(|path|));
      handle.WriteAll(path);
      handle.WriteAll(LE64(size));
      handle.WriteAll(LE64(offset));
      handle.WriteAll([clevel]);
      SpliceFields(f, p, LE32(|path|), path, LE64(size), LE64(offset), [clevel]);
    }

    /** `finalize`: the 14-byte footer, with the count encoded by `count_to_bytes`, written at the cursor. */
    method Finalize(indexStart: nat, entryCount: u32)
      modifies handle
      ensures handle.data == Splice(old(handle.data), old(handle.pos), FooterBytes(indexStart, entryCount))
      ensures handle.pos == old(handle.pos) + FooterLength
    {
      ghost var f, p := handle.data, handle.pos;
      handle.WriteAll(LE64(indexStart));
      handle.WriteAll(CountToBytes(entryCount));
      SpliceSplice(f, p, LE64(indexStart), LE32(entryCount));
      handle.WriteAll(Trailer);
      SpliceSplice(f, p, LE64(indexStart) + LE32(entryCount), Trailer);
    }
  }
}
