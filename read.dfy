/**
 * The reader of shoko/src/read.rs: each operation seeks the handle and then
 * calls `read_exact` field by field, and each is proved to return what the
 * pure descriptions `BlobRead`, `ParseEntryAt` and `FooterInfo` say about
 * the file's bytes.
 */
module Reader {
  import opened Common
  import opened Decompress
  import opened Cipher
  import opened FileIo
  import opened Layout
  import opened Blob

  class ShokoReader {
    const handle: FileHandle

    constructor (handle: FileHandle)
      ensures this.handle == handle
    {
      this.handle := handle;
    }

    /**
     * `read_blob`: seek to `offset`, read exactly `size` bytes, decrypt,
     * and decompress above level 0, turning a decoder error into `InvalidData`.
     */
    method ReadBlob(offset: nat, size: nat, clevel: byte, env: Option<seq<byte>>)
      returns (r: Result<seq<byte>, ErrorKind>)
      modifies handle
      ensures handle.data == old(handle.data)
      ensures r == BlobRead(handle.data, offset, size, clevel, env)
    {
      handle.Seek(offset);
      var buffer :- handle.ReadExact(size);
      var decrypted :- DecryptData(env, buffer);
      if clevel > 0 {
        var decoded := Decompress.Decompress(decrypted);
        match decoded
        case Ok(x) => r := Ok(x);
        case Err(_) => r := Err(InvalidData);
      } else {
        r := Ok(decrypted);
      }
    }

    /**
     * `read_index_entry`: reads one index record at the cursor, leaving the
     * cursor just after it; a record cut short by the end of the file is
     * `UnexpectedEof`.
     */
    method ReadIndexEntry() returns (r: Result<Entry, ErrorKind>)
      modifies handle
      ensures handle.data == old(handle.data)
      ensures r.Ok? <==> ParseEntryAt(handle.data, old(handle.pos)).Ok?
      ensures r.Ok? ==> (r.value, handle.pos) == ParseEntryAt(handle.data, old(handle.pos)).value
      ensures r.Err? ==> r.error == ParseEntryAt(handle.data, old(handle.pos)).error
    {
      var lenBuf :- handle.ReadExact(4);
      var pathLen := FromLE(lenBuf);
      var pathBytes :- handle.ReadExact(pathLen);
      var sizeBuf :- handle.ReadExact(8);
      var offsetBuf :- handle.ReadExact(8);
      var clevelBuf :- handle.ReadExact(1);
      ParseFields(handle.data, old(handle.pos), lenBuf, pathBytes, sizeBuf, offsetBuf, clevelBuf);
      return Ok(Entry(pathBytes, FromLE(sizeBuf), FromLE(offsetBuf), clevelBuf[0]));
    }

    /**
     * `get_footer_info`: a file under 14 bytes is `InvalidInput`; otherwise
     * the last 14 bytes are read as the index start, the entry count and
     * the trailer, and a trailer other than `"SK"` is `InvalidData`.
     */
    method GetFooterInfo() returns (r: Result<(nat, nat), ErrorKind>)
      modifies handle
      ensures handle.data == old(handle.data)
      ensures r == FooterInfo(handle.data)
    {
      var fileLen := handle.Len();
      if fileLen < FooterLength {
        return Err(InvalidInput);
      }
      var footerPos := handle.SeekFromEnd(FooterLength);
      assert footerPos.Ok?;
      var footerPosBuf := handle.ReadExact(8);
      assert footerPosBuf == Ok(handle.data[fileLen - 14..fileLen - 6]);
      var indexStart := FromLE(footerPosBuf.value);
      var countBuf := handle.ReadExact(4);
      assert countBuf == Ok(handle.data[fileLen - 6..fileLen - 2]);
      var entryCount := FromLE(countBuf.value);
      var magic := handle.ReadExact(2);
      assert magic == Ok(handle.data[fileLen - 2..fileLen]);
      assert handle.data[fileLen - 2..fileLen] == handle.data[fileLen - 2..];
      if magic.value != Trailer {
        return Err(InvalidData);
      }
      return Ok((indexStart, entryCount));
    }
  }
}
