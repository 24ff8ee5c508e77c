/**
 * The blob pipeline shared by the writers and the reader: what `write_blob`
 * puts in the file for some content and level, and what `read_blob` makes of
 * the bytes it reads back.
 *
 * The package writer (target/package/shoko-0.1.1-rc1/src/write.rs) compresses
 * above level 0 and then always encrypts; `read_blob` (shoko/src/read.rs)
 * always decrypts and then decompresses above level 0, so the two are
 * inverse. The working-tree writer (shoko/src/write.rs) skips the encryption,
 * and what it writes does not read back.
 */
module Blob {
  import opened Common
  import opened Codec
  import opened Decompress
  import opened Cipher
  import opened FileIo

  /** What both writers make of the content before anything else: compressed above level 0, verbatim at level 0. */
  function Processed(data: seq<byte>, clevel: byte): seq<byte>
  {
    if clevel > 0 then Compressed(data, clevel) else data
  }

  /** What the package writer's `write_blob` writes at the cursor: the processed content, encrypted. */
  function Sealed(data: seq<byte>, clevel: byte, env: Option<seq<byte>>, nonce: Nonce): Result<seq<byte>, ErrorKind>
  {
    EncryptData(env, nonce, Processed(data, clevel))
  }

  /** The last step of `read_blob`: decompression above level 0, with a malformed stream reported as `InvalidData`. */
  function Unprocessed(plain: seq<byte>, clevel: byte): Result<seq<byte>, ErrorKind>
  {
    if clevel == 0 then Ok(plain)
    else
      match Decode(plain)
      case Ok(x) => Ok(x)
      case Err(_) => Err(InvalidData)
  }

  /** What `read_blob` makes of the bytes it read: decrypted, then decompressed above level 0. */
  function BlobDecode(buffer: seq<byte>, clevel: byte, env: Option<seq<byte>>): Result<seq<byte>, ErrorKind>
  {
    var plain :- DecryptData(env, buffer);
    Unprocessed(plain, clevel)
  }

  /** `read_blob(offset, size, clevel)` on a file holding `f`: read exactly `size` bytes, then decode them. */
  function BlobRead(f: seq<byte>, offset: nat, size: nat, clevel: byte, env: Option<seq<byte>>): Result<seq<byte>, ErrorKind>
  {
    var buffer :- ReadAt(f, offset, size);
    BlobDecode(buffer, clevel, env)
  }

  /**
   * A blob that decodes, and whose content the package writer would store
   * at the same level in exactly as many bytes: what every blob the package
   * writer produced is.
   */
  predicate Canonical(blob: seq<byte>, clevel: byte, env: Option<seq<byte>>)
  {
    BlobDecode(blob, clevel, env).Ok? &&
    |Processed(BlobDecode(blob, clevel, env).value, clevel)| + SealOverhead == |blob|
  }

  /** Undoing the processing gives the content back, at every level. */
  lemma UnprocessProcessed(data: seq<byte>, clevel: byte)
    ensures Unprocessed(Processed(data, clevel), clevel) == Ok(data)
  {
    if clevel > 0 {
      RoundTrip(data, clevel);
    }
  }

  /**
   * The package writer fails exactly when the key is unusable; otherwise the
   * blob is the processed content plus 28 bytes of framing, so level 0
   * stores `|data| + 28` bytes.
   */
  lemma SealedSize(data: seq<byte>, clevel: byte, env: Option<seq<byte>>, nonce: Nonce)
    ensures Sealed(data, clevel, env, nonce).Ok? <==> GetKey(env).Ok?
    ensures Sealed(data, clevel, env, nonce).Ok? ==>
      |Sealed(data, clevel, env, nonce).value| == |Processed(data, clevel)| + SealOverhead
    ensures Sealed(data, clevel, env, nonce).Ok? && clevel == 0 ==>
      |Sealed(data, clevel, env, nonce).value| == |data| + SealOverhead
  {
    EncryptDecrypt(env, nonce, Processed(data, clevel));
  }

  /** What the package writer seals decodes back to the content, and is canonical. */
  lemma SealedDecodes(data: seq<byte>, clevel: byte, env: Option<seq<byte>>, nonce: Nonce)
    requires Sealed(data, clevel, env, nonce).Ok?
    ensures BlobDecode(Sealed(data, clevel, env, nonce).value, clevel, env) == Ok(data)
    ensures Canonical(Sealed(data, clevel, env, nonce).value, clevel, env)
  {
    EncryptDecrypt(env, nonce, Processed(data, clevel));
    UnprocessProcessed(data, clevel);
  }

  /**
   * `read_blob(p, write_blob(data, clevel), clevel)` returns `data`: a blob
   * the package writer put at `p` reads back as its content, whatever else
   * the file holds.
   */
  lemma BlobRoundTrip(f: seq<byte>, p: nat, data: seq<byte>, clevel: byte, env: Option<seq<byte>>, nonce: Nonce)
    requires Sealed(data, clevel, env, nonce).Ok?
    ensures BlobRead(Splice(f, p, Sealed(data, clevel, env, nonce).value), p,
                     |Sealed(data, clevel, env, nonce).value|, clevel, env) == Ok(data)
  {
    var blob := Sealed(data, clevel, env, nonce).value;
    var g := Splice(f, p, blob);
    SpliceFrame(f, p, blob);
    SealedDecodes(data, clevel, env, nonce);
    EncryptDecrypt(env, nonce, Processed(data, clevel));
    assert |blob| > 0;
    assert ReadAt(g, p, |blob|) == Ok(blob);
  }

  /**
   * A blob that reads back without error was read whole, and above level 0
   * it was a complete compressed stream: a read past the end of the file or
   * a malformed stream never yields partial data.
   */
  lemma BlobReadOk(f: seq<byte>, offset: nat, size: nat, clevel: byte, env: Option<seq<byte>>)
    requires BlobRead(f, offset, size, clevel, env).Ok?
    ensures offset + size <= |f|
    ensures size >= SealOverhead
    ensures var plain := DecryptData(env, ReadAt(f, offset, size).value).value;
      if clevel > 0 then Decode(plain) == Ok(BlobRead(f, offset, size, clevel, env).value)
      else plain == BlobRead(f, offset, size, clevel, env).value
  {
    var buffer := ReadAt(f, offset, size).value;
    DecryptSize(env, buffer);
  }

  /**
   * What the working-tree writer stores at level 0 is the content itself;
   * `read_blob` still decrypts it, and content shorter than a nonce is
   * rejected as `InvalidData` instead of being returned.
   */
  lemma PlainBlobUnreadable(f: seq<byte>, p: nat, data: seq<byte>, env: Option<seq<byte>>)
    requires |data| < NonceLength
    ensures BlobRead(Splice(f, p, Processed(data, 0)), p, |Processed(data, 0)|, 0, env) == Err(InvalidData)
  {
    var g := Splice(f, p, data);
    SpliceFrame(f, p, data);
    if data != [] {
      assert ReadAt(g, p, |data|) == Ok(data);
    }
    DecryptShort(env, data);
  }
}
