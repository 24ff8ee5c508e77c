/**
 * The encryption layer the package writer and the reader call
 * (target/package/shoko-0.1.1-rc1/src/encrypt.rs).
 *
 * The real layer is AES-256-GCM from the `aes_gcm` crate with a random
 * 12-byte nonce and a key taken from the `SHOKO_KEY` environment variable.
 * Here the environment variable is a parameter, the nonce is a parameter,
 * and the cipher is a simple keyed stand-in with the same framing: the
 * sealed form is the nonce, then a ciphertext as long as the plaintext,
 * then a 16-byte tag that opening checks. What the archive relies on is
 * kept exactly: the key checks and their error kinds, the 12-byte length
 * check, the framing sizes, and that opening inverts sealing.
 */
module Cipher {
  import opened Common

  const KeyLength: nat := 32
  const NonceLength: nat := 12
  const TagLength: nat := 16
  /** Sealing adds the nonce in front and the tag behind. */
  const SealOverhead: nat := NonceLength + TagLength

  type Nonce = s: seq<byte> | |s| == NonceLength
    witness [0, 0, 0, 0, 0, 0, 0, 0, 0, 0, 0, 0]

  /**
   * `get_encryption_key`: an unset `SHOKO_KEY` is `PermissionDenied`, a
   * value that is not 32 bytes long is `InvalidInput`.
   */
  function GetKey(env: Option<seq<byte>>): (r: Result<seq<byte>, ErrorKind>)
    ensures r.Ok? <==> env.Some? && |env.value| == KeyLength
    ensures r.Ok? ==> r.value == env.value
    ensures env.None? ==> r == Err(PermissionDenied)
    ensures env.Some? && |env.value| != KeyLength ==> r == Err(InvalidInput)
  {
    match env
    case None => Err(PermissionDenied)
    case Some(k) => if |k| != KeyLength then Err(InvalidInput) else Ok(k)
  }

  /** The key stream byte for position `i`. */
  function KeyStream(key: seq<byte>, nonce: Nonce, i: nat): byte
    requires |key| == KeyLength
  {
    (key[i % KeyLength] + nonce[i % NonceLength] + i) % 256
  }

  function Mask(key: seq<byte>, nonce: Nonce, x: seq<byte>): (c: seq<byte>)
    requires |key| == KeyLength
    ensures |c| == |x|
  {
    seq(|x|, i requires 0 <= i < |x| => (x[i] + KeyStream(key, nonce, i)) % 256)
  }

  function Unmask(key: seq<byte>, nonce: Nonce, c: seq<byte>): (x: seq<byte>)
    requires |key| == KeyLength
    ensures |x| == |c|
  {
    seq(|c|, i requires 0 <= i < |c| => (c[i] - KeyStream(key, nonce, i)) % 256)
  }

  function Sum(c: seq<byte>): nat
  {
    if c == [] then 0 else c[0] + Sum(c[1..])
  }

  /** The authentication tag over the ciphertext; every byte of the key enters it. */
  function Tag(key: seq<byte>, nonce: Nonce, c: seq<byte>): (t: seq<byte>)
    requires |key| == KeyLength
    ensures |t| == TagLength
  {
    seq(TagLength, j requires 0 <= j < TagLength => (key[j] + key[j + TagLength] + nonce[j % NonceLength] + Sum(c) + j) % 256)
  }

  /** Sealing: nonce, then ciphertext, then tag. */
  function Seal(key: seq<byte>, nonce: Nonce, x: seq<byte>): (s: seq<byte>)
    requires |key| == KeyLength
  {
    nonce + Mask(key, nonce, x) + Tag(key, nonce, Mask(key, nonce, x))
  }

  /** Opening a sealed form of at least 12 bytes: a missing or wrong tag is `PermissionDenied`. */
  function Unseal(key: seq<byte>, s: seq<byte>): (r: Result<seq<byte>, ErrorKind>)
    requires |key| == KeyLength && |s| >= NonceLength
  {
    var nonce: Nonce := s[..NonceLength];
    var body := s[NonceLength..];
    if |body| < TagLength then Err(PermissionDenied)
    else
      var c := body[..|body| - TagLength];
      if body[|body| - TagLength..] != Tag(key, nonce, c) then Err(PermissionDenied)
      else Ok(Unmask(key, nonce, c))
  }

  /** `encrypt_data`: fails only when the key is unusable. */
  function EncryptData(env: Option<seq<byte>>, nonce: Nonce, x: seq<byte>): (r: Result<seq<byte>, ErrorKind>)
    ensures r.Ok? <==> GetKey(env).Ok?
    ensures r.Err? ==> r.error == GetKey(env).error
    ensures r.Ok? ==> |r.value| == |x| + SealOverhead && r.value[..NonceLength] == nonce
  {
    match GetKey(env)
    case Err(e) => Err(e)
    case Ok(key) => Ok(Seal(key, nonce, x))
  }

  /** `decrypt_data`: fewer than 12 bytes is `InvalidData`, checked before the key. */
  function DecryptData(env: Option<seq<byte>>, s: seq<byte>): (r: Result<seq<byte>, ErrorKind>)
    ensures |s| < NonceLength ==> r == Err(InvalidData)
    ensures |s| >= NonceLength && GetKey(env).Err? ==> r == Err(GetKey(env).error)
    ensures r.Ok? ==> GetKey(env).Ok? && |r.value| + SealOverhead == |s|
  {
    if |s| < NonceLength then Err(InvalidData)
    else
      match GetKey(env)
      case Err(e) => Err(e)
      case Ok(key) => Unseal(key, s)
  }

  lemma UnmaskMask(key: seq<byte>, nonce: Nonce, x: seq<byte>)
    requires |key| == KeyLength
    ensures Unmask(key, nonce, Mask(key, nonce, x)) == x
  {
    var c := Mask(key, nonce, x);
    forall i | 0 <= i < |x|
      ensures Unmask(key, nonce, c)[i] == x[i]
    {
      var p: int := KeyStream(key, nonce, i);
      var b: int := x[i];
      assert c[i] == (b + p) % 256;
      assert ((b + p) % 256 - p) % 256 == b;
    }
  }

  /**
   * Encryption fails exactly when the key is unusable, and otherwise adds
   * 28 bytes; decrypting what was encrypted under the same key gives the
   * plaintext back.
   */
  lemma EncryptDecrypt(env: Option<seq<byte>>, nonce: Nonce, x: seq<byte>)
    ensures EncryptData(env, nonce, x).Ok? <==> GetKey(env).Ok?
    ensures EncryptData(env, nonce, x).Ok? ==>
      |EncryptData(env, nonce, x).value| == |x| + SealOverhead &&
      DecryptData(env, EncryptData(env, nonce, x).value) == Ok(x)
  {
    if GetKey(env).Ok? {
      var key := GetKey(env).value;
      var c := Mask(key, nonce, x);
      var s := Seal(key, nonce, x);
      assert s[..NonceLength] == nonce;
      assert s[NonceLength..] == c + Tag(key, nonce, c);
      assert (c + Tag(key, nonce, c))[..|c|] == c;
      UnmaskMask(key, nonce, x);
    }
  }

  /** A successful decryption removes exactly the 28 bytes of framing. */
  lemma DecryptSize(env: Option<seq<byte>>, s: seq<byte>)
    requires DecryptData(env, s).Ok?
    ensures |DecryptData(env, s).value| + SealOverhead == |s|
  {
  }

  /** Data shorter than a nonce never decrypts, whatever the key. */
  lemma DecryptShort(env: Option<seq<byte>>, s: seq<byte>)
    requires |s| < NonceLength
    ensures DecryptData(env, s) == Err(InvalidData)
  {
  }
}
