/** Bytes, fixed-width little-endian integers and the result types shared by the archive engine. */
module Common {

  /** A `u8`. */
  type byte = b: int | 0 <= b < 256

  const U32Bound: nat := 0x1_0000_0000
  const U64Bound: nat := 0x1_0000_0000_0000_0000
  /** `u64::MAX`, the largest file position or length. */
  const U64Max: nat := U64Bound - 1

  type u32 = n: nat | n < 0x1_0000_0000
  type u64 = n: nat | n < 0x1_0000_0000_0000_0000

  datatype Option<T> = None | Some(value: T)

  datatype Result<T, E> = Ok(value: T) | Err(error: E)
  {
    predicate IsFailure()
    {
      Err?
    }

    function PropagateFailure<U>(): Result<U, E>
      requires Err?
    {
      Err(error)
    }

    function Extract(): T
      requires Ok?
    {
      value
    }
  }

  /** Output already produced, in front of the outcome of producing the rest. */
  function Prepend<T, E>(prefix: seq<T>, rest: Result<seq<T>, E>): (r: Result<seq<T>, E>)
    ensures r.Ok? <==> rest.Ok?
    ensures r.Err? ==> r == rest
  {
    match rest
    case Ok(tail) => Ok(prefix + tail)
    case Err(e) => Err(e)
  }

  lemma PrependEmpty<T, E>(rest: Result<seq<T>, E>)
    ensures Prepend([], rest) == rest
  {
    if rest.Ok? {
      assert [] + rest.value == rest.value;
    }
  }

  lemma PrependNothing<T, E>(prefix: seq<T>)
    ensures Prepend<T, E>(prefix, Ok([])) == Ok(prefix)
  {
    assert prefix + [] == prefix;
  }

  lemma PrependPrepend<T, E>(a: seq<T>, b: seq<T>, rest: Result<seq<T>, E>)
    ensures Prepend(a, Prepend(b, rest)) == Prepend(a + b, rest)
  {
    if rest.Ok? {
      assert a + (b + rest.value) == (a + b) + rest.value;
    }
  }

  /** The `io::ErrorKind` values the engine reports. */
  datatype ErrorKind =
    | NotFound
    | InvalidInput
    | InvalidData
    | PermissionDenied
    | UnexpectedEof

  function Pow256(n: nat): (p: nat)
    ensures p >= 1
  {
    if n == 0 then 1 else 256 * Pow256(n - 1)
  }

  lemma Pow256Widths()
    ensures Pow256(4) == U32Bound && Pow256(8) == U64Bound
  {
  }

  /** `n.to_le_bytes()` for an unsigned integer `width` bytes wide. */
  function ToLE(n: nat, width: nat): (r: seq<byte>)
    requires n < Pow256(width)
    ensures |r| == width
  {
    if width == 0 then [] else [n % 256] + ToLE(n / 256, width - 1)
  }

  /** `(n as u32).to_le_bytes()`: the cast keeps the low 32 bits. */
  function LE32(n: nat): (r: seq<byte>)
    ensures |r| == 4
  {
    Pow256Widths();
    ToLE(n % U32Bound, 4)
  }

  /** `n.to_le_bytes()` for a `u64`; values of 2^64 or more keep their low 64 bits. */
  function LE64(n: nat): (r: seq<byte>)
    ensures |r| == 8
  {
    Pow256Widths();
    ToLE(n % U64Bound, 8)
  }

  /** `uN::from_le_bytes(s)`. */
  function FromLE(s: seq<byte>): (n: nat)
    ensures n < Pow256(|s|)
  {
    if s == [] then 0 else s[0] + 256 * FromLE(s[1..])
  }

  /** Decoding inverts encoding ... */
  lemma {:induction false} FromToLE(n: nat, width: nat)
    requires n < Pow256(width)
    ensures FromLE(ToLE(n, width)) == n
  {
    if width > 0 {
      FromToLE(n / 256, width - 1);
      assert ToLE(n, width)[1..] == ToLE(n / 256, width - 1);
    }
  }

  /** ... and encoding inverts decoding: every `width` bytes are the encoding of some value. */
  lemma {:induction false} ToFromLE(s: seq<byte>)
    ensures ToLE(FromLE(s), |s|) == s
  {
    if s != [] {
      var m := FromLE(s[1..]);
      var n := FromLE(s);
      ToFromLE(s[1..]);
      assert n == s[0] + 256 * m;
      assert n % 256 == s[0] && n / 256 == m;
      assert ToLE(n, |s|) == [s[0]] + ToLE(m, |s| - 1);
      assert s == [s[0]] + s[1..];
    }
  }

  /** Reading back a 32-bit field gives the value modulo 2^32 ... */
  lemma LE32Inverse(n: nat)
    ensures FromLE(LE32(n)) == n % U32Bound
  {
    Pow256Widths();
    FromToLE(n % U32Bound, 4);
  }

  /** ... and a 64-bit field the value modulo 2^64. */
  lemma LE64Inverse(n: nat)
    ensures FromLE(LE64(n)) == n % U64Bound
  {
    Pow256Widths();
    FromToLE(n % U64Bound, 8);
  }

  function Zeros(n: nat): (z: seq<byte>)
    ensures |z| == n && forall i :: 0 <= i < n ==> z[i] == 0
  {
    seq(n, _ => 0)
  }

  function Max(a: nat, b: nat): nat
  {
    if a < b then b else a
  }
}
