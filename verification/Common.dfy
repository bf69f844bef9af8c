/** Types shared by every component: optional and fallible results, octets, hash functions. */
module Common {

  datatype Option<+T> = None | Some(value: T) {
    predicate IsFailure() { None? }

    function PropagateFailure<U>(): Option<U>
      requires None?
    {
      None
    }

    function Extract(): T
      requires Some?
    {
      value
    }
  }

  datatype Result<+T, +E> = Ok(value: T) | Err(error: E)

  /** One octet of a Buffer. */
  type Byte = b: int | 0 <= b < 256

  type Bytes = seq<Byte>

  /** One UTF-16 code unit of a JavaScript string. */
  type CodeUnit = u: int | 0 <= u < 0x1_0000

  type JsString = seq<CodeUnit>

  /** A JavaScript number, as far as `Number.isInteger` tells values apart:
      fractions, infinities and NaN are all `NonInteger`. */
  datatype JsNumber = Integer(value: int) | NonInteger

  predicate IsLowerHexUnit(u: CodeUnit) { 0x30 <= u <= 0x39 || 0x61 <= u <= 0x66 }

  /** A hexadecimal digit in lower case. */
  function HexUnit(n: nat): (u: CodeUnit)
    requires n < 16
    ensures IsLowerHexUnit(u)
  {
    if n < 10 then 0x30 + n else 0x61 + n - 10
  }

  function Pow2(d: nat): (p: nat)
    ensures p > 0
  {
    if d == 0 then 1 else 2 * Pow2(d - 1)
  }

  const MAX_SAFE_INTEGER: int := 9007199254740991

  /** A SHA-256 output. */
  type Digest = d: Bytes | |d| == 32 witness seq(32, _ => 0)

  /** Any function from octet strings to 32-octet digests; SHA-256 is one. */
  type HashFunction = Bytes -> Digest

  /** Two different octet strings with one digest. */
  predicate IsCollision(H: HashFunction, pair: (Bytes, Bytes)) {
    pair.0 != pair.1 && H(pair.0) == H(pair.1)
  }
}
