// Result types, machine-width integers and octet strings shared by every module.
module Common {

  datatype Option<+T> = None | Some(value: T)

  datatype Result<+T, +E> = Ok(value: T) | Err(error: E) {
    predicate IsFailure() {
      Err?
    }

    function PropagateFailure<U>(): Result<U, E>
      requires Err?
    {
      Err(error)
    }

    function Extract(): T
      requires Ok?
    {
      value
    }
  }

  function OkOr<T, E>(o: Option<T>, error: E): Result<T, E> {
    match o
    case None => Err(error)
    case Some(v) => Ok(v)
  }

  type byte = x: int | 0 <= x < 0x100
  type u8 = x: int | 0 <= x < 0x100
  type u64 = x: int | 0 <= x < 0x1_0000_0000_0000_0000
  type i64 = x: int | -0x8000_0000_0000_0000 <= x < 0x8000_0000_0000_0000
  type i128 = x: int |
    -0x8000_0000_0000_0000_0000_0000_0000_0000 <= x < 0x8000_0000_0000_0000_0000_0000_0000_0000

  // The value of a 128-bit operation: two's complement, wrapping around.
  function Wrapped(x: int): i128 {
    (x + 0x8000_0000_0000_0000_0000_0000_0000_0000) % 0x1_0000_0000_0000_0000_0000_0000_0000_0000
    - 0x8000_0000_0000_0000_0000_0000_0000_0000
  }

  lemma InRangeIsNotWrapped(x: int)
    ensures Wrapped(x) == x <==>
      -0x8000_0000_0000_0000_0000_0000_0000_0000 <= x < 0x8000_0000_0000_0000_0000_0000_0000_0000
  {
  }

  // An octet string, of any length a CBOR head can carry (RFC 8949, section 3.1).
  type Octets = s: seq<byte> | |s| < 0x1_0000_0000_0000_0000
}
