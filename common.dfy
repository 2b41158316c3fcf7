/** Go-level value types shared by the binding and the command-line tool:
    byte and integer widths, native handles, and the errors the binding returns. */
module Common {

  /** Go's byte (uint8). */
  type byte = x: int | 0 <= x < 0x100

  /** Go's uint32 and C's unsigned int. */
  type uint32 = x: int | 0 <= x < 0x1_0000_0000

  /** Bounds of Go's 64-bit int. */
  const MIN_INT: int := -0x8000_0000_0000_0000
  const MAX_INT: int := 0x7fff_ffff_ffff_ffff

  /** Go's int on a 64-bit platform. */
  type GoInt = x: int | MIN_INT <= x <= MAX_INT

  datatype Option<T> = None | Some(value: T)

  /** A native pointer, only ever compared with nil and handed back to the library. */
  datatype Ptr = Nil | Addr(addr: nat)

  /** The liq_error code libimagequant returns on success. */
  const LIQ_OK: int := 0

  /** The errors the binding hands back to Go callers. */
  datatype Error =
    | ErrUseAfterFree        // remapping against an image that was released
    | ErrValueOutOfRange     // palette index outside [0, Count())
    | ErrInvalidArgument     // the library refused to create an image
    | LiqError(code: int)    // a non-OK liq_error code after translation

  /** What Go's make([]byte, n) hands out: n zero bytes. */
  function Zeros(n: nat): (z: seq<byte>)
    ensures |z| == n && forall i | 0 <= i < n :: z[i] == 0
  {
    seq(n, _ => 0)
  }
}
