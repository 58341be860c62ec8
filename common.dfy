/** Types and constants shared by every component of the recorder model. */
module Common {

  /** An unsigned 8-bit value (`uint8_t`). */
  newtype byte = x: int | 0 <= x < 256

  const Uint16Modulus: nat := 0x1_0000
  const Uint32Modulus: nat := 0x1_0000_0000

  datatype Option<+T> = None | Some(value: T)

  /** `esp_err_t` values used by the core (ESP-IDF `esp_err.h`). */
  const EspOk: int := 0
  const EspFail: int := -1
  const EspErrNoMem: int := 0x101
  const EspErrInvalidState: int := 0x103

  /** `n` zero bytes, what `memset(buffer, 0, n)` leaves in a buffer. */
  function Zeros(n: nat): (r: seq<byte>)
    ensures |r| == n
    ensures forall i :: 0 <= i < n ==> r[i] == 0
  {
    seq(n, _ => 0)
  }

  function Min(a: nat, b: nat): nat { if a <= b then a else b }

  /** The first `n` bytes of `s`, or all of `s` when it is shorter. */
  function Take(s: seq<byte>, n: nat): (r: seq<byte>)
    ensures |r| == Min(|s|, n)
    ensures r == s[..|r|]
  {
    if |s| <= n then s else s[..n]
  }

}
