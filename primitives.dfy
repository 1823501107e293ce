/** Fixed-width integers, bytes and the Option/Result wrappers shared by the
    storage and the wire framing models.  Go's integer types are modelled as
    subset types of `int`; wrap-around is written out where the source's
    arithmetic can overflow. */
module Primitives {

  type byte = x: int | 0 <= x < 0x100
  type uint8 = byte
  type uint16 = x: int | 0 <= x < 0x1_0000
  type uint32 = x: int | 0 <= x < 0x1_0000_0000
  type int64 = x: int | -0x8000_0000_0000_0000 <= x < 0x8000_0000_0000_0000

  const TwoTo32: nat := 0x1_0000_0000
  const TwoTo63: nat := 0x8000_0000_0000_0000
  const TwoTo64: nat := 0x1_0000_0000_0000_0000

  datatype Option<T> = None | Some(value: T)

  datatype Result<T, E> = Ok(value: T) | Err(error: E)

  /** Two's-complement reduction to int64 of a mathematical integer at most
      one wrap away from the int64 range, which is what Go's int64 `+` and
      `-` compute for the sum or difference of two int64 values. */
  function Wrap64(x: int): (r: int64)
    requires -(TwoTo63 as int) - TwoTo64 <= x < TwoTo63 + TwoTo64
    ensures r == x || r == x - TwoTo64 || r == x + TwoTo64
    ensures -(TwoTo63 as int) <= x < TwoTo63 ==> r == x
  {
    if x >= TwoTo63 then x - TwoTo64
    else if x < -(TwoTo63 as int) then x + TwoTo64
    else x
  }

  /** Go's `uint32(x)` conversion of a non-negative int, and uint32 `+`. */
  function Wrap32(x: nat): (r: uint32)
    ensures (r - x) % TwoTo32 == 0
    ensures x < TwoTo32 ==> r == x
  {
    x % TwoTo32
  }

  lemma MulNonneg(a: int, b: int)
    requires a >= 0 && b >= 0
    ensures a * b >= 0
  {
  }

  lemma MulAtLeast(a: int, k: int)
    requires a > 0 && k >= 1
    ensures a * k >= a && a * -k <= -a
  {
    MulNonneg(a, k - 1);
    assert a * k == a * (k - 1) + a;
  }

  lemma SmallMultipleIsZero(a: int, k: int)
    requires a > 0 && -a < a * k < a
    ensures k == 0
  {
    if k >= 1 {
      MulAtLeast(a, k);
    } else if k <= -1 {
      MulAtLeast(a, -k);
    }
  }

  /** Euclidean division is unique: the quotient and remainder are fixed by
      `n == q * a + r` with `0 <= r < a`. */
  lemma DivModUnique(n: int, a: int, q: int, r: int)
    requires a > 0 && 0 <= r < a && n == q * a + r
    ensures n / a == q && n % a == r
  {
    var q0, r0 := n / a, n % a;
    assert n == q0 * a + r0;
    assert a * (q - q0) == r0 - r;
    SmallMultipleIsZero(a, q - q0);
  }
}
