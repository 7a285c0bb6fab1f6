/** Machine integers and the two result shapes shared by every component. */
module Common {

  type byte = x: int | 0 <= x < 0x100
  type u16 = x: int | 0 <= x < 0x1_0000
  type u32 = x: int | 0 <= x < 0x1_0000_0000
  type u64 = x: int | 0 <= x < 0x1_0000_0000_0000_0000

  const TWO_32 := 0x1_0000_0000

  /** The largest `Duration`, in nanoseconds. */
  const DURATION_MAX: nat := 0xFFFF_FFFF_FFFF_FFFF * 1_000_000_000 + 999_999_999

  type Duration = d: int | 0 <= d <= DURATION_MAX

  datatype Option<+T> = None | Some(value: T)

  datatype Result<+T, +E> = Ok(value: T) | Err(error: E)

  /** The `as u32` cast: keep the low 32 bits. */
  function TruncateU32(n: nat): (r: u32)
    ensures n < TWO_32 ==> r == n
    ensures n >= TWO_32 ==> r < n
    ensures (n - r) % 0x1_0000_0000 == 0
  {
    n % TWO_32
  }

  lemma {:induction false} ProductsOrdered(p: nat, q: nat, n: nat)
    ensures p > q ==> p * n >= q * n + n
  {
    if p > q {
      ProductsOrdered(p - 1, q, n);
      assert p * n == (p - 1) * n + n;
    }
  }
}
