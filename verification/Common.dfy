/** Machine words and the outcomes shared by all components of the kernel. */
module Common {
  const U32 := 0x1_0000_0000
  const PAGE := 4096

  type byte = x: int | 0 <= x < 256
  type u16 = x: int | 0 <= x < 0x1_0000
  type u32 = x: int | 0 <= x < 0x1_0000_0000

  datatype Option<+T> = None | Some(value: T)

  /** The outcome of an operation that may call `panic`, which never returns. */
  datatype Result<+T> = Ok(value: T) | Panic

  function Min(a: nat, b: nat): nat {
    if a < b then a else b
  }

  /** The place d places after c in cyclic order on n places. */
  function Hop(c: nat, d: nat, n: nat): nat
    requires c < n && d <= n
  {
    if c + d < n then c + d else c + d - n
  }

  /** Places from c to i in cyclic order. */
  function Distance(c: nat, i: nat, n: nat): (d: nat)
    requires c < n && i < n
    ensures d < n && Hop(c, d, n) == i
  {
    if c <= i then i - c else i + n - c
  }
}
