/** Declarations that several modules share. */
module Common {

  /** Unsigned 32-bit numbers wrap at M. */
  const M: nat := 0x1_0000_0000

  type u32 = x: int | 0 <= x < M

  function Min(a: int, b: int): int {
    if a < b then a else b
  }

  /** Concatenation is associative. */
  lemma Associative<T>(a: seq<T>, b: seq<T>, c: seq<T>)
    ensures (a + b) + c == a + (b + c)
  {
  }
}
