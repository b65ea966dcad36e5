/** Types and small functions used throughout. */
module Common {
  const U32: nat := 0x1_0000_0000
  const U64: nat := 0x1_0000_0000_0000_0000

  type byte = x: int | 0 <= x < 256
  type u32 = x: int | 0 <= x < 0x1_0000_0000

  datatype Option<+T> = None | Some(value: T)

  function Max(a: int, b: int): int { if a >= b then a else b }
  function Min(a: int, b: int): int { if a <= b then a else b }

  /** One less, stopping at zero. */
  function Dec(n: nat): nat { if n > 0 then n - 1 else 0 }

  function TwoTo(n: nat): (p: nat)
    ensures p >= 1
  {
    if n == 0 then 1 else 2 * TwoTo(n - 1)
  }

  lemma TwoToZero()
    ensures TwoTo(0) == 1
  {
  }

  function Shr(x: nat, k: nat): nat
    decreases k
  {
    if k == 0 then x else Shr(x / 2, k - 1)
  }

  lemma {:induction false} ShrNext(x: nat, k: nat)
    ensures Shr(x, k + 1) == Shr(x, k) / 2
    decreases k
  {
    if k > 0 { ShrNext(x / 2, k - 1); }
  }

  lemma ShrByte(x: nat)
    requires x < 256
    ensures Shr(x, 8) == 0
  {
    assert Shr(x, 4) == x / 2 / 2 / 2 / 2;
    assert Shr(x, 8) == Shr(x / 2 / 2 / 2 / 2, 4);
  }
}
