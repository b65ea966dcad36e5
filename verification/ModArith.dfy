/** Residues and powers. */
module ModArith {
  function Pow(x: int, e: nat): int {
    if e == 0 then 1 else x * Pow(x, e - 1)
  }

  lemma SmallMultiple(n: int, k: int)
    requires n > 0 && -n < n * k < n
    ensures k == 0
  {
    assert k >= 1 ==> n * k >= n;
    assert k <= -1 ==> n * k <= -n;
  }

  lemma ModUnique(x: int, n: int, q: int, r: int)
    requires n > 0 && x == n * q + r && 0 <= r < n
    ensures x % n == r
  {
    var q', r' := x / n, x % n;
    assert n * (q - q') == n * q - n * q';
    SmallMultiple(n, q - q');
  }

  /** Numbers a multiple of `n` apart have the same residue. */
  lemma ModShift(x: int, n: int, k: int)
    requires n > 0
    ensures (x + n * k) % n == x % n
  {
    assert x + n * k == n * (x / n + k) + x % n;
    ModUnique(x + n * k, n, x / n + k, x % n);
  }

  lemma ModMulLeft(x: int, y: int, n: int)
    requires n > 0
    ensures ((x % n) * y) % n == (x * y) % n
  {
    var q, r := x / n, x % n;
    assert x * y == r * y + n * (q * y) by {
      assert x == n * q + r;
      assert (n * q + r) * y == n * q * y + r * y;
      assert n * q * y == n * (q * y);
    }
    ModShift(r * y, n, q * y);
  }

  lemma ModMul(x: int, y: int, n: int)
    requires n > 0
    ensures ((x % n) * (y % n)) % n == (x * y) % n
  {
    ModMulLeft(x, y % n, n);
    ModMulLeft(y, x, n);
    assert x * (y % n) == (y % n) * x && x * y == y * x;
  }

  /** Shifting in one bit and subtracting the modulus at most once. */
  lemma ModDouble(v: int, bit: int, n: int)
    requires n > 0 && (bit == 0 || bit == 1)
    ensures var d := 2 * (v % n) + bit; d < 2 * n && (2 * v + bit) % n == if d >= n then d - n else d
  {
    var q, r := v / n, v % n;
    var d := 2 * r + bit;
    assert v == n * q + r;
    if d >= n {
      assert 2 * v + bit == n * (2 * q + 1) + (d - n);
      ModUnique(2 * v + bit, n, 2 * q + 1, d - n);
    } else {
      assert 2 * v + bit == n * (2 * q) + d;
      ModUnique(2 * v + bit, n, 2 * q, d);
    }
  }

  lemma {:induction false} PowAdd(x: int, a: nat, b: nat)
    ensures Pow(x, a + b) == Pow(x, a) * Pow(x, b)
    decreases a
  {
    if a > 0 {
      PowAdd(x, a - 1, b);
      assert x * (Pow(x, a - 1) * Pow(x, b)) == (x * Pow(x, a - 1)) * Pow(x, b);
    }
  }

  /** A square's power is the power of the double exponent. */
  lemma {:induction false} PowSquare(x: int, e: nat)
    ensures Pow(x * x, e) == Pow(x, 2 * e)
  {
    if e > 0 {
      PowSquare(x, e - 1);
      assert Pow(x, 2 * e) == x * Pow(x, 2 * e - 1);
      assert Pow(x, 2 * e - 1) == x * Pow(x, 2 * (e - 1));
      assert (x * x) * Pow(x, 2 * (e - 1)) == x * (x * Pow(x, 2 * (e - 1)));
    }
  }

  lemma {:induction false} PowMod(x: int, e: nat, n: int)
    requires n > 0
    ensures Pow(x % n, e) % n == Pow(x, e) % n
  {
    if e > 0 {
      PowMod(x, e - 1, n);
      var p, q := Pow(x % n, e - 1), Pow(x, e - 1);
      ModMul(x % n, p, n);
      ModMul(x, q, n);
      assert (x % n) % n == x % n by { ModUnique(x % n, n, 0, x % n); }
    }
  }
}
