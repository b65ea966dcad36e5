/**
 2048-bit modular arithmetic in 64 limbs: schoolbook product, bit-by-bit
 reduction, square-and-multiply.
 */
module Bignum {
  import opened Common
  import opened Limbs
  import opened ModArith

  const LIMBS: nat := 64

  type BigNum = s: seq<u32> | |s| == LIMBS witness seq(LIMBS, _ => 0)

  /** One row of the product; the carry past the row is returned. */
  method MulRow(r0: seq<u32>, x: u32, b: BigNum, i: nat) returns (r: seq<u32>, carry: u32)
    requires |r0| == 2 * LIMBS && i < LIMBS
    ensures |r| == |r0| && (forall k :: i + LIMBS <= k < |r| ==> r[k] == r0[k])
    ensures Val32(r) == Val32(r0) + (x * W(i)) * Val32(b) - carry * W(i + LIMBS)
  {
    hide Val, W;
    r, carry := r0, 0;
    assert b[..0] == [];
    ValZeros([]);
    for j := 0 to LIMBS
      invariant |r| == |r0| && (forall k :: i + j <= k < |r| ==> r[k] == r0[k])
      invariant Val32(r) == Val32(r0) + (x * W(i)) * Val32(b[..j]) - carry * W(i + j)
    {
      var prod := x * b[j] + r[i + j] + carry;
      ProdFits(x, b[j], r[i + j], carry);
      ValUpdate(r, i + j, prod % B);
      assert b[..j + 1] == b[..j] + [b[j]];
      ValSnoc(b[..j], b[j]);
      RowStep(x, W(i), Val32(b[..j]), b[j], W(j), r[i + j], carry, W(i + j), W(i + j + 1), prod) by { WAdd(i, j); WNext(i + j); }
      r, carry := r[i + j := prod % B], prod / B;
    }
    assert b[..LIMBS] == b;
  }

  lemma WNext(i: nat)
    ensures W(i + 1) == B * W(i)
  {
  }

  /** The row product fits 64 bits, so its carry fits a limb. */
  lemma ProdFits(x: u32, y: u32, r: u32, c: u32)
    ensures 0 <= x * y + r + c < B * B
    ensures 0 <= (x * y + r + c) / B < B
  {
    MulBound(x, y, B - 1);
  }

  lemma RowStep(x: int, wi: int, vb: int, y: int, wj: int, o: int, c: int, w: int, w1: int, prod: int)
    requires w == wi * wj && w1 == B * w && prod == x * y + o + c
    ensures (x * wi) * (vb + y * wj) - (prod / B) * w1 == (x * wi) * vb + (prod % B - o) * w - c * w
  {
    var q, m := prod / B, prod % B;
    assert prod == q * B + m;
    assert (x * wi) * (vb + y * wj) == (x * wi) * vb + (x * y) * w;
    assert (x * y) * w == (prod - o - c) * w;
    assert q * (B * w) == (q * B) * w;
    assert (prod - o - c) * w - (q * B) * w == (m - o - c) * w;
    assert (m - o - c) * w == (m - o) * w - c * w;
  }

  /** `bn_mul_full`: no carry is lost, because the limb a row ends in was still zero. */
  method MulFull(a: BigNum, b: BigNum) returns (r: seq<u32>)
    ensures |r| == 2 * LIMBS && Val32(r) == Val32(a) * Val32(b)
  {
    hide Val, W;
    r := seq(2 * LIMBS, _ => 0);
    ValZeros(r);
    assert a[..0] == [];
    ValZeros([]);
    for i := 0 to LIMBS
      invariant |r| == 2 * LIMBS && (forall k :: i + LIMBS <= k < |r| ==> r[k] == 0)
      invariant Val32(r) == Val32(a[..i]) * Val32(b)
    {
      var carry: u32;
      r, carry := MulRow(r, a[i], b, i);
      var top: u32 := (r[i + LIMBS] + carry) % B;
      assert top == carry;
      ValUpdate(r, i + LIMBS, top);
      r := r[i + LIMBS := top];
      assert a[..i + 1] == a[..i] + [a[i]];
      ValSnoc(a[..i], a[i]);
      assert (Val32(a[..i]) + a[i] * W(i)) * Val32(b) == Val32(a[..i]) * Val32(b) + (a[i] * W(i)) * Val32(b);
    }
    assert a[..LIMBS] == a;
  }

  // ---------------------------------------------------------------- reduction

  /** Shift the remainder left by one bit. */
  method ShiftIn(rem0: seq<u32>, bit: u32) returns (rem: seq<u32>)
    requires |rem0| == LIMBS + 1 && bit <= 1 && Val32(rem0) < W(LIMBS)
    ensures |rem| == |rem0| && Val32(rem) == 2 * Val32(rem0) + bit
  {
    hide Val, W;
    var carry: u32 := bit;
    rem := [];
    assert rem0[..0] == [];
    ValZeros([]);
    WZero();
    for j := 0 to LIMBS + 1
      invariant |rem| == j && carry <= 1
      invariant Val32(rem) == 2 * Val32(rem0[..j]) + bit - carry * W(j)
    {
      var nc: u32 := rem0[j] / 0x8000_0000;
      ShiftFits(rem0[j], carry);
      var x: u32 := (2 * rem0[j]) % B + carry;
      ValSnoc(rem, x);
      ValSnoc(rem0[..j], rem0[j]);
      assert rem0[..j + 1] == rem0[..j] + [rem0[j]];
      WNext(j);
      ShiftStep(rem0[j], carry, x, nc, W(j));
      rem, carry := rem + [x], nc;
    }
    assert rem0[..LIMBS + 1] == rem0;
    ValBound(rem);
    WNext(LIMBS);
    TopZero(Val32(rem), carry, B * W(LIMBS), 2 * Val32(rem0) + bit);
  }

  /** The shifted limb has a zero at the bottom for the carry. */
  lemma ShiftFits(y: u32, c: u32)
    requires c <= 1
    ensures 0 <= (2 * y) % B + c < B && 2 * y + c == (2 * y) % B + c + (y / 0x8000_0000) * B && y / 0x8000_0000 <= 1
  {
    if y < 0x8000_0000 {
      assert (2 * y) % B == 2 * y;
    } else {
      assert (2 * y) % B == 2 * y - B;
    }
  }

  lemma WZero()
    ensures W(0) == 1
  {
  }

  lemma ShiftStep(y: int, c: int, x: int, nc: int, w: int)
    requires 2 * y + c == x + nc * B
    ensures x * w == 2 * (y * w) + c * w - nc * (B * w)
  {
    assert (2 * y + c) * w == (x + nc * B) * w;
  }

  /** Subtract the modulus once if the shifted remainder reached it, top limb included. */
  method SubtractOnce(rem0: seq<u32>, n: BigNum) returns (rem: seq<u32>)
    requires |rem0| == LIMBS + 1 && Val32(rem0) < 2 * Val32(n)
    ensures |rem| == LIMBS + 1
    ensures Val32(rem) == if Val32(rem0) >= Val32(n) then Val32(rem0) - Val32(n) else Val32(rem0)
  {
    hide Val, W;
    var hi, temp: BigNum := rem0[LIMBS], rem0[..LIMBS];
    assert rem0 == temp + [hi];
    ValSnoc(temp, hi);
    ValBound(n);
    ValBound(temp);
    var o := Cmp(temp, n);
    rem := rem0;
    assert hi >= 1 ==> hi * W(LIMBS) >= W(LIMBS);
    if hi != 0 || !o.Less? {
      var sub, borrow := SubLimbs(temp, n);
      ValBound(sub);
      SubFits(Val32(temp), hi, borrow, Val32(n), W(LIMBS));
      rem := sub + [0];
      ValSnoc(sub, 0);
    }
  }

  /** The borrow out of the subtraction is the top limb. */
  lemma SubFits(t: int, hi: int, borrow: int, n: int, w: int)
    requires 0 <= t < w && 0 <= n < w && hi >= 0 && n <= t + hi * w < 2 * n
    requires (borrow == 0 || borrow == 1) && 0 <= t - n + borrow * w < w
    ensures borrow == hi
  {
    assert hi >= 2 ==> hi * w >= 2 * w;
  }

  lemma TwoTo32()
    ensures TwoTo(32) == B
  {
    assert TwoTo(8) == 256;
    assert TwoTo(16) == 65536;
    assert TwoTo(24) == 16777216;
  }

  lemma {:induction false} TwoToPositive(k: nat)
    ensures TwoTo(k) >= 1
  {
    if k > 0 { TwoToPositive(k - 1); }
  }

  /** Bit `k` is what halving the higher part leaves over. */
  lemma BitSplit(x: nat, k: nat)
    ensures TwoTo(k) >= 1 && x / TwoTo(k) == 2 * (x / TwoTo(k + 1)) + (x / TwoTo(k)) % 2
  {
    TwoToPositive(k);
    HalfAgain(x, TwoTo(k));
  }

  lemma HalfAgain(x: nat, m: nat)
    requires m >= 1
    ensures (x / m) / 2 == x / (2 * m)
  {
    var q, r := x / m, x % m;
    var h, b := q / 2, q % 2;
    assert x == m * q + r && q == 2 * h + b;
    assert x == (2 * m) * h + (m * b + r) by {
      assert m * (2 * h + b) == (2 * m) * h + m * b;
    }
    assert 0 <= m * b + r < 2 * m;
    DivUnique(x, 2 * m, h, m * b + r);
  }

  lemma DivUnique(x: int, n: int, q: int, r: int)
    requires n > 0 && x == n * q + r && 0 <= r < n
    ensures x / n == q
  {
    ModUnique(x, n, q, r);
    assert n * (x / n) == n * q;
    assert n * (x / n - q) == 0;
    SmallMultiple(n, x / n - q);
  }

  /** One limb of the dividend: 32 doublings, the remainder below the modulus after every bit. */
  method ReduceLimb(rem0: seq<u32>, limb: u32, n: BigNum) returns (rem: seq<u32>)
    requires |rem0| == LIMBS + 1 && Val32(n) > 0 && Val32(rem0) < Val32(n)
    ensures |rem| == LIMBS + 1 && Val32(rem) == (Val32(rem0) * B + limb) % Val32(n)
  {
    hide Val, W, TwoTo;
    ghost var v, m := Val32(rem0), Val32(n);
    ValBound(n);
    ValBound(rem0);
    rem := rem0;
    ModUnique(v, m, 0, v);
    LimbStart(v, limb);
    var bit := 32;
    while bit > 0
      invariant 0 <= bit <= 32 && |rem| == LIMBS + 1 && TwoTo(bit) >= 1
      invariant Val32(rem) < m && Val32(rem) == (v * TwoTo(32 - bit) + limb / TwoTo(bit)) % m
    {
      bit := bit - 1;
      LimbStep(v, limb, bit);
      var next := BitAt(limb, bit);
      ModDouble(v * TwoTo(31 - bit) + limb / TwoTo(bit + 1), next, m);
      rem := ShiftIn(rem, next);
      rem := SubtractOnce(rem, n);
    }
    LimbEnd(v, limb);
  }

  function BitAt(x: u32, k: nat): (b: u32)
    ensures b <= 1
  {
    TwoToPositive(k);
    (x / TwoTo(k)) % 2
  }

  lemma LimbStart(v: int, limb: u32)
    ensures TwoTo(32) >= 1 && v * TwoTo(0) + limb / TwoTo(32) == v
  {
    TwoTo32();
  }

  lemma LimbStep(v: int, limb: u32, k: nat)
    requires k < 32
    ensures TwoTo(k) >= 1 && TwoTo(k + 1) >= 1
    ensures v * TwoTo(32 - k) + limb / TwoTo(k) == 2 * (v * TwoTo(31 - k) + limb / TwoTo(k + 1)) + BitAt(limb, k)
  {
    TwoToPositive(k + 1);
    BitSplit(limb, k);
    assert TwoTo(32 - k) == 2 * TwoTo(31 - k);
    assert v * (2 * TwoTo(31 - k)) == 2 * (v * TwoTo(31 - k));
  }

  lemma LimbEnd(v: int, limb: u32)
    ensures TwoTo(0) >= 1 && v * TwoTo(32) + limb / TwoTo(0) == v * B + limb
  {
    TwoTo32();
  }

  /** `bn_reduce_double`. */
  method ReduceDouble(x: seq<u32>, n: BigNum) returns (res: BigNum)
    requires |x| == 2 * LIMBS && Val32(n) > 0
    ensures Val32(res) == Val32(x) % Val32(n)
  {
    hide Val, W;
    var rem: seq<u32> := seq(LIMBS + 1, _ => 0);
    ValZeros(rem);
    assert x[2 * LIMBS..] == [];
    ValZeros([]);
    var i := 2 * LIMBS;
    while i > 0
      invariant 0 <= i <= 2 * LIMBS && |rem| == LIMBS + 1
      invariant Val32(rem) == Val32(x[i..]) % Val32(n)
    {
      i := i - 1;
      assert x[i..] == [x[i]] + x[i + 1..];
      ValConcat([x[i]], x[i + 1..]);
      SingleVal(x[i]);
      ghost var v, m := Val32(x[i + 1..]), Val32(n);
      rem := ReduceLimb(rem, x[i], n);
      ModStep(v, x[i], m);
    }
    assert x[0..] == x;
    res := rem[..LIMBS];
    assert rem == rem[..LIMBS] + [rem[LIMBS]];
    ValSnoc(rem[..LIMBS], rem[LIMBS]);
    ValBound(res);
    ValBound(n);
    TopZero(Val32(res), rem[LIMBS], W(LIMBS), Val32(rem));
  }

  lemma SingleVal(x: int)
    ensures Val([x]) == x && W(1) == B
  {
    ValSnoc([], x);
  }

  lemma ModStep(v: int, x: int, m: int)
    requires m > 0
    ensures ((v % m) * B + x) % m == (x + B * v) % m
  {
    var q := v / m;
    assert v == m * q + v % m;
    assert x + B * v == ((v % m) * B + x) + m * (q * B) by {
      assert B * (m * q + v % m) == m * (q * B) + (v % m) * B;
    }
    ModShift((v % m) * B + x, m, q * B);
  }

  // ---------------------------------------------------------------- products and powers

  /** `bn_mulmod`. */
  method MulMod(a: BigNum, b: BigNum, n: BigNum) returns (r: BigNum)
    requires Val32(n) > 0
    ensures Val32(r) == (Val32(a) * Val32(b)) % Val32(n)
  {
    var full := MulFull(a, b);
    r := ReduceDouble(full, n);
  }

  /** `bn_powmod_u32`: the power, except that with modulus one and exponent zero it is one and not zero. */
  method PowModU32(base: BigNum, exp: u32, n: BigNum) returns (r: BigNum)
    requires Val32(n) > 0
    ensures Val32(r) == Pow(Val32(base), exp) % Val32(n) <==> exp > 0 || Val32(n) > 1
    ensures exp == 0 && Val32(n) == 1 ==> Val32(r) == 1
  {
    hide Val, W, Pow;
    ghost var m, x := Val32(n), Val32(base);
    r := [1] + seq(LIMBS - 1, _ => 0);
    One();
    var b, e: nat := base, exp;
    PowStart(x, exp);
    while e > 0
      invariant (Val32(r) * Pow(Val32(b), e)) % m == Pow(x, exp) % m
      invariant (Val32(r) == 1 || Val32(r) < m) && (e == exp ==> Val32(r) == 1)
      invariant e <= exp && (e == 0 && exp > 0 ==> Val32(r) < m)
    {
      ghost var r0, b0 := Val32(r), Val32(b);
      if e % 2 != 0 {
        r := MulMod(r, b, n);
      }
      b := MulMod(b, b, n);
      PowLoop(r0, b0, e, m);
      e := e / 2;
    }
    PowEnd(Val32(r), Val32(b), m);
    ValBound(r);
    assert exp == 0 ==> Pow(x, exp) == 1 by { PowZero(x); }
  }

  lemma One()
    ensures Val32([1] + seq(LIMBS - 1, _ => 0)) == 1
  {
    SingleVal(1);
    var z := seq(LIMBS - 1, _ => 0);
    ValZeros(z);
    ValConcat([1], z);
  }

  lemma PowZero(x: int)
    ensures Pow(x, 0) == 1
  {
  }

  lemma PowStart(x: int, e: nat)
    ensures 1 * Pow(x, e) == Pow(x, e)
  {
  }

  lemma PowEnd(r: int, b: int, m: int)
    requires m > 0
    ensures (r * Pow(b, 0)) % m == r % m && (0 <= r < m ==> r % m == r)
  {
    if 0 <= r < m { ModUnique(r, m, 0, r); }
  }

  /** One turn of square-and-multiply keeps the product. */
  lemma PowLoop(r: int, b: int, e: nat, m: int)
    requires m > 0
    ensures var r' := if e % 2 != 0 then (r * b) % m else r;
            (r' * Pow((b * b) % m, e / 2)) % m == (r * Pow(b, e)) % m
  {
    var k := e / 2;
    var q := Pow((b * b) % m, k);
    PowMod(b * b, k, m);
    PowSquare(b, k);
    assert q % m == Pow(b, 2 * k) % m;
    if e % 2 != 0 {
      assert Pow(b, e) == b * Pow(b, 2 * k);
      SameResidue((r * b) % m, r * b, q, Pow(b, 2 * k), m);
      assert (r * b) * Pow(b, 2 * k) == r * (b * Pow(b, 2 * k));
    } else {
      assert e == 2 * k;
      SameResidue(r, r, q, Pow(b, 2 * k), m);
    }
  }

  lemma SameResidue(x: int, x': int, y: int, y': int, m: int)
    requires m > 0 && y % m == y' % m && (x == x' || x == x' % m)
    ensures (x * y) % m == (x' * y') % m
  {
    ModMul(x, y, m);
    ModMul(x', y', m);
    assert x % m == x' % m by { ModUnique(x' % m, m, 0, x' % m); }
  }
}
