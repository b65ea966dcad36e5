/**
 The field of the curve P-256 in eight limbs: the signed Solinas fold of a
 512-bit product and the operations built on it.
 */
module P256Field {
  import opened Common
  import opened Limbs
  import opened ModArith

  type i64 = x: int | -0x8000_0000_0000_0000 <= x < 0x8000_0000_0000_0000
  type Fe = s: seq<u32> | |s| == 8 witness seq(8, _ => 0)

  const P: Fe := [
    0xFFFF_FFFF, 0xFFFF_FFFF, 0xFFFF_FFFF, 0x0000_0000,
    0x0000_0000, 0x0000_0000, 0x0000_0001, 0xFFFF_FFFF]

  /** 2^256 - 2^224 + 2^192 + 2^96 - 1 */
  const PRIME: int := 0xFFFFFFFF_00000001_00000000_00000000_00000000_FFFFFFFF_FFFFFFFF_FFFFFFFF

  // ---------------------------------------------------------------- weights written out

  const W1: int := 0x1_00000000
  const W2: int := 0x1_00000000_00000000
  const W3: int := 0x1_00000000_00000000_00000000
  const W4: int := 0x1_00000000_00000000_00000000_00000000
  const W5: int := 0x1_00000000_00000000_00000000_00000000_00000000
  const W6: int := 0x1_00000000_00000000_00000000_00000000_00000000_00000000
  const W7: int := 0x1_00000000_00000000_00000000_00000000_00000000_00000000_00000000
  const W8: int := 0x1_00000000_00000000_00000000_00000000_00000000_00000000_00000000_00000000

  lemma Weights()
    ensures W(0) == 1 && W(1) == W1 && W(2) == W2 && W(3) == W3 && W(4) == W4
    ensures W(5) == W5 && W(6) == W6 && W(7) == W7 && W(8) == W8
  {
    assert W(1) == B * W(0);
    assert W(2) == B * W(1);
    assert W(3) == B * W(2);
    assert W(4) == B * W(3);
    assert W(5) == B * W(4);
    assert W(6) == B * W(5);
    assert W(7) == B * W(6);
    assert W(8) == B * W(7);
  }

  function Sum8(s: seq<int>): int
    requires |s| == 8
  {
    s[0] + s[1] * W1 + s[2] * W2 + s[3] * W3 + s[4] * W4 + s[5] * W5 + s[6] * W6 + s[7] * W7
  }

  lemma ValIsSum8(s: seq<int>)
    requires |s| == 8
    ensures Val(s) == Sum8(s)
  {
    hide Val, W;
    Weights();
    ValZeros([]);
    assert s[..0] == [];
    forall k | 0 <= k < 8 ensures Val(s[..k + 1]) == Val(s[..k]) + s[k] * W(k) {
      assert s[..k + 1] == s[..k] + [s[k]];
      ValSnoc(s[..k], s[k]);
    }
    assert Val(s[..1]) == Val(s[..0]) + s[0] * W(0);
    assert Val(s[..2]) == Val(s[..1]) + s[1] * W(1);
    assert Val(s[..3]) == Val(s[..2]) + s[2] * W(2);
    assert Val(s[..4]) == Val(s[..3]) + s[3] * W(3);
    assert Val(s[..5]) == Val(s[..4]) + s[4] * W(4);
    assert Val(s[..6]) == Val(s[..5]) + s[5] * W(5);
    assert Val(s[..7]) == Val(s[..6]) + s[6] * W(6);
    assert Val(s[..8]) == Val(s[..7]) + s[7] * W(7);
    assert s[..8] == s;
  }

  lemma PrimeValue()
    ensures Val32(P) == PRIME && PRIME == W8 - W7 + W6 + W3 - 1
  {
    ValIsSum8(P);
  }

  // ---------------------------------------------------------------- the fold

  /** The nine-term combination of FIPS 186-4 section D.2.3, limb by limb. */
  function Combine(t: seq<int>): seq<int>
    requires |t| == 16
  {
    [t[0] + t[8] + t[9] - t[11] - t[12] - t[13] - t[14],
     t[1] + t[9] + t[10] - t[12] - t[13] - t[14] - t[15],
     t[2] + t[10] + t[11] - t[13] - t[14] - t[15],
     t[3] + 2 * t[11] + 2 * t[12] + t[13] - t[15] - t[8] - t[9],
     t[4] + 2 * t[12] + 2 * t[13] + t[14] - t[9] - t[10],
     t[5] + 2 * t[13] + 2 * t[14] + t[15] - t[10] - t[11],
     t[6] + 3 * t[14] + 2 * t[15] + t[13] - t[8] - t[9],
     t[7] + 3 * t[15] + t[8] - t[10] - t[11] - t[12] - t[13],
     0]
  }

  /** The multiple of the prime the combination takes off. */
  function Taken(t: seq<int>): int
    requires |t| == 16
  {
    t[8] + t[9] * 0x1_00000001 + t[10] * 0x1_00000001_00000000 + t[11] * 0x1_00000000_FFFFFFFF_FFFFFFFF
    + t[12] * 0x1_00000000_FFFFFFFF_FFFFFFFE_FFFFFFFF
    + t[13] * 0x1_00000000_FFFFFFFF_FFFFFFFE_FFFFFFFE_FFFFFFFF
    + t[14] * 0x1_00000000_FFFFFFFF_FFFFFFFE_FFFFFFFE_FFFFFFFE_FFFFFFFF
    + t[15] * 0x1_00000000_FFFFFFFF_FFFFFFFE_FFFFFFFE_FFFFFFFE_FFFFFFFF_00000000
  }

  lemma CombineValue(t: seq<u32>)
    requires |t| == 16
    ensures Val(Combine(t)) == Val32(t) - PRIME * Taken(t)
    ensures -5 * W8 <= Val(Combine(t)) < 6 * W8
  {
    hide Val, W;
    var lo, hi := t[..8], t[8..];
    assert t == lo + hi;
    ValConcat(lo, hi);
    ValIsSum8(lo);
    ValIsSum8(hi);
    Weights();
    var c := Combine(t);
    assert c == c[..8] + [0];
    ValSnoc(c[..8], 0);
    ValIsSum8(c[..8]);
    assert Sum8(c[..8]) == Sum8(lo) + W8 * Sum8(hi) - PRIME * Taken(t) by { CombineSums(t, lo, hi, c[..8]); }
    CombineBounds(t, c[..8]);
  }

  lemma CombineSums(t: seq<u32>, lo: seq<u32>, hi: seq<u32>, c: seq<int>)
    requires |t| == 16 && lo == t[..8] && hi == t[8..] && c == Combine(t)[..8]
    ensures Sum8(c) == Sum8(lo) + W8 * Sum8(hi) - PRIME * Taken(t)
  {
  }

  lemma CombineBounds(t: seq<u32>, c: seq<int>)
    requires |t| == 16 && c == Combine(t)[..8]
    ensures -5 * W8 <= Sum8(c) < 6 * W8
  {
  }

  ghost predicate Small(acc: seq<int>, b: int) { forall i :: 0 <= i < |acc| ==> -b <= acc[i] <= b }

  ghost predicate Limbed(acc: seq<int>) { |acc| == 9 && forall i :: 0 <= i < 8 ==> 0 <= acc[i] < B }

  /** One carry pass: same value, eight proper limbs, the rest in the ninth. */
  method CarryPass(acc0: seq<i64>) returns (acc: seq<i64>)
    requires |acc0| == 9 && Small(acc0, 0x100_0000_0000) && acc0[8] == 0
    ensures Limbed(acc) && Val(acc) == Val(acc0) && -0x200 <= acc[8] <= 0x200
  {
    hide Val, W;
    acc := acc0;
    for i := 0 to 8
      invariant |acc| == 9 && Val(acc) == Val(acc0)
      invariant forall k :: 0 <= k < i ==> 0 <= acc[k] < B
      invariant forall k :: i < k < 9 ==> acc[k] == acc0[k]
      invariant acc0[i] - 0x200 <= acc[i] <= acc0[i] + 0x200
    {
      var c := acc[i] / B;
      CarrySmall(acc[i]);
      ValUpdate(acc, i, acc[i] - c * B);
      var mid: seq<i64> := acc[i := acc[i] - c * B];
      ValUpdate(mid, i + 1, mid[i + 1] + c);
      CarryMoves(acc[i], c, mid[i + 1], i);
      acc := mid[i + 1 := mid[i + 1] + c];
    }
  }

  lemma CarrySmall(x: int)
    requires -0x100_0000_1000 <= x <= 0x100_0000_1000
    ensures -0x200 <= x / B <= 0x200 && 0 <= x - (x / B) * B < B
  {
  }

  lemma CarryMoves(x: int, c: int, y: int, i: nat)
    ensures (x - c * B - x) * W(i) + (y + c - y) * W(i + 1) == 0
  {
    assert W(i + 1) == B * W(i);
    assert (c * B) * W(i) == c * (B * W(i));
  }

  /** What is past the eighth limb is folded back: a multiple of the prime goes. */
  method FoldHigh(acc0: seq<i64>) returns (acc: seq<i64>)
    requires Limbed(acc0) && -0x200 <= acc0[8] <= 0x200
    ensures |acc| == 9 && acc[8] == 0 && Small(acc, 0x100_0000_0000)
    ensures Val(acc) == Val(acc0) - acc0[8] * PRIME
    ensures acc0[8] == 0 ==> acc == acc0
  {
    hide Val, W;
    acc := acc0;
    var hi := acc[8];
    if hi != 0 {
      Weights();
      ValUpdate(acc, 8, 0);
      acc := acc[8 := 0];
      ValUpdate(acc, 7, acc[7] + hi);
      acc := acc[7 := acc[7] + hi];
      ValUpdate(acc, 6, acc[6] - hi);
      acc := acc[6 := acc[6] - hi];
      ValUpdate(acc, 3, acc[3] - hi);
      acc := acc[3 := acc[3] - hi];
      ValUpdate(acc, 0, acc[0] + hi);
      acc := acc[0 := acc[0] + hi];
    }
  }

  /** Where the value lies after each round; from the third on the limbs are proper as well. */
  ghost predicate Stage(round: int, acc: seq<int>) {
    && |acc| == 9 && acc[8] == 0 && Small(acc, 0x100_0000_0000)
    && (if round == 0 then -5 * W8 <= Val(acc) < 6 * W8
        else if round == 1 then -5 * W7 <= Val(acc) < W8 + 5 * W7
        else 0 <= Val(acc) < W8)
    && (round >= 3 ==> Limbed(acc))
  }

  /** A pass splits off the quotient by 2^256. */
  lemma PassSplits(acc: seq<int>)
    requires Limbed(acc)
    ensures 0 <= Val(acc) - acc[8] * W8 < W8
  {
    hide Val, W;
    var lo: seq<u32> := acc[..8];
    assert acc == lo + [acc[8]];
    ValSnoc(lo, acc[8]);
    ValBound(lo);
    Weights();
  }

  /** `fe_from_wide`: exactly the residue; four rounds are always enough. */
  method FromWide(t: seq<u32>) returns (r: Fe)
    requires |t| == 16
    ensures Val32(r) == Val32(t) % PRIME
  {
    hide Val, W, Combine, Taken;
    CombineValue(t);
    CombineSmall(t);
    var acc: seq<i64> := Combine(t);
    ghost var k := Taken(t);
    for round := 0 to 4
      invariant Stage(round, acc) && Val(acc) == Val32(t) - PRIME * k
    {
      acc := CarryPass(acc);
      PassSplits(acc);
      ghost var hi := acc[8];
      acc := FoldHigh(acc);
      assert PRIME * (k + hi) == PRIME * k + hi * PRIME;
      k := k + hi;
    }
    var lo: seq<u32> := acc[..8];
    assert acc == lo + [0];
    ValSnoc(lo, 0);
    r := Reduce(lo);
    ModShift(Val32(lo), PRIME, k);
  }

  lemma CombineSmall(t: seq<u32>)
    requires |t| == 16
    ensures |Combine(t)| == 9 && Combine(t)[8] == 0 && Small(Combine(t), 0x100_0000_0000)
  {
  }

  /** `fe_reduce`: one subtraction brings any eight limbs below the prime. */
  method Reduce(a: Fe) returns (r: Fe)
    ensures Val32(r) == Val32(a) % PRIME
  {
    hide Val, W;
    PrimeValue();
    ValBound(a);
    Weights();
    var o := Cmp(a, P);
    r := a;
    if !o.Less? {
      var borrow;
      r, borrow := SubLimbs(a, P);
      ModUnique(Val32(a), PRIME, 1, Val32(a) - PRIME);
    } else {
      ModUnique(Val32(a), PRIME, 0, Val32(a));
    }
  }

  // ---------------------------------------------------------------- field operations

  const U128: int := 0x1_0000_0000_0000_0000_0000_0000_0000_0000

  /** The column sums of the product, all within 128 bits. */
  method Columns(a: Fe, b: Fe) returns (t: seq<int>)
    ensures |t| == 16 && Val(t) == Val32(a) * Val32(b)
    ensures forall k :: 0 <= k < 16 ==> 0 <= t[k] <= 8 * (B * B)
  {
    hide Val, W;
    t := seq(16, _ => 0);
    ValZeros(t);
    ValZeros([]);
    assert a[..0] == [];
    for i := 0 to 8
      invariant |t| == 16 && Val(t) == Val32(a[..i]) * Val32(b)
      invariant forall k :: 0 <= k < 16 ==> 0 <= t[k] <= i * (B * B)
    {
      t := AddRow(t, i, a[i], b);
      assert a[..i + 1] == a[..i] + [a[i]];
      ValSnoc(a[..i], a[i]);
      assert (Val32(a[..i]) + a[i] * W(i)) * Val32(b) == Val32(a[..i]) * Val32(b) + (a[i] * W(i)) * Val32(b);
    }
    assert a[..8] == a;
  }

  /** One limb of the left factor against all of the right one. */
  method AddRow(t0: seq<int>, i: nat, x: u32, b: Fe) returns (t: seq<int>)
    requires |t0| == 16 && i < 8 && forall k :: 0 <= k < 16 ==> 0 <= t0[k] <= i * (B * B)
    ensures |t| == 16 && Val(t) == Val(t0) + (x * W(i)) * Val32(b)
    ensures forall k :: 0 <= k < 16 ==> 0 <= t[k] <= (i + 1) * (B * B)
  {
    hide Val, W;
    t := t0;
    ValZeros([]);
    assert b[..0] == [];
    for j := 0 to 8
      invariant |t| == 16 && Val(t) == Val(t0) + (x * W(i)) * Val32(b[..j])
      invariant forall k :: 0 <= k < 16 ==> 0 <= t[k] <= i * (B * B) + if i <= k < i + j then B * B else 0
    {
      ProductSmall(x, b[j]);
      ValUpdate(t, i + j, t[i + j] + x * b[j]);
      WAdd(i, j);
      assert b[..j + 1] == b[..j] + [b[j]];
      ValSnoc(b[..j], b[j]);
      ColumnStep(x, W(i), Val32(b[..j]), b[j], W(j), t[i + j]);
      t := t[i + j := t[i + j] + x * b[j]];
    }
    assert b[..8] == b;
  }

  lemma ProductSmall(x: u32, y: u32)
    ensures 0 <= x * y <= B * B
  {
    MulBound(x, y, B);
  }

  lemma ColumnStep(x: int, wi: int, vb: int, y: int, wj: int, c: int)
    ensures (x * wi) * (vb + y * wj) == (x * wi) * vb + (c + x * y - c) * (wi * wj)
  {
    assert (x * wi) * (y * wj) == (x * y) * (wi * wj);
  }

  /** Carries turn columns into limbs; none is left over when the value fits. */
  method Normalise(t: seq<int>) returns (wide: seq<u32>)
    requires |t| == 16 && 0 <= Val(t) < W(16)
    requires forall k :: 0 <= k < 16 ==> 0 <= t[k] <= 8 * (B * B)
    ensures |wide| == 16 && Val32(wide) == Val(t)
  {
    hide Val, W;
    wide := [];
    var carry := 0;
    assert t[..0] == [];
    ValZeros([]);
    for i := 0 to 16
      invariant |wide| == i && 0 <= carry <= 16 * B
      invariant Val32(wide) + carry * W(i) == Val(t[..i])
    {
      var val := t[i] + carry;
      assert val < U128;
      ValSnoc(wide, val % B);
      assert t[..i + 1] == t[..i] + [t[i]];
      ValSnoc(t[..i], t[i]);
      ColumnCarry(t[i], carry, val, i);
      wide, carry := wide + [val % B], val / B;
    }
    assert t[..16] == t;
    ValBound(wide);
    TopZero(Val32(wide), carry, W(16), Val(t));
  }

  lemma ColumnCarry(x: int, c: int, v: int, i: nat)
    requires v == x + c
    ensures (v % B) * W(i) + (v / B) * W(i + 1) == x * W(i) + c * W(i)
  {
    assert v == (v / B) * B + v % B;
    assert (v / B) * (B * W(i)) == ((v / B) * B) * W(i);
    assert ((v / B) * B + v % B) * W(i) == (x + c) * W(i);
  }

  /** `fe_mul`. */
  method Mul(a: Fe, b: Fe) returns (r: Fe)
    ensures Val32(r) == (Val32(a) * Val32(b)) % PRIME
  {
    hide Val, W;
    var t := Columns(a, b);
    ValBound(a);
    ValBound(b);
    WAdd(8, 8);
    ProductFits(Val32(a), Val32(b), W(8));
    var wide := Normalise(t);
    r := FromWide(wide);
  }

  lemma ProductFits(x: int, y: int, w: int)
    requires 0 <= x < w && 0 <= y < w
    ensures 0 <= x * y < w * w
  {
    assert x * y <= x * w;
    assert x * w < w * w;
  }

  /** `fe_add`: the sum of residues exactly when one subtraction of the prime brings it back into eight limbs. */
  method Add(a: Fe, b: Fe) returns (r: Fe)
    ensures Val32(r) % PRIME == (Val32(a) + Val32(b)) % PRIME <==> Val32(a) + Val32(b) < W(8) + PRIME
    ensures Val32(a) < PRIME && Val32(b) < PRIME ==> Val32(r) == (Val32(a) + Val32(b)) % PRIME
  {
    hide Val, W;
    PrimeValue();
    Weights();
    ValBound(a);
    ValBound(b);
    var carry;
    r, carry := AddLimbs(a, b);
    if carry != 0 {
      var borrow;
      r, borrow := SubLimbs(r, P);
      ValBound(r);
      OffBy(Val32(a) + Val32(b), -1);
      if Val32(a) < PRIME && Val32(b) < PRIME {
        ModUnique(Val32(a) + Val32(b), PRIME, 1, Val32(a) + Val32(b) - PRIME);
      }
      return;
    }
    r := Reduce(r);
    ModTwice(Val32(a) + Val32(b));
  }

  lemma ModTwice(x: int)
    ensures x % PRIME % PRIME == x % PRIME
  {
  }

  /** A multiple of the prime added changes no residue; 2^256 on top of it always does. */
  lemma OffBy(x: int, k: int)
    ensures (x + PRIME * k) % PRIME == x % PRIME
    ensures (x + PRIME * k + W8) % PRIME != x % PRIME && (x + PRIME * k - W8) % PRIME != x % PRIME
  {
    ModShift(x, PRIME, k);
    var y := x + PRIME * k;
    NotAMultiple(y, y + W8);
    NotAMultiple(y - W8, y);
  }

  lemma NotAMultiple(x: int, y: int)
    requires y - x == W8
    ensures x % PRIME != y % PRIME
  {
    var q := y / PRIME - x / PRIME;
    if x % PRIME == y % PRIME {
      assert W8 == PRIME * q;
      assert PRIME * (q - 1) == W8 - PRIME;
      SmallMultiple(PRIME, q - 1);
    }
  }

  /** `fe_sub`: the difference of residues exactly when one addition of the prime makes it non-negative. */
  method Sub(a: Fe, b: Fe) returns (r: Fe)
    ensures Val32(r) % PRIME == (Val32(a) - Val32(b)) % PRIME <==> Val32(b) <= Val32(a) + PRIME
    ensures Val32(a) < PRIME && Val32(b) < PRIME ==> Val32(r) == (Val32(a) - Val32(b)) % PRIME
  {
    hide Val, W;
    PrimeValue();
    Weights();
    ValBound(a);
    ValBound(b);
    var borrow;
    r, borrow := SubLimbs(a, b);
    if borrow != 0 {
      var c;
      r, c := AddLimbs(r, P);
      ValBound(r);
      OffBy(Val32(a) - Val32(b), 1);
      if Val32(a) < PRIME && Val32(b) < PRIME {
        ModUnique(Val32(a) - Val32(b), PRIME, -1, Val32(a) - Val32(b) + PRIME);
      }
    } else if Val32(a) < PRIME && Val32(b) < PRIME {
      ModUnique(Val32(a) - Val32(b), PRIME, 0, Val32(a) - Val32(b));
    }
  }

  // ---------------------------------------------------------------- inversion

  const EXP: seq<nat> := [
    0xFF, 0xFF, 0xFF, 0xFF, 0x00, 0x00, 0x00, 0x01, 0x00, 0x00, 0x00, 0x00, 0x00, 0x00, 0x00, 0x00,
    0x00, 0x00, 0x00, 0x00, 0xFF, 0xFF, 0xFF, 0xFF, 0xFF, 0xFF, 0xFF, 0xFF, 0xFF, 0xFF, 0xFF, 0xFD]

  /** Bit `i` of the exponent, most significant first. */
  function ExpBit(i: nat): nat
    requires i < 256
  {
    Shr(EXP[i / 8], 7 - i % 8) % 2
  }

  /** The exponent made of the first `i` bits. */
  function ExpTo(i: nat): nat
    requires i <= 256
  {
    if i == 0 then 0 else 2 * ExpTo(i - 1) + (if ExpBit(i - 1) == 1 then 1 else 0)
  }

  function BytesTo(k: nat): nat
    requires k <= 32
  {
    if k == 0 then 0 else 256 * BytesTo(k - 1) + EXP[k - 1]
  }

  /** After `m` bits of byte `k`. */
  lemma {:induction false} BitsOfByte(k: nat, m: nat)
    requires k < 32 && m <= 8
    ensures ExpTo(8 * k + m) == ExpTo(8 * k) * TwoTo(m) + Shr(EXP[k], 8 - m)
  {
    hide Shr, ExpBit, ExpTo;
    if m == 0 {
      ByteRange(k);
      ShrByte(EXP[k]);
    } else {
      BitsOfByte(k, m - 1);
      ShrNext(EXP[k], 8 - m);
      ExpNext(8 * k + m - 1);
      BitOfByte(k, m - 1);
      Doubled(ExpTo(8 * k), TwoTo(m - 1));
    }
  }

  lemma ByteRange(k: nat)
    requires k < 32
    ensures EXP[k] < 256
  {
  }

  lemma BitOfByte(k: nat, m: nat)
    requires k < 32 && m < 8
    ensures ExpBit(8 * k + m) == Shr(EXP[k], 7 - m) % 2
  {
    hide Shr;
    assert (8 * k + m) / 8 == k;
  }

  lemma Doubled(x: nat, y: nat)
    ensures 2 * (x * y) == x * (2 * y)
  {
  }

  lemma ByteStep(k: nat)
    requires k < 32
    ensures ExpTo(8 * (k + 1)) == 256 * ExpTo(8 * k) + EXP[k]
  {
    hide ExpTo;
    BitsOfByte(k, 8);
    assert TwoTo(4) == 16;
    assert TwoTo(8) == 256;
  }

  lemma {:induction false} BytesAreBits(k: nat)
    requires k <= 32
    ensures ExpTo(8 * k) == BytesTo(k)
  {
    if k > 0 {
      BytesAreBits(k - 1);
      ByteStep(k - 1);
    }
  }

  lemma FourBytes(k: nat)
    requires k + 4 <= 32
    ensures BytesTo(k + 4) == B * BytesTo(k) + 0x100_0000 * EXP[k] + 0x1_0000 * EXP[k + 1] + 0x100 * EXP[k + 2] + EXP[k + 3]
  {
    assert BytesTo(k + 1) == 256 * BytesTo(k) + EXP[k];
    assert BytesTo(k + 2) == 256 * BytesTo(k + 1) + EXP[k + 1];
    assert BytesTo(k + 3) == 256 * BytesTo(k + 2) + EXP[k + 2];
  }

  lemma ExponentTop()
    ensures BytesTo(8) == 0xFFFFFFFF_00000001
  {
    hide BytesTo;
    BytesZero();
    assert BytesTo(4) == 0xFFFFFFFF by { FourBytes(0); }
    FourBytes(4);
  }

  lemma ExponentHigh()
    ensures BytesTo(16) == 0xFFFFFFFF_00000001_00000000_00000000
  {
    hide BytesTo;
    ExponentTop();
    assert BytesTo(12) == 0xFFFFFFFF_00000001_00000000 by { FourBytes(8); }
    FourBytes(12);
  }

  lemma ExponentValue()
    ensures ExpTo(256) == PRIME - 2
  {
    hide ExpTo, BytesTo;
    BytesAreBits(32);
    ExponentHigh();
    assert BytesTo(20) == 0xFFFFFFFF_00000001_00000000_00000000_00000000 by { FourBytes(16); }
    assert BytesTo(24) == 0xFFFFFFFF_00000001_00000000_00000000_00000000_FFFFFFFF by { FourBytes(20); }
    assert BytesTo(28) == 0xFFFFFFFF_00000001_00000000_00000000_00000000_FFFFFFFF_FFFFFFFF by { FourBytes(24); }
    FourBytes(28);
  }

  lemma BytesZero()
    ensures BytesTo(0) == 0
  {
  }

  /** `fe_inv`: the power p - 2 by square and multiply over the exponent's bits. */
  method Inv(a: Fe) returns (r: Fe)
    ensures Val32(r) == Pow(Val32(a), PRIME - 2) % PRIME
  {
    hide Val, W, Pow, ExpBit, ExpTo;
    ghost var x := Val32(a);
    r := [1, 0, 0, 0, 0, 0, 0, 0];
    OneValue(r, x);
    for i := 0 to 256
      invariant Val32(r) == Pow(x, ExpTo(i)) % PRIME
    {
      ExpNext(i);
      SquareResidue(x, ExpTo(i));
      r := Mul(r, r);
      if ExpBit(i) == 1 {
        TimesResidue(x, 2 * ExpTo(i));
        r := Mul(r, a);
      }
    }
    ExponentValue();
  }

  lemma OneValue(r: seq<int>, x: int)
    requires r == [1, 0, 0, 0, 0, 0, 0, 0]
    ensures Val(r) == 1 == Pow(x, ExpTo(0)) % PRIME
  {
    ValIsSum8(r);
  }

  lemma ExpNext(i: nat)
    requires i < 256
    ensures ExpTo(i + 1) == 2 * ExpTo(i) + if ExpBit(i) == 1 then 1 else 0
  {
  }

  lemma SquareResidue(x: int, e: nat)
    ensures ((Pow(x, e) % PRIME) * (Pow(x, e) % PRIME)) % PRIME == Pow(x, 2 * e) % PRIME
  {
    hide Pow;
    ModMul(Pow(x, e), Pow(x, e), PRIME);
    PowAdd(x, e, e);
  }

  lemma TimesResidue(x: int, e: nat)
    ensures ((Pow(x, e) % PRIME) * x) % PRIME == Pow(x, e + 1) % PRIME
  {
    ModMulLeft(Pow(x, e), x, PRIME);
    assert Pow(x, e) * x == x * Pow(x, e);
  }
}
