/**
 Scalar multiplication without branching on the scalar: every bit doubles and
 adds, and a masked move keeps one of the two results.
 */
module P256Ladder {
  import opened Common
  import ModArith

  type Limb8 = s: seq<bv32> | |s| == 8 witness seq(8, _ => 0)

  datatype Jac = Jac(x: Limb8, y: Limb8, z: Limb8)

  /** One limb of the move: the mask is all ones or all zeros. */
  function Masked(d: bv32, s: bv32, cond: bv32): bv32 { d ^ ((0 - (cond & 1)) & (d ^ s)) }

  predicate Set(cond: bv32) { cond & 1 == 1 }

  lemma {:induction false} MaskedMoves(d: bv32, s: bv32, cond: bv32)
    ensures Masked(d, s, cond) == if Set(cond) then s else d
  {
    OneBit(cond);
    if cond & 1 == 1 {
      assert (0 as bv32) - 1 == 0xFFFF_FFFF;
      assert d ^ (0xFFFF_FFFF & (d ^ s)) == s;
    } else {
      assert d ^ (0 & (d ^ s)) == d;
    }
  }

  /** `fe_cmov`. */
  method CMov(dst: Limb8, src: Limb8, cond: bv32) returns (r: Limb8)
    ensures r == if Set(cond) then src else dst
  {
    hide Masked, Set;
    r := dst;
    for i := 0 to 8
      invariant |r| == 8
      invariant forall k :: 0 <= k < i ==> r[k] == if Set(cond) then src[k] else dst[k]
      invariant forall k :: i <= k < 8 ==> r[k] == dst[k]
    {
      MaskedMoves(r[i], src[i], cond);
      r := r[i := Masked(r[i], src[i], cond)];
    }
  }

  lemma OneBit(cond: bv32)
    ensures cond & 1 == 1 || cond & 1 == 0
  {
  }

  /** Multiplication by `n`, taken from the top of its `bits` binary digits. */
  function Times(n: nat, bits: nat, inf: Jac, dbl: Jac -> Jac, add: Jac -> Jac): Jac {
    if bits == 0 then inf
    else
      var p := dbl(Times(n / 2, bits - 1, inf, dbl, add));
      if n % 2 == 1 then add(p) else p
  }

  /** What doubling and adding the point mean on the points of a group of order `N`, by their logarithms. */
  ghost predicate IsGroup(N: nat, inf: Jac, dbl: Jac -> Jac, add: Jac -> Jac, on: Jac -> bool, h: Jac -> int) {
    && N > 0 && on(inf) && h(inf) == 0
    && (forall p {:trigger dbl(p)} :: on(p) ==> on(dbl(p)) && h(dbl(p)) == 2 * h(p) % N)
    && (forall p {:trigger add(p)} :: on(p) ==> on(add(p)) && h(add(p)) == (h(p) + 1) % N)
  }

  /** In any group whose doubling doubles and whose addition adds the point, the result is `n` times the point. */
  lemma {:induction false} TimesCounts(n: nat, bits: nat, N: nat, inf: Jac, dbl: Jac -> Jac, add: Jac -> Jac,
                                       on: Jac -> bool, h: Jac -> int)
    requires n < TwoTo(bits) && IsGroup(N, inf, dbl, add, on, h)
    ensures var r := Times(n, bits, inf, dbl, add); on(r) && h(r) == n % N
    decreases bits
  {
    hide IsGroup;
    if bits == 0 {
      GroupStep(N, inf, dbl, add, on, h, inf);
      ModArith.ModUnique(0, N, 0, 0);
    } else {
      TimesCounts(n / 2, bits - 1, N, inf, dbl, add, on, h);
      var q := Times(n / 2, bits - 1, inf, dbl, add);
      GroupStep(N, inf, dbl, add, on, h, q);
      GroupStep(N, inf, dbl, add, on, h, dbl(q));
      DoubledResidue(n, N);
    }
  }

  lemma GroupStep(N: nat, inf: Jac, dbl: Jac -> Jac, add: Jac -> Jac, on: Jac -> bool, h: Jac -> int, p: Jac)
    requires IsGroup(N, inf, dbl, add, on, h)
    ensures N > 0 && on(inf) && h(inf) == 0
    ensures on(p) ==> on(dbl(p)) && h(dbl(p)) == 2 * h(p) % N && on(add(p)) && h(add(p)) == (h(p) + 1) % N
  {
  }

  lemma DoubledResidue(n: nat, N: nat)
    requires N > 0
    ensures var d := 2 * (n / 2 % N) % N; if n % 2 == 1 then (d + 1) % N == n % N else d == n % N
  {
    var a, q := n / 2 % N, n / 2 / N;
    assert n / 2 == N * q + a;
    assert 2 * (n / 2) == 2 * a + N * (2 * q);
    ModArith.ModShift(2 * a, N, 2 * q);
    var d, r := 2 * a % N, 2 * a / N;
    assert 2 * a == N * r + d;
    assert 2 * (n / 2) + 1 == d + 1 + N * (2 * q + r);
    ModArith.ModShift(d + 1, N, 2 * q + r);
  }

  // A group of seven points, told apart by one limb.

  const NONE: Limb8 := [0, 0, 0, 0, 0, 0, 0, 0]

  function Code(v: nat): bv32 {
    if v == 1 then 1 else if v == 2 then 2 else if v == 3 then 3 else if v == 4 then 4 else if v == 5 then 5 else if v == 6 then 6 else 0
  }

  function Decode(b: bv32): nat {
    if b == 1 then 1 else if b == 2 then 2 else if b == 3 then 3 else if b == 4 then 4 else if b == 5 then 5 else if b == 6 then 6 else 0
  }

  function Seventh(v: nat): Jac { Jac([Code(v), 0, 0, 0, 0, 0, 0, 0], NONE, NONE) }

  function Number(p: Jac): int { Decode(p.x[0]) }

  predicate IsSeventh(p: Jac) { p == Seventh(Number(p)) }

  function DoubleSeventh(p: Jac): Jac { Seventh(2 * Number(p) % 7) }

  function NextSeventh(p: Jac): Jac { Seventh((Number(p) + 1) % 7) }

  lemma SeventhIs(v: nat)
    requires v < 7
    ensures Number(Seventh(v)) == v && IsSeventh(Seventh(v))
  {
  }

  lemma SeventhSteps(p: Jac)
    requires IsSeventh(p)
    ensures IsSeventh(DoubleSeventh(p)) && Number(DoubleSeventh(p)) == 2 * Number(p) % 7
    ensures IsSeventh(NextSeventh(p)) && Number(NextSeventh(p)) == (Number(p) + 1) % 7
  {
    hide Seventh, Number, IsSeventh;
    SeventhIs(2 * Number(p) % 7);
    SeventhIs((Number(p) + 1) % 7);
  }

  /** The hypotheses can be met. */
  lemma SevenPoints()
    ensures IsGroup(7, Seventh(0), DoubleSeventh, NextSeventh, IsSeventh, Number)
  {
    hide Seventh, Number, IsSeventh, DoubleSeventh, NextSeventh;
    SeventhIs(0);
    forall p {:trigger DoubleSeventh(p)} | IsSeventh(p)
      ensures IsSeventh(DoubleSeventh(p)) && Number(DoubleSeventh(p)) == 2 * Number(p) % 7
    {
      SeventhSteps(p);
    }
    forall p {:trigger NextSeventh(p)} | IsSeventh(p)
      ensures IsSeventh(NextSeventh(p)) && Number(NextSeventh(p)) == (Number(p) + 1) % 7
    {
      SeventhSteps(p);
    }
  }

  lemma SeventhTimes(n: nat, bits: nat)
    requires n < TwoTo(bits)
    ensures Number(Times(n, bits, Seventh(0), DoubleSeventh, NextSeventh)) == n % 7
  {
    hide Seventh, Number, IsSeventh, DoubleSeventh, NextSeventh, Times, TwoTo, IsGroup;
    SevenPoints();
    TimesCounts(n, bits, 7, Seventh(0), DoubleSeventh, NextSeventh, IsSeventh, Number);
  }

  /** Big-endian value. */
  function BytesVal(k: seq<byte>): nat {
    if k == [] then 0 else 256 * BytesVal(k[..|k| - 1]) + k[|k| - 1]
  }

  /** One bit: double, add, and keep one of the two without a branch. */
  method OneMore(ghost top: nat, x: byte, bit: nat, p: Jac, ghost bits: nat, ghost inf: Jac,
                 dbl: Jac -> Jac, add: Jac -> Jac) returns (r: Jac)
    requires bit < 8 && p == Times(TwoTo(7 - bit) * top + Shr(x, bit + 1), bits + 7 - bit, inf, dbl, add)
    ensures r == Times(TwoTo(8 - bit) * top + Shr(x, bit), bits + 8 - bit, inf, dbl, add)
  {
    hide Shr, TwoTo, Times, Set;
    BitStep(top, x, bit);
    TimesNext(TwoTo(8 - bit) * top + Shr(x, bit), bits + 8 - bit, inf, dbl, add);
    var doubled := dbl(p);
    var added := add(doubled);
    var cond: bv32 := (Shr(x, bit) % 2) as bv32;
    CondBit(Shr(x, bit));
    var xs := CMov(doubled.x, added.x, cond);
    var ys := CMov(doubled.y, added.y, cond);
    var zs := CMov(doubled.z, added.z, cond);
    r := Jac(xs, ys, zs);
  }

  /** `scalar_mul` up to the conversion back to affine coordinates. */
  method ScalarMul(k: seq<byte>, inf: Jac, dbl: Jac -> Jac, add: Jac -> Jac) returns (r: Jac)
    ensures r == Times(BytesVal(k), 8 * |k|, inf, dbl, add)
  {
    hide Shr, TwoTo, Times, Set;
    r := inf;
    TimesZero(inf, dbl, add);
    assert k[..0] == [];
    for i := 0 to |k|
      invariant r == Times(BytesVal(k[..i]), 8 * i, inf, dbl, add)
    {
      ghost var top := BytesVal(k[..i]);
      ShrByte(k[i]);
      assert TwoTo(0) * top + Shr(k[i], 8) == top by { TwoToZero(); }
      var bit := 8;
      while bit > 0
        invariant 0 <= bit <= 8
        invariant r == Times(TwoTo(8 - bit) * top + Shr(k[i], bit), 8 * i + 8 - bit, inf, dbl, add)
      {
        bit := bit - 1;
        r := OneMore(top, k[i], bit, r, 8 * i, inf, dbl, add);
      }
      assert k[..i + 1] == k[..i] + [k[i]];
      ByteDone(top, k[i]);
    }
    assert k[..|k|] == k;
  }

  lemma CondBit(x: nat)
    ensures Set((x % 2) as bv32) <==> x % 2 == 1
  {
    if x % 2 == 1 {
      assert (1 as bv32) & 1 == 1;
    } else {
      assert (0 as bv32) & 1 == 0;
    }
  }

  lemma TimesZero(inf: Jac, dbl: Jac -> Jac, add: Jac -> Jac)
    ensures Times(0, 0, inf, dbl, add) == inf
  {
  }

  lemma TimesNext(n: nat, bits: nat, inf: Jac, dbl: Jac -> Jac, add: Jac -> Jac)
    requires bits > 0
    ensures var p := dbl(Times(n / 2, bits - 1, inf, dbl, add)); Times(n, bits, inf, dbl, add) == if n % 2 == 1 then add(p) else p
  {
  }

  lemma BitStep(top: nat, x: nat, bit: nat)
    requires bit < 8
    ensures var n := TwoTo(8 - bit) * top + Shr(x, bit);
            n / 2 == TwoTo(7 - bit) * top + Shr(x, bit + 1) && n % 2 == Shr(x, bit) % 2
  {
    ShrNext(x, bit);
    assert TwoTo(8 - bit) * top == 2 * (TwoTo(7 - bit) * top);
  }

  lemma ByteDone(top: nat, x: nat)
    ensures TwoTo(8) * top + Shr(x, 0) == 256 * top + x
  {
    assert TwoTo(4) == 16;
    assert TwoTo(8) == 256;
  }
}
