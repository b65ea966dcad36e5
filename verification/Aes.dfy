/**
 AES-128 on blocks of sixteen bytes: the key schedule, the rounds forward and
 back, and that decryption undoes encryption for every schedule.
 */
module Aes {
  import opened AesSbox

  type Block = b: seq<bv8> | |b| == 16 witness seq(16, _ => 0)
  type Schedule = k: seq<bv8> | |k| == 176 witness seq(176, _ => 0)

  // ---------------------------------------------------------------- the steps of a round

  function Xor(a: Block, k: Block): Block { seq(16, (i: nat) requires i < 16 => a[i] ^ k[i]) }

  function SubBytes(b: Block): Block { seq(16, (i: nat) requires i < 16 => Sbox(b[i])) }
  function SubInv(b: Block): Block { seq(16, (i: nat) requires i < 16 => SboxInv(b[i])) }

  function ShiftRows(b: Block): Block {
    [b[0], b[5], b[10], b[15], b[4], b[9], b[14], b[3], b[8], b[13], b[2], b[7], b[12], b[1], b[6], b[11]]
  }

  function ShiftInv(b: Block): Block {
    [b[0], b[13], b[10], b[7], b[4], b[1], b[14], b[11], b[8], b[5], b[2], b[15], b[12], b[9], b[6], b[3]]
  }

  datatype Col = Col(s0: bv8, s1: bv8, s2: bv8, s3: bv8)

  function Sum5(a: bv8, b: bv8, c: bv8, d: bv8, e: bv8): bv8 { Add(Add(Add(Add(a, b), c), d), e) }
  function Sum4(a: bv8, b: bv8, c: bv8, d: bv8): bv8 { Add(Add(Add(a, b), c), d) }

  function Mix(c: Col): Col {
    var Col(s0, s1, s2, s3) := c;
    Col(Sum5(Xtime(s0), Xtime(s1), s1, s2, s3), Sum5(s0, Xtime(s1), Xtime(s2), s2, s3),
        Sum5(s0, s1, Xtime(s2), Xtime(s3), s3), Sum5(Xtime(s0), s0, s1, s2, Xtime(s3)))
  }

  function MixInv(c: Col): Col {
    var Col(s0, s1, s2, s3) := c;
    Col(Sum4(GfMul(14, s0), GfMul(11, s1), GfMul(13, s2), GfMul(9, s3)),
        Sum4(GfMul(9, s0), GfMul(14, s1), GfMul(11, s2), GfMul(13, s3)),
        Sum4(GfMul(13, s0), GfMul(9, s1), GfMul(14, s2), GfMul(11, s3)),
        Sum4(GfMul(11, s0), GfMul(13, s1), GfMul(9, s2), GfMul(14, s3)))
  }

  function ColOf(b: Block, c: nat): Col
    requires c < 4
  {
    Col(b[4 * c], b[4 * c + 1], b[4 * c + 2], b[4 * c + 3])
  }

  function Join(c0: Col, c1: Col, c2: Col, c3: Col): Block {
    [c0.s0, c0.s1, c0.s2, c0.s3, c1.s0, c1.s1, c1.s2, c1.s3, c2.s0, c2.s1, c2.s2, c2.s3, c3.s0, c3.s1, c3.s2, c3.s3]
  }

  function MixColumns(b: Block): Block { Join(Mix(ColOf(b, 0)), Mix(ColOf(b, 1)), Mix(ColOf(b, 2)), Mix(ColOf(b, 3))) }
  function MixColumnsInv(b: Block): Block { Join(MixInv(ColOf(b, 0)), MixInv(ColOf(b, 1)), MixInv(ColOf(b, 2)), MixInv(ColOf(b, 3))) }

  // ---------------------------------------------------------------- each step undone

  lemma XtimeAdds(x: bv8, y: bv8)
    ensures Xtime(Add(x, y)) == Add(Xtime(x), Xtime(y))
  {
    assert (x ^ y) << 1 == (x << 1) ^ (y << 1);
    assert (x ^ y) & 0x80 == (x & 0x80) ^ (y & 0x80);
    TopBit(x);
    TopBit(y);
    XorShuffle(x << 1, y << 1, 0x1b);
  }

  lemma TopBit(x: bv8)
    ensures x & 0x80 == 0 || x & 0x80 == 0x80
  {
  }

  lemma XorShuffle(p: bv8, q: bv8, k: bv8)
    ensures (p ^ k) ^ (q ^ k) == p ^ q && (p ^ k) ^ q == (p ^ q) ^ k && p ^ (q ^ k) == (p ^ q) ^ k
  {
  }

  function Sum3(a: bv8, b: bv8, c: bv8): bv8 { Add(Add(a, b), c) }

  lemma GfConstants(s: bv8)
    ensures GfMul(9, s) == Add(Xtime(Xtime(Xtime(s))), s)
    ensures GfMul(11, s) == Sum3(Xtime(Xtime(Xtime(s))), Xtime(s), s)
    ensures GfMul(13, s) == Sum3(Xtime(Xtime(Xtime(s))), Xtime(Xtime(s)), s)
    ensures GfMul(14, s) == Sum3(Xtime(Xtime(Xtime(s))), Xtime(Xtime(s)), Xtime(s))
  {
    hide GfMul;
    GfMulMeans(9, s);
    GfMulMeans(11, s);
    GfMulMeans(13, s);
    GfMulMeans(14, s);
  }

  lemma XorUndone(a: Block, k: Block)
    ensures Xor(Xor(a, k), k) == a
  {
    forall i | 0 <= i < 16 ensures Xor(Xor(a, k), k)[i] == a[i] {
      assert (a[i] ^ k[i]) ^ k[i] == a[i];
    }
  }

  lemma SubUndone(b: Block)
    ensures SubInv(SubBytes(b)) == b
  {
    hide Sbox, SboxInv;
    forall i | 0 <= i < 16 ensures SubInv(SubBytes(b))[i] == b[i] {
      SboxInverse(b[i]);
    }
  }

  lemma ShiftUndone(b: Block)
    ensures ShiftInv(ShiftRows(b)) == b
  {
  }

  lemma Xtime5(a: bv8, b: bv8, c: bv8, d: bv8, e: bv8)
    ensures Xtime(Sum5(a, b, c, d, e)) == Sum5(Xtime(a), Xtime(b), Xtime(c), Xtime(d), Xtime(e))
  {
    hide Xtime, Add;
    XtimeAdds(Add(Add(Add(a, b), c), d), e);
    XtimeAdds(Add(Add(a, b), c), d);
    XtimeAdds(Add(a, b), c);
    XtimeAdds(a, b);
  }

  /** The doublings of a mixed byte. */
  lemma XtimeChain(a: bv8, b: bv8, c: bv8, d: bv8, e: bv8)
    ensures var t := Sum5(a, b, c, d, e);
            && Xtime(t) == Sum5(Xtime(a), Xtime(b), Xtime(c), Xtime(d), Xtime(e))
            && Xtime(Xtime(t)) == Sum5(Xtime(Xtime(a)), Xtime(Xtime(b)), Xtime(Xtime(c)), Xtime(Xtime(d)), Xtime(Xtime(e)))
            && Xtime(Xtime(Xtime(t))) == Sum5(Xtime(Xtime(Xtime(a))), Xtime(Xtime(Xtime(b))), Xtime(Xtime(Xtime(c))),
                                              Xtime(Xtime(Xtime(d))), Xtime(Xtime(Xtime(e))))
  {
    hide Xtime, Sum5;
    Xtime5(a, b, c, d, e);
    Xtime5(Xtime(a), Xtime(b), Xtime(c), Xtime(d), Xtime(e));
    Xtime5(Xtime(Xtime(a)), Xtime(Xtime(b)), Xtime(Xtime(c)), Xtime(Xtime(d)), Xtime(Xtime(e)));
  }

  // ---------------------------------------------------------------- sums over a basis

  /** The sum of the basis bytes picked by the bits of a mask. */
  function Eval(m: bv32, b: seq<bv8>): bv8 {
    if b == [] then 0 else Add(Share32(m, b[0]), Eval(m >> 1, b[1..]))
  }

  function Share32(m: bv32, a: bv8): bv8 { if m & 1 == 1 then a else 0 }

  lemma AddAssoc(a: bv8, b: bv8, c: bv8)
    ensures Add(Add(a, b), c) == Add(a, Add(b, c))
  {
  }

  lemma AddComm(a: bv8, b: bv8)
    ensures Add(a, b) == Add(b, a)
  {
  }

  lemma AddZero(a: bv8)
    ensures Add(a, 0) == a && Add(0, a) == a && Add(a, a) == 0
  {
  }

  lemma Interchange(p: bv8, q: bv8, r: bv8, s: bv8)
    ensures Add(Add(p, q), Add(r, s)) == Add(Add(p, r), Add(q, s))
  {
    hide Add;
    AddAssoc(p, q, Add(r, s));
    AddAssoc(q, r, s);
    AddComm(q, r);
    AddAssoc(r, q, s);
    AddAssoc(p, r, Add(q, s));
  }

  lemma ShareXor(m: bv32, n: bv32, a: bv8)
    ensures Share32(m ^ n, a) == Add(Share32(m, a), Share32(n, a)) && (m ^ n) >> 1 == (m >> 1) ^ (n >> 1)
  {
    assert (m ^ n) & 1 == (m & 1) ^ (n & 1);
    OneOrZero(m);
    OneOrZero(n);
    assert a ^ a == 0;
  }

  lemma OneOrZero(m: bv32)
    ensures m & 1 == 0 || m & 1 == 1
  {
  }

  /** Adding sums is adding masks. */
  lemma {:induction false} EvalXor(m: bv32, n: bv32, b: seq<bv8>)
    ensures Eval(m ^ n, b) == Add(Eval(m, b), Eval(n, b))
    decreases |b|
  {
    if b == [] {
      assert (0 as bv8) ^ 0 == 0;
    } else {
      EvalXor(m >> 1, n >> 1, b[1..]);
      ShareXor(m, n, b[0]);
      hide Add, Share32;
      Interchange(Share32(m, b[0]), Share32(n, b[0]), Eval(m >> 1, b[1..]), Eval(n >> 1, b[1..]));
    }
  }

  lemma {:induction false} EvalNone(b: seq<bv8>)
    ensures Eval(0, b) == 0
    decreases |b|
  {
    if b != [] {
      assert (0 as bv32) >> 1 == 0 && (0 as bv32) & 1 == 0;
      EvalNone(b[1..]);
      AddZero(0);
    }
  }

  function Unit(i: nat): bv32
    requires i < 32
  {
    1 << i
  }

  lemma UnitShift(i: nat)
    requires i < 31
    ensures Unit(i + 1) >> 1 == Unit(i) && Unit(i + 1) & 1 == 0 && Unit(0) == 1
  {
  }

  /** One bit picks one byte. */
  lemma {:induction false} EvalUnit(i: nat, b: seq<bv8>)
    requires i < |b| <= 32
    ensures Eval(Unit(i), b) == b[i]
    decreases |b|
  {
    AddZero(b[0]);
    if i == 0 {
      assert Unit(0) >> 1 == 0 && Unit(0) & 1 == 1;
      EvalNone(b[1..]);
    } else {
      UnitShift(i - 1);
      EvalUnit(i - 1, b[1..]);
      AddZero(b[i]);
    }
  }

  lemma UnitValues()
    ensures Unit(0) == 0x00001 && Unit(1) == 0x00002 && Unit(2) == 0x00004 && Unit(3) == 0x00008
    ensures Unit(4) == 0x00010 && Unit(5) == 0x00020 && Unit(6) == 0x00040 && Unit(7) == 0x00080
    ensures Unit(8) == 0x00100 && Unit(9) == 0x00200 && Unit(10) == 0x00400 && Unit(11) == 0x00800
    ensures Unit(12) == 0x01000 && Unit(13) == 0x02000 && Unit(14) == 0x04000 && Unit(15) == 0x08000
    ensures Unit(16) == 0x10000 && Unit(17) == 0x20000 && Unit(18) == 0x40000 && Unit(19) == 0x80000
  {
  }

  function Both(m: bv32, n: bv32): bv32 { m ^ n }

  lemma EvalPlus(m: bv32, n: bv32, r: bv32, b: seq<bv8>)
    requires r == Both(m, n)
    ensures Eval(r, b) == Add(Eval(m, b), Eval(n, b))
  {
    hide Eval, Add;
    EvalXor(m, n, b);
  }

  /** Five basis bytes; `m2`, `m3`, `m4` and `m5` are the masks on the way. */
  lemma Sum5Eval(b: seq<bv8>, i: nat, j: nat, k: nat, l: nat, n: nat, m2: bv32, m3: bv32, m4: bv32, m5: bv32)
    requires |b| == 20 && i < 20 && j < 20 && k < 20 && l < 20 && n < 20
    requires m2 == Both(Unit(i), Unit(j)) && m3 == Both(m2, Unit(k)) && m4 == Both(m3, Unit(l)) && m5 == Both(m4, Unit(n))
    ensures Sum5(b[i], b[j], b[k], b[l], b[n]) == Eval(m5, b)
  {
    hide Eval, Unit, Add, Both;
    EvalUnit(i, b);
    EvalUnit(j, b);
    EvalUnit(k, b);
    EvalUnit(l, b);
    EvalUnit(n, b);
    EvalPlus(Unit(i), Unit(j), m2, b);
    EvalPlus(m2, Unit(k), m3, b);
    EvalPlus(m3, Unit(l), m4, b);
    EvalPlus(m4, Unit(n), m5, b);
  }

  lemma Sum3Eval(b: seq<bv8>, m: bv32, n: bv32, p: bv32, m2: bv32, m3: bv32)
    requires m2 == Both(m, n) && m3 == Both(m2, p)
    ensures Sum3(Eval(m, b), Eval(n, b), Eval(p, b)) == Eval(m3, b)
  {
    hide Eval, Add, Both;
    EvalPlus(m, n, m2, b);
    EvalPlus(m2, p, m3, b);
  }

  lemma Sum4Eval(b: seq<bv8>, m: bv32, n: bv32, p: bv32, q: bv32, m2: bv32, m3: bv32, m4: bv32)
    requires m2 == Both(m, n) && m3 == Both(m2, p) && m4 == Both(m3, q)
    ensures Sum4(Eval(m, b), Eval(n, b), Eval(p, b), Eval(q, b)) == Eval(m4, b)
  {
    hide Eval, Add, Both, Sum3, Sum4;
    Sum3Eval(b, m, n, p, m2, m3);
    EvalPlus(m3, q, m4, b);
    Sum4Splits(Eval(m, b), Eval(n, b), Eval(p, b), Eval(q, b));
  }

  lemma Sum4Splits(a: bv8, b: bv8, c: bv8, d: bv8)
    ensures Sum4(a, b, c, d) == Add(Sum3(a, b, c), d)
  {
    hide Add;
  }

  /** The first byte of a mixed column mixed back, over the four bytes and their doublings. */
  lemma MixIdentity(s0: bv8, s1: bv8, s2: bv8, s3: bv8, x0: bv8, x1: bv8, x2: bv8, x3: bv8,
                    y0: bv8, y1: bv8, y2: bv8, y3: bv8, z0: bv8, z1: bv8, z2: bv8, z3: bv8, w0: bv8, w1: bv8, w2: bv8, w3: bv8)
    ensures Sum4(Sum3(Sum5(w0, w1, z1, z2, z3), Sum5(z0, z1, y1, y2, y3), Sum5(y0, y1, x1, x2, x3)),
                 Sum3(Sum5(z0, w1, w2, z2, z3), Sum5(x0, y1, y2, x2, x3), Sum5(s0, x1, x2, s2, s3)),
                 Sum3(Sum5(z0, z1, w2, w3, z3), Sum5(y0, y1, z2, z3, y3), Sum5(s0, s1, x2, x3, s3)),
                 Add(Sum5(w0, z0, z1, z2, w3), Sum5(x0, s0, s1, s2, x3))) == s0
  {
    hide Sum5, Sum4, Sum3, Add, Eval, Unit;
    var b := [s0, s1, s2, s3, x0, x1, x2, x3, y0, y1, y2, y3, z0, z1, z2, z3, w0, w1, w2, w3];
    UnitValues();
    Sum5Eval(b, 16, 17, 13, 14, 15, 0x30000, 0x32000, 0x36000, 0x3E000);
    Sum5Eval(b, 12, 13, 9, 10, 11, 0x03000, 0x03200, 0x03600, 0x03E00);
    Sum5Eval(b, 8, 9, 5, 6, 7, 0x00300, 0x00320, 0x00360, 0x003E0);
    Sum5Eval(b, 12, 17, 18, 14, 15, 0x21000, 0x61000, 0x65000, 0x6D000);
    Sum5Eval(b, 4, 9, 10, 6, 7, 0x00210, 0x00610, 0x00650, 0x006D0);
    Sum5Eval(b, 0, 5, 6, 2, 3, 0x00021, 0x00061, 0x00065, 0x0006D);
    Sum5Eval(b, 12, 13, 18, 19, 15, 0x03000, 0x43000, 0xC3000, 0xCB000);
    Sum5Eval(b, 8, 9, 14, 15, 11, 0x00300, 0x04300, 0x0C300, 0x0CB00);
    Sum5Eval(b, 0, 1, 6, 7, 3, 0x00003, 0x00043, 0x000C3, 0x000CB);
    Sum5Eval(b, 16, 12, 13, 14, 19, 0x11000, 0x13000, 0x17000, 0x97000);
    Sum5Eval(b, 4, 0, 1, 2, 7, 0x00011, 0x00013, 0x00017, 0x00097);
    Sum3Eval(b, 0x3E000, 0x03E00, 0x003E0, 0x3DE00, 0x3DDE0);
    Sum3Eval(b, 0x6D000, 0x006D0, 0x0006D, 0x6D6D0, 0x6D6BD);
    Sum3Eval(b, 0xCB000, 0x0CB00, 0x000CB, 0xC7B00, 0xC7BCB);
    EvalPlus(0x97000, 0x00097, 0x97097, b);
    Sum4Eval(b, 0x3DDE0, 0x6D6BD, 0xC7BCB, 0x97097, 0x50B5D, 0x97096, 0x00001);
    EvalUnit(0, b);
  }

  lemma MixFirst(s0: bv8, s1: bv8, s2: bv8, s3: bv8)
    ensures MixInv(Mix(Col(s0, s1, s2, s3))).s0 == s0
  {
    hide Xtime, Add, GfMul;
    var x0, x1, x2, x3 := Xtime(s0), Xtime(s1), Xtime(s2), Xtime(s3);
    var c := Mix(Col(s0, s1, s2, s3));
    GfConstants(c.s0);
    GfConstants(c.s1);
    GfConstants(c.s2);
    GfConstants(c.s3);
    XtimeChain(x0, x1, s1, s2, s3);
    XtimeChain(s0, x1, x2, s2, s3);
    XtimeChain(s0, s1, x2, x3, s3);
    XtimeChain(x0, s0, s1, s2, x3);
    var y0, y1, y2, y3 := Xtime(x0), Xtime(x1), Xtime(x2), Xtime(x3);
    var z0, z1, z2, z3 := Xtime(y0), Xtime(y1), Xtime(y2), Xtime(y3);
    MixIdentity(s0, s1, s2, s3, x0, x1, x2, x3, y0, y1, y2, y3, z0, z1, z2, z3, Xtime(z0), Xtime(z1), Xtime(z2), Xtime(z3));
  }

  // ---------------------------------------------------------------- columns

  function Rot(c: Col): Col { Col(c.s1, c.s2, c.s3, c.s0) }

  lemma Sum5Rot(a: bv8, b: bv8, c: bv8, d: bv8, e: bv8)
    ensures Sum5(b, c, d, e, a) == Sum5(a, b, c, d, e)
  {
    hide Add;
    AddComm(Add(Add(Add(b, c), d), e), a);
    AddAssoc(a, Add(Add(b, c), d), e);
    AddAssoc(a, Add(b, c), d);
    AddAssoc(a, b, c);
  }

  lemma Sum4Rot(a: bv8, b: bv8, c: bv8, d: bv8)
    ensures Sum4(b, c, d, a) == Sum4(a, b, c, d)
  {
    hide Add;
    AddComm(Add(Add(b, c), d), a);
    AddAssoc(a, Add(b, c), d);
    AddAssoc(a, b, c);
  }

  /** Mixing treats the four positions alike. */
  lemma MixRot(c: Col)
    ensures Mix(Rot(c)) == Rot(Mix(c))
  {
    hide Xtime, Sum5;
    var Col(s0, s1, s2, s3) := c;
    var x0, x1, x2, x3 := Xtime(s0), Xtime(s1), Xtime(s2), Xtime(s3);
    Sum5Rot(s0, x1, x2, s2, s3);
    Sum5Rot(s0, s1, x2, x3, s3);
    Sum5Rot(x0, s0, s1, s2, x3);
    Sum5Rot(s0, s1, s2, x3, x0);
    Sum5Rot(x0, x1, s1, s2, s3);
  }

  lemma MixInvRot(c: Col)
    ensures MixInv(Rot(c)) == Rot(MixInv(c))
  {
    hide GfMul, Sum4;
    var Col(s0, s1, s2, s3) := c;
    Sum4Rot(GfMul(9, s0), GfMul(14, s1), GfMul(11, s2), GfMul(13, s3));
    Sum4Rot(GfMul(13, s0), GfMul(9, s1), GfMul(14, s2), GfMul(11, s3));
    Sum4Rot(GfMul(11, s0), GfMul(13, s1), GfMul(9, s2), GfMul(14, s3));
    Sum4Rot(GfMul(14, s0), GfMul(11, s1), GfMul(13, s2), GfMul(9, s3));
  }

  lemma MixFirstOf(c: Col)
    ensures MixInv(Mix(c)).s0 == c.s0
  {
    hide Mix, MixInv;
    MixFirst(c.s0, c.s1, c.s2, c.s3);
  }

  lemma MixUndone(c: Col)
    ensures MixInv(Mix(c)) == c
  {
    hide Mix, MixInv;
    var c1 := Rot(c);
    var c2 := Rot(c1);
    var c3 := Rot(c2);
    MixRot(c);
    MixRot(c1);
    MixRot(c2);
    MixInvRot(Mix(c));
    MixInvRot(Rot(Mix(c)));
    MixInvRot(Rot(Rot(Mix(c))));
    MixFirstOf(c);
    MixFirstOf(c1);
    MixFirstOf(c2);
    MixFirstOf(c3);
  }

  lemma Columns(b: Block, c0: Col, c1: Col, c2: Col, c3: Col)
    ensures Join(ColOf(b, 0), ColOf(b, 1), ColOf(b, 2), ColOf(b, 3)) == b
    ensures var j := Join(c0, c1, c2, c3); ColOf(j, 0) == c0 && ColOf(j, 1) == c1 && ColOf(j, 2) == c2 && ColOf(j, 3) == c3
  {
  }

  lemma MixColumnsUndone(b: Block)
    ensures MixColumnsInv(MixColumns(b)) == b
  {
    hide Mix, MixInv, Join, ColOf;
    Columns(b, Mix(ColOf(b, 0)), Mix(ColOf(b, 1)), Mix(ColOf(b, 2)), Mix(ColOf(b, 3)));
    MixUndone(ColOf(b, 0));
    MixUndone(ColOf(b, 1));
    MixUndone(ColOf(b, 2));
    MixUndone(ColOf(b, 3));
  }

  // ---------------------------------------------------------------- the cipher

  function RoundKey(rk: Schedule, r: nat): Block
    requires r <= 10
  {
    rk[16 * r..16 * r + 16]
  }

  /** The state after round `r` of encryption. */
  function Forward(rk: Schedule, b: Block, r: nat): Block
    requires r <= 10
  {
    if r == 0 then Xor(b, RoundKey(rk, 0))
    else
      var s := ShiftRows(SubBytes(Forward(rk, b, r - 1)));
      Xor(if r < 10 then MixColumns(s) else s, RoundKey(rk, r))
  }

  function Encrypt(rk: Schedule, b: Block): Block { Forward(rk, b, 10) }

  /** The state of decryption before it comes to round `r`. */
  function Backward(rk: Schedule, c: Block, r: nat): Block
    requires r <= 10
    decreases 10 - r
  {
    if r == 10 then Xor(c, RoundKey(rk, 10))
    else
      var s := Xor(SubInv(ShiftInv(Backward(rk, c, r + 1))), RoundKey(rk, r));
      if r > 0 then MixColumnsInv(s) else s
  }

  function Decrypt(rk: Schedule, c: Block): Block { Backward(rk, c, 0) }

  /** Going back, the state before round `r` is the one encryption had half way into that round. */
  lemma {:induction false} BackwardMirrors(rk: Schedule, b: Block, r: nat)
    requires 1 <= r <= 10
    ensures Backward(rk, Encrypt(rk, b), r) == ShiftRows(SubBytes(Forward(rk, b, r - 1)))
    decreases 10 - r
  {
    hide Xor, SubBytes, SubInv, ShiftRows, ShiftInv, MixColumns, MixColumnsInv, RoundKey;
    var half := ShiftRows(SubBytes(Forward(rk, b, r - 1)));
    if r == 10 {
      XorUndone(half, RoundKey(rk, 10));
    } else {
      BackwardMirrors(rk, b, r + 1);
      ShiftUndone(SubBytes(Forward(rk, b, r)));
      SubUndone(Forward(rk, b, r));
      XorUndone(MixColumns(half), RoundKey(rk, r));
      MixColumnsUndone(half);
    }
  }

  /** Decryption undoes encryption, whatever the schedule. */
  lemma DecryptEncrypt(rk: Schedule, b: Block)
    ensures Decrypt(rk, Encrypt(rk, b)) == b
  {
    hide Xor, SubBytes, SubInv, ShiftRows, ShiftInv, MixColumns, MixColumnsInv, RoundKey, Encrypt;
    BackwardMirrors(rk, b, 1);
    ShiftUndone(SubBytes(Forward(rk, b, 0)));
    SubUndone(Forward(rk, b, 0));
    XorUndone(b, RoundKey(rk, 0));
  }
}
