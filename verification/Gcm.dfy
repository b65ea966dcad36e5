/** Galois counter mode: NIST SP 800-38D sections 6.3 to 7.2, as the record layer runs it. */
module Gcm {
  import opened Common
  import opened AesSbox
  import opened Aes
  import opened AesBlock
  import opened AesModes


  // ---------------------------------------------------------------- the hash

  /** 128 bits, the first bit of the block in the top bit of `hi`. */
  datatype G = G(hi: bv64, lo: bv64)

  function Xw(a: bv64, b: bv64): bv64 { a ^ b }
  function Shl(x: bv64): bv64 { x << 1 }
  function Plus(a: G, b: G): G { G(Xw(a.hi, b.hi), Xw(a.lo, b.lo)) }
  const NIL := G(0, 0)

  function Shr(x: bv64): bv64 { x >> 1 }

  predicate Odd(x: bv64) { x & 1 != 0 }

  function Reduced(hi: bv64, odd: bool): bv64 { if odd then Xw(hi, 0xe100_0000_0000_0000) else hi }

  function Joined(lo: bv64, hi: bv64): bv64 { (lo >> 1) | (hi << 63) }

  /** One step down, reduced by the field's polynomial: multiplication by x. */
  function Halve(v: G): G { G(Reduced(Shr(v.hi), Odd(v.lo)), Joined(v.lo, v.hi)) }

  predicate Top(x: bv64) { (x >> 63) & 1 == 1 }

  /** The loop over one word, most significant bit first. */
  function MulWord(x: bv64, v: G, z: G, n: nat): (G, G)
    decreases n
  {
    if n == 0 then (z, v) else MulWord(Shl(x), Halve(v), if Top(x) then Plus(z, v) else z, n - 1)
  }

  function GhashMul(x: G, h: G): G {
    var (z, v) := MulWord(x.hi, h, NIL, 64);
    MulWord(x.lo, v, z, 64).0
  }

  /** `ghash_mul`: bit `63 - k` of the word is looked at in step `k`. */
  method MultiplyWord(x: bv64, v0: G, z0: G) returns (z: G, v: G)
    ensures (z, v) == MulWord(x, v0, z0, 64)
  {
    hide Halve, Plus, Shl, Top;
    z, v := z0, v0;
    var y := x;
    for k := 0 to 64
      invariant MulWord(y, v, z, 64 - k) == MulWord(x, v0, z0, 64)
    {
      if Top(y) {
        z := Plus(z, v);
      }
      v := Halve(v);
      y := Shl(y);
    }
  }

  method Multiply(x: G, h: G) returns (r: G)
    ensures r == GhashMul(x, h)
  {
    var z, v := MultiplyWord(x.hi, h, NIL);
    z, v := MultiplyWord(x.lo, v, z);
    r := z;
  }

  lemma XwAssoc(a: bv64, b: bv64, c: bv64)
    ensures Xw(Xw(a, b), c) == Xw(a, Xw(b, c))
  {
  }

  lemma XwFacts(a: bv64, b: bv64)
    ensures Xw(a, b) == Xw(b, a) && Xw(a, a) == 0 && Xw(a, 0) == a
  {
  }

  lemma PlusAssoc(a: G, b: G, c: G)
    ensures Plus(Plus(a, b), c) == Plus(a, Plus(b, c)) && Plus(a, b) == Plus(b, a)
  {
    hide Xw;
    XwAssoc(a.hi, b.hi, c.hi);
    XwAssoc(a.lo, b.lo, c.lo);
    XwFacts(a.hi, b.hi);
    XwFacts(a.lo, b.lo);
  }

  lemma PlusSelf(a: G)
    ensures Plus(a, a) == NIL && Plus(a, NIL) == a
  {
    hide Xw;
    XwFacts(a.hi, a.hi);
    XwFacts(a.lo, a.lo);
  }

  lemma PlusFour(a: G, b: G, c: G, d: G)
    ensures Plus(Plus(a, b), Plus(c, d)) == Plus(Plus(a, c), Plus(b, d))
  {
    hide Plus;
    PlusAssoc(a, b, Plus(c, d));
    PlusAssoc(b, c, d);
    PlusAssoc(c, b, d);
    PlusAssoc(a, c, Plus(b, d));
  }

  lemma TopXor(x: bv64, y: bv64)
    ensures Top(Xw(x, y)) <==> Top(x) != Top(y)
    ensures Shl(Xw(x, y)) == Xw(Shl(x), Shl(y))
  {
  }

  /** What one bit does to two sums at once. */
  lemma BitAdds(p: bool, q: bool, z: G, w: G, v: G)
    ensures Plus(if p then Plus(z, v) else z, if q then Plus(w, v) else w) == if p != q then Plus(Plus(z, w), v) else Plus(z, w)
  {
    hide Plus;
    PlusFour(z, v, w, v);
    PlusSelf(v);
    PlusSelf(Plus(z, w));
    PlusAssoc(z, v, w);
    PlusAssoc(v, w, NIL);
    PlusAssoc(z, w, v);
  }

  /** Adding the multipliers adds the sums and leaves the running product alone. */
  lemma {:induction false} MulWordAdds(x: bv64, y: bv64, v: G, z: G, w: G, n: nat)
    ensures MulWord(Xw(x, y), v, Plus(z, w), n).0 == Plus(MulWord(x, v, z, n).0, MulWord(y, v, w, n).0)
    ensures MulWord(Xw(x, y), v, Plus(z, w), n).1 == MulWord(x, v, z, n).1 == MulWord(y, v, w, n).1
    decreases n
  {
    hide Plus, Halve, Top, Xw, Shl;
    if n > 0 {
      TopXor(x, y);
      BitAdds(Top(x), Top(y), z, w, v);
      MulWordAdds(Shl(x), Shl(y), Halve(v), if Top(x) then Plus(z, v) else z, if Top(y) then Plus(w, v) else w, n - 1);
    }
  }

  /** The product distributes over addition, as a field's must. */
  lemma GhashMulAdds(x: G, y: G, h: G)
    ensures GhashMul(Plus(x, y), h) == Plus(GhashMul(x, h), GhashMul(y, h))
  {
    hide MulWord, Xw;
    PlusSelf(NIL);
    MulWordAdds(x.hi, y.hi, h, NIL, NIL, 64);
    var a, b := MulWord(x.hi, h, NIL, 64), MulWord(y.hi, h, NIL, 64);
    MulWordAdds(x.lo, y.lo, a.1, a.0, b.0, 64);
  }

  lemma LowJoins(al: bv64, ah: bv64, bl: bv64, bh: bv64)
    ensures ((al ^ bl) >> 1) | ((ah ^ bh) << 63) == ((al >> 1) | (ah << 63)) ^ ((bl >> 1) | (bh << 63))
  {
  }

  lemma OddAdds(x: bv64, y: bv64)
    ensures Odd(Xw(x, y)) <==> Odd(x) != Odd(y)
  {
  }

  lemma HighJoins(x: bv64, y: bv64)
    ensures (x ^ y) >> 1 == (x >> 1) ^ (y >> 1)
  {
  }

  lemma HighAdds(x: bv64, y: bv64)
    ensures Shr(Xw(x, y)) == Xw(Shr(x), Shr(y))
  {
    hide Xw;
    XwIs(x, y);
    XwIs(x >> 1, y >> 1);
    HighJoins(x, y);
  }

  lemma ReducedAdds(x: bv64, y: bv64, p: bool, q: bool)
    ensures Reduced(Xw(x, y), p != q) == Xw(Reduced(x, p), Reduced(y, q))
  {
    hide Xw;
    XwAssoc(x, y, 0xe100_0000_0000_0000);
    XwAssoc(x, 0xe100_0000_0000_0000, y);
    XwFacts(y, 0xe100_0000_0000_0000);
    XwAssoc(Xw(x, 0xe100_0000_0000_0000), y, 0xe100_0000_0000_0000);
    XwAssoc(x, y, 0);
    XwAssoc(y, 0xe100_0000_0000_0000, 0xe100_0000_0000_0000);
    XwAssoc(x, 0xe100_0000_0000_0000, Xw(y, 0xe100_0000_0000_0000));
    XwAssoc(0xe100_0000_0000_0000, 0xe100_0000_0000_0000, y);
    XwFacts(0xe100_0000_0000_0000, 0);
    XwFacts(y, 0);
    XwFacts(0xe100_0000_0000_0000, y);
  }

  lemma XwIs(a: bv64, b: bv64)
    ensures Xw(a, b) == a ^ b
  {
  }

  lemma LowAdds(al: bv64, ah: bv64, bl: bv64, bh: bv64)
    ensures Joined(Xw(al, bl), Xw(ah, bh)) == Xw(Joined(al, ah), Joined(bl, bh))
  {
    hide Xw;
    XwIs(al, bl);
    XwIs(ah, bh);
    XwIs(Joined(al, ah), Joined(bl, bh));
    LowJoins(al, ah, bl, bh);
  }

  lemma HalveAdds(a: G, b: G)
    ensures Halve(Plus(a, b)) == Plus(Halve(a), Halve(b))
  {
    hide Xw, Odd, Reduced, Shr, Joined;
    LowAdds(a.lo, a.hi, b.lo, b.hi);
    OddAdds(a.lo, b.lo);
    HighAdds(a.hi, b.hi);
    ReducedAdds(Shr(a.hi), Shr(b.hi), Odd(a.lo), Odd(b.lo));
  }

  lemma {:induction false} MulWordSlides(x: bv64, v: G, z: G, n: nat)
    ensures MulWord(x, Halve(v), Halve(z), n) == (Halve(MulWord(x, v, z, n).0), Halve(MulWord(x, v, z, n).1))
    decreases n
  {
    hide Halve, Plus, Top, Shl;
    if n > 0 {
      HalveAdds(z, v);
      MulWordSlides(Shl(x), Halve(v), if Top(x) then Plus(z, v) else z, n - 1);
    }
  }

  lemma HalveNil()
    ensures Halve(NIL) == NIL
  {
  }

  /** A factor of x can be taken out. */
  lemma GhashMulSlides(x: G, h: G)
    ensures GhashMul(x, Halve(h)) == Halve(GhashMul(x, h))
  {
    hide Halve, MulWord;
    HalveNil();
    MulWordSlides(x.hi, h, NIL, 64);
    var a := MulWord(x.hi, h, NIL, 64);
    MulWordSlides(x.lo, a.1, a.0, 64);
  }

  lemma {:induction false} MulWordNone(v: G, z: G, n: nat)
    ensures MulWord(0, v, z, n).0 == z
    decreases n
  {
    hide Halve, Plus;
    if n > 0 { MulWordNone(Halve(v), z, n - 1); }
  }

  const ONE := G(0x8000_0000_0000_0000, 0)

  /** The block whose first bit alone is set is one. */
  lemma GhashMulOne(h: G)
    ensures GhashMul(ONE, h) == h
  {
    hide Halve;
    var x: bv64 := 0x8000_0000_0000_0000;
    assert Top(x) && Shl(x) == 0;
    assert MulWord(x, h, NIL, 64) == MulWord(0, Halve(h), Plus(NIL, h), 63);
    MulWordNone(Halve(h), Plus(NIL, h), 63);
    PlusAssoc(NIL, h, NIL);
    PlusSelf(h);
    MulWordNone(MulWord(x, h, NIL, 64).1, h, 64);
  }

  // ---------------------------------------------------------------- multiplication by one from the right

  const TOP: bv64 := 0x8000_0000_0000_0000

  /** The bits of `y`, from the top, laid out from the bit `m` downwards. */
  function Spread(y: bv64, m: bv64, n: nat): bv64
    decreases n
  {
    if n == 0 then 0 else Xw(if Top(y) then m else 0, Spread(Shl(y), Shr(m), n - 1))
  }

  /** The next `n` halvings of `m` lose no bit before the last. */
  ghost predicate Evens(m: bv64, n: nat)
    decreases n
  {
    n <= 1 || (!Odd(m) && Evens(Shr(m), n - 1))
  }

  lemma {:induction false} SpreadShr(y: bv64, m: bv64, n: nat)
    ensures Spread(y, Shr(m), n) == Shr(Spread(y, m, n))
    decreases n
  {
    hide Xw, Shr, Shl, Top;
    ShrZero();
    if n > 0 {
      SpreadShr(Shl(y), Shr(m), n - 1);
      HighAdds(if Top(y) then m else 0, Spread(Shl(y), Shr(m), n - 1));
    }
  }

  lemma ShrZero()
    ensures Shr(0) == 0
  {
  }

  /** A word is its top bit and the rest shifted up. */
  lemma TopAndRest(y: bv64)
    ensures Xw(if Top(y) then TOP else 0, Shr(Shl(y))) == y
  {
    hide Xw;
    XwIs(TOP, Shr(Shl(y)));
    XwFacts(Shr(Shl(y)), 0);
    XwFacts(0, Shr(Shl(y)));
    if Top(y) { TopSet(y); } else { TopClear(y); }
  }

  lemma TopSet(y: bv64)
    requires (y >> 63) & 1 == 1
    ensures 0x8000_0000_0000_0000 ^ ((y << 1) >> 1) == y
  {
  }

  lemma TopClear(y: bv64)
    requires (y >> 63) & 1 != 1
    ensures (y << 1) >> 1 == y
  {
  }

  ghost predicate Empties(y: bv64, n: nat)
    decreases n
  {
    if n == 0 then y == 0 else Empties(Shl(y), n - 1)
  }

  lemma {:induction false} SpreadIs(y: bv64, n: nat)
    requires Empties(y, n)
    ensures Spread(y, TOP, n) == y
    decreases n
  {
    hide Xw, Shr, Shl, Top;
    if n > 0 {
      SpreadIs(Shl(y), n - 1);
      SpreadShr(Shl(y), TOP, n - 1);
      TopAndRest(y);
    }
  }

  lemma Shl8(y: bv64)
    ensures Shl(Shl(Shl(Shl(Shl(Shl(Shl(Shl(y)))))))) == y << 8
  {
  }

  lemma EmptiesByte(y: bv64, n: nat)
    requires Empties(y << 8, n)
    ensures Empties(y, n + 8)
  {
    hide Shl;
    Shl8(y);
    var y2 := Shl(Shl(y));
    var y4 := Shl(Shl(y2));
    var y6 := Shl(Shl(y4));
    assert Empties(y6, n + 2);
    assert Empties(y4, n + 4);
    assert Empties(y2, n + 6);
  }

  lemma Bytes8(y: bv64)
    ensures (((((((y << 8) << 8) << 8) << 8) << 8) << 8) << 8) << 8 == 0
  {
  }

  lemma EmptiesAll(y: bv64)
    ensures Empties(y, 64)
  {
    hide Shl;
    Bytes8(y);
    var y1 := y << 8;
    var y2 := y1 << 8;
    var y3 := y2 << 8;
    var y4 := y3 << 8;
    var y5 := y4 << 8;
    var y6 := y5 << 8;
    var y7 := y6 << 8;
    EmptiesByte(y7, 0);
    EmptiesByte(y6, 8);
    EmptiesByte(y5, 16);
    EmptiesByte(y4, 24);
    EmptiesByte(y3, 32);
    EmptiesByte(y2, 40);
    EmptiesByte(y1, 48);
    EmptiesByte(y, 56);
  }

  lemma EvensLow()
    ensures Evens(0x80, 8)
  {
    assert Evens(0x08, 4) by { assert Shr(0x08) == 0x04 && Shr(0x04) == 0x02 && Evens(0x02, 2); }
    assert Shr(0x80) == 0x40 && Shr(0x40) == 0x20 && Shr(0x20) == 0x10 && Shr(0x10) == 0x08;
    assert Evens(0x20, 6);
  }

  lemma Shr8(m: bv64)
    requires m & 0xFF == 0
    ensures !Odd(m) && !Odd(Shr(m)) && !Odd(Shr(Shr(m))) && !Odd(Shr(Shr(Shr(m)))) && !Odd(Shr(Shr(Shr(Shr(m)))))
    ensures !Odd(Shr(Shr(Shr(Shr(Shr(m)))))) && !Odd(Shr(Shr(Shr(Shr(Shr(Shr(m)))))))
    ensures !Odd(Shr(Shr(Shr(Shr(Shr(Shr(Shr(m)))))))) && Shr(Shr(Shr(Shr(Shr(Shr(Shr(Shr(m)))))))) == m >> 8
  {
  }

  lemma EvensByte(m: bv64, n: nat)
    requires m & 0xFF == 0 && Evens(m >> 8, n) && n > 0
    ensures Evens(m, n + 8)
  {
    Shr8(m);
    hide Shr, Odd;
    var m2 := Shr(Shr(m));
    var m4 := Shr(Shr(m2));
    var m6 := Shr(Shr(m4));
    assert Evens(m6, n + 2);
    assert Evens(m4, n + 4);
    assert Evens(m2, n + 6);
  }

  lemma EvensTop()
    ensures Evens(TOP, 64)
  {
    hide Shr, Odd, Evens;
    EvensLow();
    EvensByte(0x8000, 8);
    EvensByte(0x80_0000, 16);
    EvensByte(0x8000_0000, 24);
    EvensByte(0x80_0000_0000, 32);
    EvensByte(0x8000_0000_0000, 40);
    EvensByte(0x80_0000_0000_0000, 48);
    EvensByte(TOP, 56);
  }

  lemma HalveHigh(m: bv64)
    requires !Odd(m)
    ensures Halve(G(m, 0)) == G(Shr(m), 0)
  {
    assert !Odd(0);
    assert m & 1 == 0 ==> ((0 as bv64) >> 1) | (m << 63) == 0;
  }

  lemma HalveLow(m: bv64)
    requires !Odd(m)
    ensures Halve(G(0, m)) == G(0, Shr(m))
  {
    assert ((0 as bv64) << 63) == 0 && Shr(0) == 0;
    assert (m >> 1) | 0 == m >> 1;
  }

  lemma PlusHigh(z: G, a: bv64, b: bv64)
    ensures Plus(Plus(z, G(a, 0)), G(b, 0)) == Plus(z, G(Xw(a, b), 0)) && Plus(z, G(0, 0)) == z
  {
    hide Xw;
    XwAssoc(z.hi, a, b);
    XwFacts(z.hi, 0);
    XwFacts(z.lo, 0);
  }

  lemma PlusLow(z: G, a: bv64, b: bv64)
    ensures Plus(Plus(z, G(0, a)), G(0, b)) == Plus(z, G(0, Xw(a, b))) && Plus(z, G(0, 0)) == z
  {
    hide Xw;
    XwAssoc(z.lo, a, b);
    XwFacts(z.hi, 0);
    XwFacts(z.lo, 0);
  }

  lemma {:induction false} MulWordHigh(y: bv64, m: bv64, z: G, n: nat)
    requires Evens(m, n)
    ensures MulWord(y, G(m, 0), z, n).0 == Plus(z, G(Spread(y, m, n), 0))
    decreases n
  {
    hide Halve, Plus, Xw, Shl, Shr, Odd, Top;
    PlusHigh(z, if Top(y) then m else 0, Spread(Shl(y), Shr(m), if n > 0 then n - 1 else 0));
    PlusHigh(z, 0, 0);
    if n == 1 {
      XwFacts(if Top(y) then m else 0, 0);
      assert Spread(Shl(y), Shr(m), 0) == 0;
    } else if n > 1 {
      HalveHigh(m);
      MulWordHigh(Shl(y), Shr(m), if Top(y) then Plus(z, G(m, 0)) else z, n - 1);
    }
  }

  lemma {:induction false} MulWordLow(y: bv64, m: bv64, z: G, n: nat)
    requires Evens(m, n)
    ensures MulWord(y, G(0, m), z, n).0 == Plus(z, G(0, Spread(y, m, n)))
    decreases n
  {
    hide Halve, Plus, Xw, Shl, Shr, Odd, Top;
    PlusLow(z, if Top(y) then m else 0, Spread(Shl(y), Shr(m), if n > 0 then n - 1 else 0));
    PlusLow(z, 0, 0);
    if n == 1 {
      XwFacts(if Top(y) then m else 0, 0);
      assert Spread(Shl(y), Shr(m), 0) == 0;
    } else if n > 1 {
      HalveLow(m);
      MulWordLow(Shl(y), Shr(m), if Top(y) then Plus(z, G(0, m)) else z, n - 1);
    }
  }

  function Shrs(m: bv64, n: nat): bv64
    decreases n
  {
    if n == 0 then m else Shrs(Shr(m), n - 1)
  }

  lemma ShrsByte(m: bv64, n: nat)
    requires m & 0xFF == 0
    ensures Shrs(m, n + 8) == Shrs(m >> 8, n)
  {
    Shr8(m);
    hide Shr, Odd;
    var m2 := Shr(Shr(m));
    var m4 := Shr(Shr(m2));
    var m6 := Shr(Shr(m4));
    assert Shrs(m, n + 8) == Shrs(m2, n + 6);
    assert Shrs(m2, n + 6) == Shrs(m4, n + 4);
    assert Shrs(m4, n + 4) == Shrs(m6, n + 2);
    assert Shrs(m6, n + 2) == Shrs(Shr(Shr(m6)), n);
  }

  lemma ShrsLow()
    ensures Shrs(0x80, 7) == 1
  {
    assert Shr(0x80) == 0x40 && Shr(0x40) == 0x20 && Shr(0x20) == 0x10 && Shr(0x10) == 0x08;
    assert Shr(0x08) == 0x04 && Shr(0x04) == 0x02 && Shr(0x02) == 1;
    assert Shrs(0x80, 7) == Shrs(0x20, 5);
    assert Shrs(0x20, 5) == Shrs(0x08, 3);
    assert Shrs(0x08, 3) == Shrs(0x02, 1);
  }

  lemma ShrsTop()
    ensures Shrs(TOP, 63) == 1
  {
    hide Shrs;
    ShrsLow();
    ShrsByte(0x8000, 7);
    ShrsByte(0x80_0000, 15);
    ShrsByte(0x8000_0000, 23);
    ShrsByte(0x80_0000_0000, 31);
    ShrsByte(0x8000_0000_0000, 39);
    ShrsByte(0x80_0000_0000_0000, 47);
    ShrsByte(TOP, 55);
  }

  lemma {:induction false} MulWordEnd(y: bv64, m: bv64, z: G, n: nat)
    requires Evens(m, n) && n > 0
    ensures MulWord(y, G(m, 0), z, n).1 == Halve(G(Shrs(m, n - 1), 0))
    decreases n
  {
    hide Halve, Plus, Shl, Shr, Odd, Top;
    if n > 1 {
      HalveHigh(m);
      MulWordEnd(Shl(y), Shr(m), if Top(y) then Plus(z, G(m, 0)) else z, n - 1);
    }
  }

  lemma HalveOne()
    ensures Halve(G(1, 0)) == G(0, TOP)
  {
  }

  /** One is one from the right as well: the running sum rebuilds the factor bit by bit. */
  lemma GhashMulByOne(x: G)
    ensures GhashMul(x, ONE) == x
  {
    hide MulWord, Halve, Spread, Evens, Empties, Shrs, Xw;
    EvensTop();
    ShrsTop();
    HalveOne();
    MulWordHigh(x.hi, TOP, NIL, 64);
    MulWordEnd(x.hi, TOP, NIL, 64);
    MulWordLow(x.lo, TOP, Plus(NIL, G(x.hi, 0)), 64);
    EmptiesAll(x.hi);
    EmptiesAll(x.lo);
    SpreadIs(x.hi, 64);
    SpreadIs(x.lo, 64);
    XwFacts(0, x.hi);
    XwFacts(x.hi, 0);
    XwFacts(0, x.lo);
    XwFacts(x.lo, 0);
    XwFacts(0, 0);
  }

  // ---------------------------------------------------------------- the product is determined

  /** Additive, and a factor of x can be taken out. */
  ghost predicate Linear(f: G -> G) {
    && (forall a, b {:trigger f(Plus(a, b))} :: f(Plus(a, b)) == Plus(f(a), f(b)))
    && (forall a {:trigger f(Halve(a))} :: f(Halve(a)) == Halve(f(a)))
  }

  lemma LinearAt(f: G -> G, a: G, b: G)
    requires Linear(f)
    ensures f(Plus(a, b)) == Plus(f(a), f(b)) && f(Halve(a)) == Halve(f(a)) && f(NIL) == NIL
  {
    hide Plus, Halve;
    assert f(Plus(NIL, NIL)) == Plus(f(NIL), f(NIL));
    PlusSelf(NIL);
    PlusSelf(f(NIL));
  }

  lemma {:induction false} MulWordThrough(f: G -> G, x: bv64, v: G, z: G, n: nat)
    requires Linear(f)
    ensures f(MulWord(x, v, z, n).0) == MulWord(x, f(v), f(z), n).0
    ensures f(MulWord(x, v, z, n).1) == MulWord(x, f(v), f(z), n).1
    decreases n
  {
    hide Plus, Halve, Top, Shl, Linear;
    if n > 0 {
      LinearAt(f, z, v);
      LinearAt(f, v, v);
      MulWordThrough(f, Shl(x), Halve(v), if Top(x) then Plus(z, v) else z, n - 1);
    }
  }

  /** Any linear function that takes one to `h` is multiplication by `h`. */
  lemma ProductUnique(f: G -> G, h: G, x: G)
    requires Linear(f) && f(ONE) == h
    ensures f(x) == GhashMul(x, h)
  {
    hide MulWord, Linear;
    var a := MulWord(x.hi, ONE, NIL, 64);
    LinearAt(f, NIL, NIL);
    MulWordThrough(f, x.hi, ONE, NIL, 64);
    MulWordThrough(f, x.lo, a.1, a.0, 64);
    GhashMulByOne(x);
  }

  lemma {:induction false} MulWordAddsRight(x: bv64, v: G, w: G, z: G, y: G, n: nat)
    ensures MulWord(x, Plus(v, w), Plus(z, y), n).0 == Plus(MulWord(x, v, z, n).0, MulWord(x, w, y, n).0)
    ensures MulWord(x, Plus(v, w), Plus(z, y), n).1 == Plus(MulWord(x, v, z, n).1, MulWord(x, w, y, n).1)
    decreases n
  {
    hide Plus, Halve, Top, Shl;
    if n > 0 {
      HalveAdds(v, w);
      PlusFour(z, y, v, w);
      MulWordAddsRight(Shl(x), Halve(v), Halve(w), if Top(x) then Plus(z, v) else z, if Top(x) then Plus(y, w) else y, n - 1);
    }
  }

  lemma GhashMulAddsRight(x: G, g: G, h: G)
    ensures GhashMul(x, Plus(g, h)) == Plus(GhashMul(x, g), GhashMul(x, h))
  {
    hide MulWord, Plus;
    PlusSelf(NIL);
    MulWordAddsRight(x.hi, g, h, NIL, NIL, 64);
    var a, b := MulWord(x.hi, g, NIL, 64), MulWord(x.hi, h, NIL, 64);
    MulWordAddsRight(x.lo, a.1, b.1, a.0, b.0, 64);
  }

  /** The product does not depend on the order of its factors. */
  lemma GhashMulCommutes(x: G, h: G)
    ensures GhashMul(x, h) == GhashMul(h, x)
  {
    hide GhashMul, Plus, Halve;
    var f := (y: G) => GhashMul(h, y);
    forall a, b ensures f(Plus(a, b)) == Plus(f(a), f(b)) { GhashMulAddsRight(h, a, b); }
    forall a ensures f(Halve(a)) == Halve(f(a)) { GhashMulSlides(h, a); }
    GhashMulByOne(h);
    ProductUnique(f, h, x);
  }

  /** Multiplication by `h` is the one function that adds, lets a factor of x out of its argument and takes one to `h`. */
  lemma ProductDetermined(f: G -> G, h: G)
    ensures (Linear(f) && f(ONE) == h) <==> (forall x :: f(x) == GhashMul(x, h))
  {
    hide GhashMul, Plus, Halve, Linear;
    if Linear(f) && f(ONE) == h {
      forall x ensures f(x) == GhashMul(x, h) { ProductUnique(f, h, x); }
    }
    if forall x :: f(x) == GhashMul(x, h) {
      GhashMulOne(h);
      ProductLinear(f, h);
    }
  }

  lemma ProductLinear(f: G -> G, h: G)
    requires forall x :: f(x) == GhashMul(x, h)
    ensures Linear(f)
  {
    hide GhashMul, Plus, Halve;
    forall a, b ensures f(Plus(a, b)) == Plus(f(a), f(b)) { GhashMulAdds(a, b, h); }
    forall a ensures f(Halve(a)) == Halve(f(a)) {
      GhashMulCommutes(Halve(a), h);
      GhashMulSlides(h, a);
      GhashMulCommutes(h, a);
    }
  }

  /** Big-endian words. */
  function Load(b: seq<bv8>): bv64 { if b == [] then 0 else Shift8(Load(b[..|b| - 1]), b[|b| - 1]) }

  function Shift8(w: bv64, b: bv8): bv64 { (w << 8) | (b as bv64) }

  /** The byte `n` bits up. */
  function Piece(w: bv64, n: bv64): bv8
    requires n <= 56
  {
    ((w >> n) & 0xFF) as bv8
  }

  function WordBe(w: bv64): (r: seq<bv8>)
    ensures |r| == 8
  {
    hide Piece;
    [Piece(w, 56), Piece(w, 48), Piece(w, 40), Piece(w, 32), Piece(w, 24), Piece(w, 16), Piece(w, 8), Piece(w, 0)]
  }

  function Store(g: G): Block { WordBe(g.hi) + WordBe(g.lo) }

  function LoadBlock(b: Block): G { G(Load(b[..8]), Load(b[8..])) }

  /** Whole blocks, then the rest filled up with zeros. */
  function Absorb(h: G, y: G, data: seq<bv8>): G
    decreases |data|
  {
    if data == [] then y
    else if |data| < 16 then GhashMul(Plus(y, LoadBlock(data + seq(16 - |data|, _ => 0))), h)
    else Absorb(h, GhashMul(Plus(y, LoadBlock(data[..16])), h), data[16..])
  }

  function Bits(n: nat): bv64 { (n * 8 % 0x1_0000_0000_0000_0000) as bv64 }

  function Ghash(h: G, aad: seq<bv8>, ct: seq<bv8>): G {
    GhashMul(Plus(Absorb(h, Absorb(h, NIL, aad), ct), G(Bits(|aad|), Bits(|ct|))), h)
  }

  method Process(h: G, y0: G, data: seq<bv8>) returns (y: G)
    ensures y == Absorb(h, y0, data)
  {
    hide GhashMul, Plus, LoadBlock;
    y := y0;
    var i := 0;
    while i + 16 <= |data|
      invariant 0 <= i <= |data| && Absorb(h, y, data[i..]) == Absorb(h, y0, data)
    {
      assert data[i..][..16] == data[i..i + 16] && data[i..][16..] == data[i + 16..];
      y := Multiply(Plus(y, LoadBlock(data[i..i + 16])), h);
      i := i + 16;
    }
    if i < |data| {
      var rest := data[i..];
      y := Multiply(Plus(y, LoadBlock(rest + seq(16 - |rest|, _ => 0))), h);
    }
  }

  method ComputeGhash(h: G, aad: seq<bv8>, ct: seq<bv8>) returns (g: G)
    ensures g == Ghash(h, aad, ct)
  {
    hide GhashMul, Plus, Absorb;
    var y := Process(h, NIL, aad);
    y := Process(h, y, ct);
    g := Multiply(Plus(y, G(Bits(|aad|), Bits(|ct|))), h);
  }

  // ---------------------------------------------------------------- the counter

  type Nonce = n: seq<bv8> | |n| == 12 witness seq(12, _ => 0)

  /** The nonce, then the counter in four bytes, most significant first. */
  function CtrBlock(nonce: Nonce, c: nat): Block
    requires c < U32
  {
    nonce + [(c / 0x100_0000) as bv8, (c / 0x1_0000 % 256) as bv8, (c / 0x100 % 256) as bv8, (c % 256) as bv8]
  }

  /** Byte `i` of the key stream; the block counter starts at two and is 32 bits wide. */
  function KeyByte(rk: Schedule, nonce: Nonce, i: nat): bv8 { Encrypt(rk, CtrBlock(nonce, (i / 16 + 2) % U32))[i % 16] }

  function CtrXor(rk: Schedule, nonce: Nonce, d: seq<bv8>): (r: seq<bv8>)
    ensures |r| == |d|
  {
    seq(|d|, (i: nat) requires i < |d| => Add(d[i], KeyByte(rk, nonce, i)))
  }

  lemma CtrUndone(rk: Schedule, nonce: Nonce, d: seq<bv8>)
    ensures CtrXor(rk, nonce, CtrXor(rk, nonce, d)) == d
  {
    hide KeyByte, Add;
    forall i | 0 <= i < |d| ensures CtrXor(rk, nonce, CtrXor(rk, nonce, d))[i] == d[i] {
      var k := KeyByte(rk, nonce, i);
      AddAssoc(d[i], k, k);
      AddZero(k);
      AddZero(d[i]);
    }
  }

  method CtrApply(rk: Schedule, nonce: Nonce, d: seq<bv8>) returns (out: seq<bv8>)
    ensures out == CtrXor(rk, nonce, d)
  {
    hide Encrypt, CtrBlock, Add, KeyByte;
    out := [];
    var i := 0;
    while i < |d|
      invariant |out| == (if i <= |d| then i else |d|) && i % 16 == 0
      invariant forall k :: 0 <= k < |out| ==> out[k] == Add(d[k], KeyByte(rk, nonce, k))
    {
      var kb := Encipher(rk, CtrBlock(nonce, (i / 16 + 2) % U32));
      var take := if |d| - i < 16 then |d| - i else 16;
      for j := 0 to take
        invariant |out| == i + j && forall k :: 0 <= k < |out| ==> out[k] == Add(d[k], KeyByte(rk, nonce, k))
      {
        KeyByteIs(rk, nonce, i, j);
        out := out + [Add(d[i + j], kb[j])];
      }
      i := i + 16;
    }
  }

  lemma KeyByteIs(rk: Schedule, nonce: Nonce, i: nat, j: nat)
    requires i % 16 == 0 && j < 16
    ensures KeyByte(rk, nonce, i + j) == Encrypt(rk, CtrBlock(nonce, (i / 16 + 2) % U32))[j]
  {
    hide Encrypt, CtrBlock;
    assert (i + j) / 16 == i / 16 && (i + j) % 16 == j;
  }

  // ---------------------------------------------------------------- records

  const ZERO: Block := [0, 0, 0, 0, 0, 0, 0, 0, 0, 0, 0, 0, 0, 0, 0, 0]

  function Tag(rk: Schedule, nonce: Nonce, aad: seq<bv8>, ct: seq<bv8>): Block {
    Xor(Store(Ghash(LoadBlock(Encrypt(rk, ZERO)), aad, ct)), Encrypt(rk, CtrBlock(nonce, 1)))
  }

  function Seal(rk: Schedule, nonce: Nonce, aad: seq<bv8>, p: seq<bv8>): seq<bv8> {
    var ct := CtrXor(rk, nonce, p);
    ct + Tag(rk, nonce, aad, ct)
  }

  function Open(rk: Schedule, nonce: Nonce, aad: seq<bv8>, c: seq<bv8>): Option<seq<bv8>> {
    if |c| < 16 then None
    else
      var ct := c[..|c| - 16];
      if c[|c| - 16..] == Tag(rk, nonce, aad, ct) then Some(CtrXor(rk, nonce, ct)) else None
  }

  method ComputeTag(rk: Schedule, nonce: Nonce, aad: seq<bv8>, ct: seq<bv8>) returns (tag: Block)
    ensures tag == Tag(rk, nonce, aad, ct)
  {
    hide Encrypt, Ghash, CtrBlock, Store, Xor, LoadBlock;
    var hBlock := Encipher(rk, ZERO);
    var ectr0 := Encipher(rk, CtrBlock(nonce, 1));
    var g := ComputeGhash(LoadBlock(hBlock), aad, ct);
    tag := Xor(Store(g), ectr0);
  }

  /** `aes128gcm_seal`. */
  method GcmSeal(key: Block, nonce: Nonce, aad: seq<bv8>, plaintext: seq<bv8>) returns (out: seq<bv8>)
    ensures out == Seal(Expand(key), nonce, aad, plaintext)
  {
    hide Expand, Tag, CtrXor;
    var rk := NewSchedule(key);
    out := CtrApply(rk, nonce, plaintext);
    var tag := ComputeTag(rk, nonce, aad, out);
    out := out + tag;
  }

  /** `aes128gcm_open`: the tag is compared without stopping early, and nothing is decrypted unless it matches. */
  method GcmOpen(key: Block, nonce: Nonce, aad: seq<bv8>, ciphertext: seq<bv8>) returns (r: Option<seq<bv8>>)
    ensures r == Open(Expand(key), nonce, aad, ciphertext)
  {
    hide Expand, Tag, CtrXor;
    if |ciphertext| < 16 {
      return None;
    }
    var n := |ciphertext| - 16;
    var rk := NewSchedule(key);
    var expected := ComputeTag(rk, nonce, aad, ciphertext[..n]);
    var given := ciphertext[n..];
    var diff: bv8 := 0;
    for i := 0 to 16
      invariant diff == 0 <==> forall k :: 0 <= k < i ==> expected[k] == given[k]
    {
      OrZero(diff, expected[i], given[i]);
      diff := diff | (expected[i] ^ given[i]);
    }
    if diff != 0 {
      return None;
    }
    assert given == expected;
    var p := CtrApply(rk, nonce, ciphertext[..n]);
    return Some(p);
  }

  /** What opens is exactly what was sealed: sealing and opening undo each other in both directions. */
  lemma OpenIffSealed(rk: Schedule, nonce: Nonce, aad: seq<bv8>, c: seq<bv8>, p: seq<bv8>)
    ensures Open(rk, nonce, aad, c) == Some(p) <==> c == Seal(rk, nonce, aad, p)
  {
    hide Tag, CtrXor;
    var sealed := Seal(rk, nonce, aad, p);
    CtrUndone(rk, nonce, p);
    if c == sealed {
      var ct := CtrXor(rk, nonce, p);
      assert c[..|c| - 16] == ct && c[|c| - 16..] == Tag(rk, nonce, aad, ct);
    }
    if Open(rk, nonce, aad, c) == Some(p) {
      var ct := c[..|c| - 16];
      CtrUndone(rk, nonce, ct);
      assert c == ct + c[|c| - 16..];
    }
  }
}
