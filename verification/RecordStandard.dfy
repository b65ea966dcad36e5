/**
 The record layer's modes as their standards define them: Galois counter mode
 by the bits of the field, the blocks of the hashed string and the bytes of the
 counter (NIST SP 800-38D), chaining block by block (NIST SP 800-38A) and the
 padding of RFC 5246.
 */
module RecordStandard {
  import opened Common
  import opened AesSbox
  import opened Aes
  import opened AesModes
  import opened Gcm

  // ---------------------------------------------------------------- section 6.3: the field

  /** Coefficient `i`, counted from the left of the block. */
  predicate Coefficient(g: G, i: bv64)
    requires i < 128
  {
    if i < 64 then IsSet(g.hi, 63 - i) else IsSet(g.lo, 127 - i)
  }

  predicate IsSet(w: bv64, n: bv64)
    requires n < 64
  {
    (w >> n) & 1 == 1
  }

  /** Times x: every coefficient moves one place, and the one that falls off comes back as 1 + x + x^2 + x^7. */
  lemma HalveMeans(v: G, i: bv64)
    requires i < 128
    ensures Coefficient(Halve(v), i) <==>
            ((i > 0 && Coefficient(v, i - 1)) != (Coefficient(v, 127) && (i == 0 || i == 1 || i == 2 || i == 7)))
  {
  }

  /** Addition is bit by bit. */
  lemma PlusMeans(a: G, b: G)
    ensures Plus(a, b).hi == a.hi ^ b.hi && Plus(a, b).lo == a.lo ^ b.lo
  {
  }

  /** One is the block with only its first bit set. */
  lemma OneMeans(i: bv64)
    requires i < 128
    ensures Coefficient(ONE, i) <==> i == 0
  {
  }

  /** Eight bytes as a word, most significant first. */
  function Word(b0: bv8, b1: bv8, b2: bv8, b3: bv8, b4: bv8, b5: bv8, b6: bv8, b7: bv8): bv64 {
    ((b0 as bv64) << 56) | ((b1 as bv64) << 48) | ((b2 as bv64) << 40) | ((b3 as bv64) << 32)
    | ((b4 as bv64) << 24) | ((b5 as bv64) << 16) | ((b6 as bv64) << 8) | (b7 as bv64)
  }

  lemma WordHorner(b0: bv8, b1: bv8, b2: bv8, b3: bv8, b4: bv8, b5: bv8, b6: bv8, b7: bv8)
    ensures Shift8(Shift8(Shift8(Shift8(Shift8(Shift8(Shift8(Shift8(0, b0), b1), b2), b3), b4), b5), b6), b7)
         == Word(b0, b1, b2, b3, b4, b5, b6, b7)
  {
  }

  lemma LoadStep(b: seq<bv8>, k: nat)
    requires k < |b|
    ensures Load(b[..k + 1]) == Shift8(Load(b[..k]), b[k])
  {
    hide Shift8;
    assert b[..k + 1][..k] == b[..k];
  }

  lemma LoadWord(b: seq<bv8>)
    requires |b| == 8
    ensures Load(b) == Word(b[0], b[1], b[2], b[3], b[4], b[5], b[6], b[7])
  {
    hide Load, Shift8, Word;
    assert b[..0] == [] && b[..8] == b;
    assert Load([]) == 0 by { LoadNone(); }
    LoadStep(b, 0);
    LoadStep(b, 1);
    LoadStep(b, 2);
    LoadStep(b, 3);
    LoadStep(b, 4);
    LoadStep(b, 5);
    LoadStep(b, 6);
    LoadStep(b, 7);
    WordHorner(b[0], b[1], b[2], b[3], b[4], b[5], b[6], b[7]);
  }

  lemma LoadNone()
    ensures Load([]) == 0
  {
  }

  /** A block is read from the left, most significant byte first. */
  lemma LoadMeans(b: Block)
    ensures LoadBlock(b).hi == Word(b[0], b[1], b[2], b[3], b[4], b[5], b[6], b[7])
    ensures LoadBlock(b).lo == Word(b[8], b[9], b[10], b[11], b[12], b[13], b[14], b[15])
  {
    hide Word, Load;
    LoadWord(b[..8]);
    LoadWord(b[8..]);
  }

  lemma WordPieces(b0: bv8, b1: bv8, b2: bv8, b3: bv8, b4: bv8, b5: bv8, b6: bv8, b7: bv8)
    ensures var w := Word(b0, b1, b2, b3, b4, b5, b6, b7);
            && Piece(w, 56) == b0 && Piece(w, 48) == b1 && Piece(w, 40) == b2 && Piece(w, 32) == b3
            && Piece(w, 24) == b4 && Piece(w, 16) == b5 && Piece(w, 8) == b6 && Piece(w, 0) == b7
  {
  }

  /** And written back the same way. */
  lemma StoreLoad(b: Block)
    ensures Store(LoadBlock(b)) == b
  {
    hide Word, LoadBlock, Piece;
    LoadMeans(b);
    WordPieces(b[0], b[1], b[2], b[3], b[4], b[5], b[6], b[7]);
    WordPieces(b[8], b[9], b[10], b[11], b[12], b[13], b[14], b[15]);
  }

  // ---------------------------------------------------------------- section 6.4: the hash

  /** Y_n of section 6.4: the blocks of `x` added in and multiplied, one after the other. */
  function HashOf(h: G, x: seq<bv8>, n: nat): G
    requires 16 * n <= |x|
  {
    if n == 0 then NIL else GhashMul(Plus(HashOf(h, x, n - 1), LoadBlock(x[16 * (n - 1)..16 * n])), h)
  }

  /** Zeros up to the next whole block. */
  function Filled(d: seq<bv8>): (r: seq<bv8>)
    ensures |r| % 16 == 0
  {
    d + seq((16 - |d| % 16) % 16, _ => 0)
  }

  /** Step 5 of section 7.1: additional data, ciphertext, and the lengths of both in bits, in this order. */
  function Hashed(aad: seq<bv8>, ct: seq<bv8>): (r: seq<bv8>)
    ensures |r| % 16 == 0
  {
    hide Filled, WordBe, Length;
    WholeSum(|Filled(aad)|, |Filled(ct)|);
    Filled(aad) + Filled(ct) + WordBe(Length(aad)) + WordBe(Length(ct))
  }

  lemma WholeSum(a: nat, b: nat)
    requires a % 16 == 0 && b % 16 == 0
    ensures (a + b + 8 + 8) % 16 == 0
  {
  }

  /** The number of bits in 64 bits. */
  function Length(d: seq<bv8>): bv64 { (8 * |d| % 0x1_0000_0000_0000_0000) as bv64 }

  lemma {:induction false} HashPrefix(h: G, x: seq<bv8>, y: seq<bv8>, n: nat)
    requires 16 * n <= |x|
    ensures HashOf(h, x + y, n) == HashOf(h, x, n)
  {
    hide GhashMul, Plus, LoadBlock;
    if n > 0 {
      HashPrefix(h, x, y, n - 1);
      assert (x + y)[16 * (n - 1)..16 * n] == x[16 * (n - 1)..16 * n];
    }
  }

  lemma HashNext(h: G, x: seq<bv8>, b: Block)
    requires |x| % 16 == 0
    ensures HashOf(h, x + b, |x| / 16 + 1) == GhashMul(Plus(HashOf(h, x, |x| / 16), LoadBlock(b)), h)
  {
    hide GhashMul, Plus, LoadBlock;
    HashPrefix(h, x, b, |x| / 16);
    assert (x + b)[|x|..|x| + 16] == b;
  }

  lemma {:induction false} AbsorbMeans(h: G, x: seq<bv8>, d: seq<bv8>)
    requires |x| % 16 == 0
    ensures Absorb(h, HashOf(h, x, |x| / 16), d) == HashOf(h, x + Filled(d), |x + Filled(d)| / 16)
    decreases |d|
  {
    hide GhashMul, Plus, LoadBlock, HashOf, Filled;
    FilledIs(d);
    if d == [] {
      assert x + Filled(d) == x;
    } else if |d| < 16 {
      HashNext(h, x, Filled(d));
    } else {
      HashNext(h, x, d[..16]);
      AbsorbMeans(h, x + d[..16], d[16..]);
      assert x + d[..16] + Filled(d[16..]) == x + Filled(d);
    }
  }

  lemma FilledIs(d: seq<bv8>)
    ensures d == [] ==> Filled(d) == []
    ensures 0 < |d| < 16 ==> |Filled(d)| == 16 && Filled(d) == d + seq(16 - |d|, _ => 0)
    ensures |d| >= 16 ==> Filled(d) == d[..16] + Filled(d[16..])
  {
    if |d| >= 16 {
      assert |d[16..]| % 16 == |d| % 16;
      assert d == d[..16] + d[16..];
    }
  }

  lemma WordBeBack(w: bv64)
    ensures Word(Piece(w, 56), Piece(w, 48), Piece(w, 40), Piece(w, 32), Piece(w, 24), Piece(w, 16), Piece(w, 8), Piece(w, 0)) == w
  {
  }

  lemma LengthsLoad(a: bv64, c: bv64)
    ensures LoadBlock(WordBe(a) + WordBe(c)) == G(a, c)
  {
    hide Word, Piece, LoadBlock;
    LoadMeans(WordBe(a) + WordBe(c));
    WordBeBack(a);
    WordBeBack(c);
  }

  /** The hash is the one of section 6.4 over that string. */
  lemma GhashMeans(h: G, aad: seq<bv8>, ct: seq<bv8>)
    ensures Ghash(h, aad, ct) == HashOf(h, Hashed(aad, ct), |Hashed(aad, ct)| / 16)
  {
    hide GhashMul, Plus, LoadBlock, Absorb, HashOf, WordBe, Filled, Length, Bits;
    assert HashOf(h, [], 0) == NIL by { HashNone(h); }
    AbsorbMeans(h, [], aad);
    assert [] + Filled(aad) == Filled(aad);
    AbsorbMeans(h, Filled(aad), ct);
    var a, c := Length(aad), Length(ct);
    LengthsLoad(a, c);
    LengthBits(aad);
    LengthBits(ct);
    var x := Filled(aad) + Filled(ct);
    HashNext(h, x, WordBe(a) + WordBe(c));
    assert x + (WordBe(a) + WordBe(c)) == Hashed(aad, ct);
  }

  lemma HashNone(h: G)
    ensures HashOf(h, [], 0) == NIL
  {
  }

  lemma LengthBits(d: seq<bv8>)
    ensures Length(d) == Bits(|d|)
  {
  }

  // ---------------------------------------------------------------- sections 6.2 and 6.5: the counter

  /** A counter block: the nonce, then `n` in four bytes, most significant first. */
  ghost predicate IsCounter(cb: Block, nonce: Nonce, n: nat)
    requires n < U32
  {
    && cb[..12] == nonce
    && cb[12] == (n / 0x100_0000) as bv8 && cb[13] == (n / 0x1_0000 % 256) as bv8
    && cb[14] == (n / 0x100 % 256) as bv8 && cb[15] == (n % 256) as bv8
  }

  lemma CounterMeans(cb: Block, nonce: Nonce, n: nat)
    requires n < U32
    ensures IsCounter(cb, nonce, n) <==> cb == CtrBlock(nonce, n)
  {
    if IsCounter(cb, nonce, n) {
      assert cb == cb[..12] + [cb[12], cb[13], cb[14], cb[15]];
    }
  }

  // ---------------------------------------------------------------- section 7.1: a record

  /** Byte `i` of `ct` is byte `i` of `p` under the block of the key stream it falls in; the counter starts at two. */
  ghost predicate Counted(rk: Schedule, nonce: Nonce, p: seq<bv8>, ct: seq<bv8>) {
    && |ct| == |p|
    && forall cb: Block, i {:trigger Encrypt(rk, cb)[i % 16]} ::
         0 <= i < |p| && IsCounter(cb, nonce, (2 + i / 16) % U32) ==> ct[i] == Add(p[i], Encrypt(rk, cb)[i % 16])
  }

  /** The hash under the encrypted zero block, with the first counter block encrypted over it. */
  ghost predicate Tagged(rk: Schedule, nonce: Nonce, aad: seq<bv8>, ct: seq<bv8>, tag: Block) {
    var h := LoadBlock(Encrypt(rk, seq(16, _ => 0)));
    var s := Store(HashOf(h, Hashed(aad, ct), |Hashed(aad, ct)| / 16));
    forall j0: Block, i {:trigger Encrypt(rk, j0)[i]} ::
      0 <= i < 16 && IsCounter(j0, nonce, 1) ==> tag[i] == Add(s[i], Encrypt(rk, j0)[i])
  }

  lemma CtrMeans(rk: Schedule, nonce: Nonce, p: seq<bv8>)
    ensures Counted(rk, nonce, p, CtrXor(rk, nonce, p))
  {
    hide Encrypt, Add, IsCounter, CtrBlock;
    forall cb: Block, i | 0 <= i < |p| && IsCounter(cb, nonce, (2 + i / 16) % U32)
      ensures CtrXor(rk, nonce, p)[i] == Add(p[i], Encrypt(rk, cb)[i % 16])
    {
      CounterMeans(cb, nonce, (2 + i / 16) % U32);
    }
  }

  lemma TagMeans(rk: Schedule, nonce: Nonce, aad: seq<bv8>, ct: seq<bv8>)
    ensures Tagged(rk, nonce, aad, ct, Tag(rk, nonce, aad, ct))
  {
    hide Encrypt, Add, Xor, IsCounter, CtrBlock, Hashed, HashOf, Ghash, LoadBlock, Store;
    var tag := Tag(rk, nonce, aad, ct);
    assert seq(16, _ => 0) == ZERO;
    var h := LoadBlock(Encrypt(rk, ZERO));
    GhashMeans(h, aad, ct);
    forall j0: Block, i | 0 <= i < 16 && IsCounter(j0, nonce, 1)
      ensures tag[i] == Add(Store(Ghash(h, aad, ct))[i], Encrypt(rk, j0)[i])
    {
      CounterMeans(j0, nonce, 1);
      XorAdds(Store(Ghash(h, aad, ct)), Encrypt(rk, j0));
    }
  }

  lemma XorAdds(a: Block, b: Block)
    ensures forall i :: 0 <= i < 16 ==> Xor(a, b)[i] == Add(a[i], b[i])
  {
  }

  /** A sealed record is the counted ciphertext with its tag behind it. */
  lemma SealMeans(rk: Schedule, nonce: Nonce, aad: seq<bv8>, p: seq<bv8>)
    ensures var c := Seal(rk, nonce, aad, p);
            && |c| == |p| + 16 && Counted(rk, nonce, p, c[..|p|]) && Tagged(rk, nonce, aad, c[..|p|], c[|p|..])
  {
    hide Counted, Tagged, Tag, CtrXor;
    var ct := CtrXor(rk, nonce, p);
    CtrMeans(rk, nonce, p);
    TagMeans(rk, nonce, aad, ct);
    var c := Seal(rk, nonce, aad, p);
    assert c[..|p|] == ct && c[|p|..] == Tag(rk, nonce, aad, ct);
  }

  // ---------------------------------------------------------------- chaining and padding

  /** Section 6.2 of SP 800-38A: each block of the plaintext is added to the block of ciphertext before it, the first
      one to the initial vector, and encrypted. */
  lemma CbcMeans(rk: Schedule, iv: Block, data: seq<bv8>, n: nat, i: nat, x: Block)
    requires 16 * n <= |data| && i < n
    requires var c := CbcEnc(rk, iv, data, n);
             forall j :: 0 <= j < 16 ==> x[j] == Add(data[16 * i + j], if i == 0 then iv[j] else c[16 * (i - 1) + j])
    ensures CbcEnc(rk, iv, data, n)[16 * i..16 * i + 16] == Encrypt(rk, x)
  {
    hide Encrypt, CbcEnc;
    CbcBlocks(rk, iv, data, n, i);
    if i > 0 { CbcBlocks(rk, iv, data, n, i - 1); }
    var c := CbcEnc(rk, iv, data, n);
    var prev := Chained(rk, iv, data, i);
    assert i > 0 ==> forall j :: 0 <= j < 16 ==> prev[j] == c[16 * (i - 1)..16 * (i - 1) + 16][j];
    hide Chained;
    XorAdds(BlockOf(data, i), prev);
    assert x == Xor(BlockOf(data, i), prev);
    ChainedNext(rk, iv, data, i);
  }

  lemma ChainedNext(rk: Schedule, iv: Block, data: seq<bv8>, i: nat)
    requires 16 * i + 16 <= |data|
    ensures Chained(rk, iv, data, i + 1) == Encrypt(rk, Xor(BlockOf(data, i), Chained(rk, iv, data, i)))
  {
    hide Encrypt, Xor;
  }

  /** Section 6.2.3.2 of RFC 5246: one to sixteen bytes behind the data, each the number of them less one. */
  ghost predicate TlsPadded(data: seq<bv8>, padded: seq<bv8>) {
    && |data| < |padded| <= |data| + 16 && padded[..|data|] == data
    && forall k :: |data| <= k < |padded| ==> padded[k] as nat == |padded| - |data| - 1
  }

  lemma PadMeans(data: seq<bv8>)
    ensures TlsPadded(data, Pad(data)) && |Pad(data)| % 16 == 0
  {
    var n := PadLen(|data|);
    assert ((n - 1) as bv8) as nat == n - 1;
    assert Pad(data)[..|data|] == data;
  }

  lemma UnpadMeans(padded: seq<bv8>, data: seq<bv8>)
    ensures Unpad(padded) == Some(data) <==> TlsPadded(data, padded)
  {
    if Unpad(padded) == Some(data) {
    }
    if TlsPadded(data, padded) {
      assert padded[|padded| - 1] as nat == |padded| - |data| - 1;
      forall k | |data| <= k < |padded| ensures padded[k] == padded[|padded| - 1] { SameByte(padded[k], padded[|padded| - 1]); }
    }
  }

  lemma SameByte(a: bv8, b: bv8)
    requires a as nat == b as nat
    ensures a == b
  {
  }
}
