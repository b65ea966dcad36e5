/** The steps of the cipher as FIPS 197 defines them: rows, polynomials over the field, and words of the key. */
module AesStandard {
  import opened AesSbox
  import opened Aes
  import opened AesBlock

  /** Section 5.1.2: row `r` moves `r` places to the left. */
  lemma ShiftRowsMeans(b: Block, r: nat, c: nat)
    requires r < 4 && c < 4
    ensures ShiftRows(b)[r + 4 * c] == b[r + 4 * ((c + r) % 4)]
  {
  }

  lemma SmallProducts(s: bv8)
    ensures GfMul(2, s) == Xtime(s) && GfMul(3, s) == Add(Xtime(s), s)
  {
    hide GfMul;
    GfMulMeans(2, s);
    GfMulMeans(3, s);
  }

  function At(c: Col, i: nat): bv8 { if i % 4 == 0 then c.s0 else if i % 4 == 1 then c.s1 else if i % 4 == 2 then c.s2 else c.s3 }

  lemma MixTop(c: Col)
    ensures Mix(c).s0 == Sum4(GfMul(2, c.s0), GfMul(3, c.s1), c.s2, c.s3)
  {
    hide Xtime, GfMul, Add;
    SmallProducts(c.s0);
    SmallProducts(c.s1);
    AddAssoc(Xtime(c.s0), Xtime(c.s1), c.s1);
  }

  lemma AtRot(c: Col, i: nat)
    ensures At(Rot(c), i) == At(c, i + 1)
  {
  }

  /** Section 5.1.3: a column is multiplied by {03}x^3 + {01}x^2 + {01}x + {02}. */
  lemma {:induction false} MixMeans(c: Col, i: nat)
    ensures At(Mix(c), i) == Sum4(GfMul(2, At(c, i)), GfMul(3, At(c, i + 1)), At(c, i + 2), At(c, i + 3))
    decreases i
  {
    hide Mix, GfMul, Sum4, Rot;
    if i == 0 {
      MixTop(c);
    } else {
      MixMeans(Rot(c), i - 1);
      MixRot(c);
      AtRot(Mix(c), i - 1);
      AtRot(c, i - 1);
      AtRot(c, i);
      AtRot(c, i + 1);
      AtRot(c, i + 2);
    }
  }

  /** Section 5.2: the round constants are the powers of x. */
  lemma RconMeans(i: nat)
    requires i < 10
    ensures RCON[i] == if i == 0 then 1 else Xtime(RCON[i - 1])
  {
  }

  lemma {:induction false} KeysAt(key: Block, n: nat, r: nat, j: nat)
    requires r < n <= 11 && j < 16
    ensures Keys(key, n)[16 * r + j] == KeyAt(key, r)[j]
    decreases n
  {
    hide KeyAt;
    if r < n - 1 { KeysAt(key, n - 1, r, j); }
  }

  /** Byte `b` of word `i` of the schedule. */
  function WordByte(rk: Schedule, i: nat, b: nat): bv8
    requires i < 44 && b < 4
  {
    rk[4 * i + b]
  }

  /** Byte `b` of a word turned one byte and substituted, with the round constant on its first byte. */
  function Scrambled(rk: Schedule, i: nat, b: nat): bv8
    requires 4 <= i < 44 && i % 4 == 0 && b < 4
  {
    var s := Sbox(WordByte(rk, i - 1, (b + 1) % 4));
    if b == 0 then Add(s, RCON[i / 4 - 1]) else s
  }

  /** Section 5.2: each word is the one four before it plus the one before, scrambled once every four words. */
  lemma ScheduleMeans(key: Block, i: nat, b: nat)
    requires 4 <= i < 44 && b < 4
    ensures var rk := Expand(key);
            WordByte(rk, i, b) == Add(WordByte(rk, i - 4, b), if i % 4 == 0 then Scrambled(rk, i, b) else WordByte(rk, i - 1, b))
  {
    hide Sbox, Add, Expand;
    if i % 4 == 0 { FirstOfRound(key, i / 4, b); } else { InRound(key, i / 4, i % 4, b); }
  }

  lemma ExpandAt(key: Block, r: nat, j: nat)
    requires r < 11 && j < 16
    ensures Expand(key)[16 * r + j] == KeyAt(key, r)[j]
  {
    hide Keys, KeyAt;
    KeysAt(key, 11, r, j);
  }

  lemma FirstOfRound(key: Block, r: nat, b: nat)
    requires 1 <= r <= 10 && b < 4
    ensures WordByte(Expand(key), 4 * r, b) == Add(WordByte(Expand(key), 4 * r - 4, b), Scrambled(Expand(key), 4 * r, b))
  {
    hide Sbox, Add, Expand, KeyAt, NextByte;
    ExpandAt(key, r, b);
    ExpandAt(key, r - 1, b);
    ExpandAt(key, r - 1, 12 + (b + 1) % 4);
    KeysStep(key, r);
    FirstWord(KeyAt(key, r - 1), RCON[r - 1], b);
  }

  lemma InRound(key: Block, r: nat, q: nat, b: nat)
    requires 1 <= r <= 10 && 1 <= q < 4 && b < 4
    ensures var rk := Expand(key);
            WordByte(rk, 4 * r + q, b) == Add(WordByte(rk, 4 * r + q - 4, b), WordByte(rk, 4 * r + q - 1, b))
  {
    hide Add, Expand, KeyAt, NextKey;
    ExpandAt(key, r, 4 * q + b);
    ExpandAt(key, r - 1, 4 * q + b);
    ExpandAt(key, r, 4 * (q - 1) + b);
    KeysStep(key, r);
    NextWord(KeyAt(key, r - 1), RCON[r - 1], 4 * q + b);
  }

  lemma NextWord(p: Block, rc: bv8, j: nat)
    requires 4 <= j < 16
    ensures NextKey(p, rc)[j] == Add(p[j], NextKey(p, rc)[j - 4])
  {
    hide Sbox, Add;
  }

  lemma FirstWord(p: Block, rc: bv8, b: nat)
    requires b < 4
    ensures var s := Sbox(p[12 + (b + 1) % 4]); NextByte(p, rc, b) == Add(p[b], if b == 0 then Add(s, rc) else s)
  {
    hide Sbox, Add;
    AddAssoc(p[b], Sbox(p[12 + (b + 1) % 4]), rc);
  }

  // ---------------------------------------------------------------- the rounds put together

  /** Row `i`, column `c` of the state after substitution and the shift of the rows. */
  function Moved(s: Block, i: nat, c: nat): bv8
    requires c < 4
  {
    Sbox(s[i % 4 + 4 * ((c + i % 4) % 4)])
  }

  /** The same after the columns were mixed as well. */
  function Stirred(s: Block, i: nat, c: nat): bv8
    requires c < 4
  {
    Sum4(GfMul(2, Moved(s, i, c)), GfMul(3, Moved(s, i + 1, c)), Moved(s, i + 2, c), Moved(s, i + 3, c))
  }

  /** Section 5.1: the eleven states the cipher passes through, byte by byte. Round key `r` is words 4r to 4r + 3. */
  ghost predicate CipherStates(rk: Schedule, b: Block, ss: seq<Block>) {
    && |ss| == 11
    && (forall j :: 0 <= j < 16 ==> ss[0][j] == Add(b[j], rk[j]))
    && forall r, j :: 1 <= r <= 10 && 0 <= j < 16 ==> ss[r][j] == StateByte(rk, ss[r - 1], r, j)
  }

  function StateByte(rk: Schedule, s: Block, r: nat, j: nat): bv8
    requires 1 <= r <= 10 && j < 16
  {
    Add(if r < 10 then Stirred(s, j % 4, j / 4) else Moved(s, j % 4, j / 4), WordByte(rk, 4 * r + j / 4, j % 4))
  }

  lemma MovedIs(s: Block, i: nat, c: nat)
    requires c < 4
    ensures At(ColOf(ShiftRows(SubBytes(s)), c), i) == Moved(s, i, c)
  {
    hide Sbox, ShiftRows;
    ShiftRowsMeans(SubBytes(s), i % 4, c);
  }

  lemma MixedColumn(t: Block, c: nat)
    requires c < 4
    ensures ColOf(MixColumns(t), c) == Mix(ColOf(t, c))
  {
    hide Mix, Join, ColOf;
    Columns(t, Mix(ColOf(t, 0)), Mix(ColOf(t, 1)), Mix(ColOf(t, 2)), Mix(ColOf(t, 3)));
  }

  lemma StirredIs(s: Block, i: nat, c: nat)
    requires c < 4
    ensures At(ColOf(MixColumns(ShiftRows(SubBytes(s))), c), i) == Stirred(s, i, c)
  {
    hide Mix, Moved, GfMul, Sum4, SubBytes, ShiftRows, At, ColOf, MixColumns;
    var t := ShiftRows(SubBytes(s));
    MixedColumn(t, c);
    MixMeans(ColOf(t, c), i);
    MovedIs(s, i, c);
    MovedIs(s, i + 1, c);
    MovedIs(s, i + 2, c);
    MovedIs(s, i + 3, c);
  }

  lemma ByteOf(b: Block, j: nat)
    requires j < 16
    ensures At(ColOf(b, j / 4), j % 4) == b[j]
  {
  }

  lemma RoundIs(rk: Schedule, s: Block, r: nat, j: nat)
    requires 1 <= r <= 10 && j < 16
    ensures var t := ShiftRows(SubBytes(s)); Xor(if r < 10 then MixColumns(t) else t, RoundKey(rk, r))[j] == StateByte(rk, s, r, j)
  {
    hide Stirred, Moved, MixColumns, SubBytes, ShiftRows, At, ColOf;
    var t := ShiftRows(SubBytes(s));
    ByteOf(if r < 10 then MixColumns(t) else t, j);
    StirredIs(s, j % 4, j / 4);
    MovedIs(s, j % 4, j / 4);
  }

  /** The cipher is the last of those states, and they are fixed by the schedule and the block. */
  lemma CipherMeans(rk: Schedule, b: Block, ss: seq<Block>)
    ensures CipherStates(rk, b, ss) ==> Encrypt(rk, b) == ss[10]
    ensures CipherStates(rk, b, seq(11, (r: nat) requires r < 11 => Forward(rk, b, r)))
  {
    hide Forward, StateByte;
    var fs := seq(11, (r: nat) requires r < 11 => Forward(rk, b, r));
    forall j | 0 <= j < 16 ensures fs[0][j] == Add(b[j], rk[j]) {
      StartIs(rk, b, j);
    }
    forall r, j | 1 <= r <= 10 && 0 <= j < 16 ensures fs[r][j] == StateByte(rk, fs[r - 1], r, j) {
      ForwardIs(rk, b, r, j);
    }
    if CipherStates(rk, b, ss) {
      SameStates(rk, b, ss, fs, 10);
    }
  }

  lemma StartIs(rk: Schedule, b: Block, j: nat)
    requires j < 16
    ensures Forward(rk, b, 0)[j] == Add(b[j], rk[j])
  {
  }

  lemma ForwardIs(rk: Schedule, b: Block, r: nat, j: nat)
    requires 1 <= r <= 10 && j < 16
    ensures Forward(rk, b, r)[j] == StateByte(rk, Forward(rk, b, r - 1), r, j)
  {
    hide Xor, MixColumns, SubBytes, ShiftRows, RoundKey, StateByte;
    RoundIs(rk, Forward(rk, b, r - 1), r, j);
  }

  lemma {:induction false} SameStates(rk: Schedule, b: Block, ss: seq<Block>, ts: seq<Block>, r: nat)
    requires CipherStates(rk, b, ss) && CipherStates(rk, b, ts) && r <= 10
    ensures ss[r] == ts[r]
  {
    hide StateByte, Add;
    if r > 0 {
      SameStates(rk, b, ss, ts, r - 1);
      assert forall j :: 0 <= j < 16 ==> ss[r][j] == StateByte(rk, ss[r - 1], r, j) && ts[r][j] == StateByte(rk, ts[r - 1], r, j);
    }
  }
}
