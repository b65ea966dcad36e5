/** The block cipher as it runs: sixteen bytes changed in place, round by round. */
module AesBlock {
  import opened AesSbox
  import opened Aes

  const RCON: seq<bv8> := [0x01, 0x02, 0x04, 0x08, 0x10, 0x20, 0x40, 0x80, 0x1b, 0x36]

  // ---------------------------------------------------------------- the key schedule

  /** Byte `j` of the round key after `p`: section 5.2 of FIPS 197, byte by byte. */
  function NextByte(p: Block, rc: bv8, j: nat): bv8
    requires j < 16
  {
    if j >= 4 then Add(p[j], NextByte(p, rc, j - 4))
    else
      var t := Add(p[j], Sbox(p[12 + (j + 1) % 4]));
      if j == 0 then Add(t, rc) else t
  }

  function NextKey(p: Block, rc: bv8): Block { seq(16, (j: nat) requires j < 16 => NextByte(p, rc, j)) }

  function KeyAt(key: Block, r: nat): Block
    requires r <= 10
  {
    if r == 0 then key else NextKey(KeyAt(key, r - 1), RCON[r - 1])
  }

  function Keys(key: Block, n: nat): (k: seq<bv8>)
    requires n <= 11
    ensures |k| == 16 * n
  {
    if n == 0 then [] else Keys(key, n - 1) + KeyAt(key, n - 1)
  }

  function Expand(key: Block): Schedule { Keys(key, 11) }

  /** `Aes128::new`. */
  method NewSchedule(key: Block) returns (rk: Schedule)
    ensures rk == Expand(key)
  {
    hide NextKey, KeyAt, Keys;
    var k: seq<bv8> := key;
    KeysStart(key);
    for i := 1 to 11
      invariant |k| == 16 * i && k == Keys(key, i) && k[16 * (i - 1)..] == KeyAt(key, i - 1)
    {
      var prev: Block := k[16 * (i - 1)..];
      var next := NextRound(prev, RCON[i - 1]);
      KeysStep(key, i);
      k := k + next;
    }
    rk := k;
  }

  lemma KeysStart(key: Block)
    ensures Keys(key, 1) == key && KeyAt(key, 0) == key
  {
    assert Keys(key, 0) == [];
  }

  lemma KeysStep(key: Block, i: nat)
    requires 1 <= i <= 10
    ensures KeyAt(key, i) == NextKey(KeyAt(key, i - 1), RCON[i - 1]) && Keys(key, i + 1) == Keys(key, i) + KeyAt(key, i)
  {
    hide NextKey;
  }

  /** One round of the schedule, byte by byte from the fifth on. */
  method NextRound(p: Block, rc: bv8) returns (r: Block)
    ensures r == NextKey(p, rc)
  {
    hide Sbox, Add;
    var k: seq<bv8> := [Add(Add(p[0], Sbox(p[13])), rc), Add(p[1], Sbox(p[14])), Add(p[2], Sbox(p[15])), Add(p[3], Sbox(p[12]))];
    for j := 4 to 16
      invariant |k| == j && forall i :: 0 <= i < j ==> k[i] == NextByte(p, rc, i)
    {
      k := k + [Add(p[j], k[j - 4])];
    }
    r := k;
  }

  // ---------------------------------------------------------------- steps in place

  method AddKey(b: array<bv8>, k: Block)
    requires b.Length == 16
    modifies b
    ensures b[..] == Xor(old(b[..]), k)
  {
    for i := 0 to 16
      invariant forall j :: 0 <= j < i ==> b[j] == old(b[j]) ^ k[j]
      invariant forall j :: i <= j < 16 ==> b[j] == old(b[j])
    {
      b[i] := b[i] ^ k[i];
    }
  }

  method Substitute(b: array<bv8>)
    requires b.Length == 16
    modifies b
    ensures b[..] == SubBytes(old(b[..]))
  {
    hide Sbox;
    for i := 0 to 16
      invariant forall j :: 0 <= j < i ==> b[j] == Sbox(old(b[j]))
      invariant forall j :: i <= j < 16 ==> b[j] == old(b[j])
    {
      b[i] := Sbox(b[i]);
    }
  }

  method SubstituteBack(b: array<bv8>)
    requires b.Length == 16
    modifies b
    ensures b[..] == SubInv(old(b[..]))
  {
    hide SboxInv;
    for i := 0 to 16
      invariant forall j :: 0 <= j < i ==> b[j] == SboxInv(old(b[j]))
      invariant forall j :: i <= j < 16 ==> b[j] == old(b[j])
    {
      b[i] := SboxInv(b[i]);
    }
  }

  /** Four bytes move one place along. */
  method Cycle(b: array<bv8>, i: nat, j: nat, k: nat, l: nat)
    requires b.Length == 16 && i < 16 && j < 16 && k < 16 && l < 16 && i != j && i != k && i != l && j != k && j != l && k != l
    modifies b
    ensures b[i] == old(b[j]) && b[j] == old(b[k]) && b[k] == old(b[l]) && b[l] == old(b[i])
    ensures forall m :: 0 <= m < 16 && m != i && m != j && m != k && m != l ==> b[m] == old(b[m])
  {
    b[i], b[j], b[k], b[l] := b[j], b[k], b[l], b[i];
  }

  method Swap(b: array<bv8>, i: nat, j: nat)
    requires b.Length == 16 && i < 16 && j < 16 && i != j
    modifies b
    ensures b[i] == old(b[j]) && b[j] == old(b[i]) && forall m :: 0 <= m < 16 && m != i && m != j ==> b[m] == old(b[m])
  {
    b[i], b[j] := b[j], b[i];
  }

  method Shift(b: array<bv8>)
    requires b.Length == 16
    modifies b
    ensures b[..] == ShiftRows(old(b[..]))
  {
    ghost var s: Block := b[..];
    Cycle(b, 1, 5, 9, 13);
    Swap(b, 2, 10);
    Swap(b, 6, 14);
    Cycle(b, 15, 11, 7, 3);
    SameBytes(b[..], ShiftRows(s));
  }

  method ShiftBack(b: array<bv8>)
    requires b.Length == 16
    modifies b
    ensures b[..] == ShiftInv(old(b[..]))
  {
    ghost var s: Block := b[..];
    Cycle(b, 13, 9, 5, 1);
    Swap(b, 2, 10);
    Swap(b, 6, 14);
    Cycle(b, 3, 7, 11, 15);
    SameBytes(b[..], ShiftInv(s));
  }

  lemma SameBytes(a: Block, b: Block)
    requires a[0] == b[0] && a[1] == b[1] && a[2] == b[2] && a[3] == b[3]
    requires a[4] == b[4] && a[5] == b[5] && a[6] == b[6] && a[7] == b[7]
    requires a[8] == b[8] && a[9] == b[9] && a[10] == b[10] && a[11] == b[11]
    requires a[12] == b[12] && a[13] == b[13] && a[14] == b[14] && a[15] == b[15]
    ensures a == b
  {
  }

  method PutColumn(b: array<bv8>, c: nat, v: Col)
    requires b.Length == 16 && c < 4
    modifies b
    ensures b[4 * c] == v.s0 && b[4 * c + 1] == v.s1 && b[4 * c + 2] == v.s2 && b[4 * c + 3] == v.s3
    ensures forall j :: 0 <= j < 16 && !(4 * c <= j < 4 * c + 4) ==> b[j] == old(b[j])
  {
    b[4 * c], b[4 * c + 1], b[4 * c + 2], b[4 * c + 3] := v.s0, v.s1, v.s2, v.s3;
  }

  method MixAll(b: array<bv8>)
    requires b.Length == 16
    modifies b
    ensures b[..] == MixColumns(old(b[..]))
  {
    hide Mix;
    ghost var s: Block := b[..];
    for c := 0 to 4
      invariant forall d :: 0 <= d < c ==> ColOf(b[..], d) == Mix(ColOf(s, d))
      invariant forall j :: 4 * c <= j < 16 ==> b[j] == s[j]
    {
      assert ColOf(b[..], c) == ColOf(s, c);
      PutColumn(b, c, Mix(Col(b[4 * c], b[4 * c + 1], b[4 * c + 2], b[4 * c + 3])));
    }
    Columns(b[..], ColOf(s, 0), ColOf(s, 1), ColOf(s, 2), ColOf(s, 3));
  }

  method MixAllBack(b: array<bv8>)
    requires b.Length == 16
    modifies b
    ensures b[..] == MixColumnsInv(old(b[..]))
  {
    hide MixInv;
    ghost var s: Block := b[..];
    for c := 0 to 4
      invariant forall d :: 0 <= d < c ==> ColOf(b[..], d) == MixInv(ColOf(s, d))
      invariant forall j :: 4 * c <= j < 16 ==> b[j] == s[j]
    {
      assert ColOf(b[..], c) == ColOf(s, c);
      PutColumn(b, c, MixInv(Col(b[4 * c], b[4 * c + 1], b[4 * c + 2], b[4 * c + 3])));
    }
    Columns(b[..], ColOf(s, 0), ColOf(s, 1), ColOf(s, 2), ColOf(s, 3));
  }

  /** `encrypt_block`. */
  method EncryptBlock(rk: Schedule, b: array<bv8>)
    requires b.Length == 16
    modifies b
    ensures b[..] == Encrypt(rk, old(b[..]))
  {
    hide Xor, SubBytes, ShiftRows, MixColumns, RoundKey;
    ghost var p: Block := b[..];
    AddKey(b, RoundKey(rk, 0));
    for round := 1 to 11
      invariant b[..] == Forward(rk, p, round - 1)
    {
      Substitute(b);
      Shift(b);
      if round < 10 {
        MixAll(b);
      }
      AddKey(b, RoundKey(rk, round));
    }
  }

  /** `decrypt_block`. */
  method DecryptBlock(rk: Schedule, b: array<bv8>)
    requires b.Length == 16
    modifies b
    ensures b[..] == Decrypt(rk, old(b[..]))
  {
    hide Xor, SubInv, ShiftInv, MixColumnsInv, RoundKey;
    ghost var c: Block := b[..];
    AddKey(b, RoundKey(rk, 10));
    var round := 10;
    while round > 0
      invariant 0 <= round <= 10 && b[..] == Backward(rk, c, round)
    {
      round := round - 1;
      ShiftBack(b);
      SubstituteBack(b);
      AddKey(b, RoundKey(rk, round));
      if round > 0 {
        MixAllBack(b);
      }
    }
  }
}
