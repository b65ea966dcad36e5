/**
 Records under AES: TLS padding with cipher block chaining, and Galois counter
 mode. What was sealed opens, and only what was sealed opens.
 */
module AesModes {
  import opened Common
  import opened Aes
  import opened AesBlock

  /** Runs the block cipher on a copy. */
  method Encipher(rk: Schedule, p: Block) returns (c: Block)
    ensures c == Encrypt(rk, p)
  {
    var b := new bv8[16](i requires 0 <= i < 16 => p[i]);
    assert b[..] == p;
    EncryptBlock(rk, b);
    c := b[..];
  }

  method Decipher(rk: Schedule, c: Block) returns (p: Block)
    ensures p == Decrypt(rk, c)
  {
    var b := new bv8[16](i requires 0 <= i < 16 => c[i]);
    assert b[..] == c;
    DecryptBlock(rk, b);
    p := b[..];
  }

  // ---------------------------------------------------------------- padding

  /** One to sixteen bytes, each one less than their number. */
  function PadLen(n: nat): nat { 16 - n % 16 }

  function Pad(data: seq<bv8>): seq<bv8> {
    data + seq(PadLen(|data|), _ => (PadLen(|data|) - 1) as bv8)
  }

  method TlsPad(data: seq<bv8>) returns (out: seq<bv8>)
    ensures out == Pad(data) && |out| % 16 == 0
  {
    var padLen := 16 - |data| % 16;
    var padVal := (padLen - 1) as bv8;
    out := data;
    for i := |data| to |data| + padLen
      invariant |out| == i && out[..|data|] == data && forall k :: |data| <= k < i ==> out[k] == padVal
    {
      out := out + [padVal];
    }
  }

  /** What a padded record must look like. */
  predicate Padded(data: seq<bv8>) {
    data != [] && (var n := data[|data| - 1] as nat + 1; n <= 16 && n <= |data| && forall k :: |data| - n <= k < |data| ==> data[k] == data[|data| - 1])
  }

  function Unpad(data: seq<bv8>): Option<seq<bv8>> {
    if Padded(data) then Some(data[..|data| - (data[|data| - 1] as nat + 1)]) else None
  }

  lemma OrZero(d: bv8, a: bv8, b: bv8)
    ensures d | (a ^ b) == 0 <==> d == 0 && a == b
  {
  }

  /** The comparison does not stop at the first difference. */
  method TlsUnpad(data: seq<bv8>) returns (r: Option<seq<bv8>>)
    ensures r == Unpad(data)
  {
    if data == [] {
      return None;
    }
    var padVal := data[|data| - 1];
    var padLen := padVal as nat + 1;
    if padLen > 16 || padLen > |data| {
      return None;
    }
    var diff: bv8 := 0;
    for k := |data| - padLen to |data|
      invariant diff == 0 <==> forall i :: |data| - padLen <= i < k ==> data[i] == padVal
    {
      OrZero(diff, data[k], padVal);
      diff := diff | (data[k] ^ padVal);
    }
    if diff != 0 {
      return None;
    }
    return Some(data[..|data| - padLen]);
  }

  lemma UnpadPad(data: seq<bv8>)
    ensures Unpad(Pad(data)) == Some(data)
  {
    var p, n := Pad(data), PadLen(|data|);
    assert p[|p| - 1] == (n - 1) as bv8;
    assert ((n - 1) as bv8) as nat == n - 1;
    assert p[..|data|] == data;
  }

  // ---------------------------------------------------------------- chaining

  function BlockOf(data: seq<bv8>, i: nat): Block
    requires 16 * i + 16 <= |data|
  {
    data[16 * i..16 * i + 16]
  }

  /** Cipher block `i`, counting the initial vector as block zero. */
  function Chained(rk: Schedule, iv: Block, data: seq<bv8>, i: nat): Block
    requires 16 * i <= |data|
  {
    if i == 0 then iv else Encrypt(rk, Xor(BlockOf(data, i - 1), Chained(rk, iv, data, i - 1)))
  }

  function CbcEnc(rk: Schedule, iv: Block, data: seq<bv8>, n: nat): (c: seq<bv8>)
    requires 16 * n <= |data|
    ensures |c| == 16 * n
  {
    if n == 0 then [] else CbcEnc(rk, iv, data, n - 1) + Chained(rk, iv, data, n)
  }

  function Previous(iv: Block, c: seq<bv8>, i: nat): Block
    requires 16 * i <= |c|
  {
    if i == 0 then iv else BlockOf(c, i - 1)
  }

  function CbcDec(rk: Schedule, iv: Block, c: seq<bv8>, n: nat): (p: seq<bv8>)
    requires 16 * n <= |c|
    ensures |p| == 16 * n
  {
    if n == 0 then [] else CbcDec(rk, iv, c, n - 1) + Xor(Decrypt(rk, BlockOf(c, n - 1)), Previous(iv, c, n - 1))
  }

  /** `out` after whole blocks have been written to its front. */
  ghost predicate Wrote(out0: seq<bv8>, out: seq<bv8>, c: seq<bv8>) {
    |out| == |out0| && |c| <= |out| && out[..|c|] == c && out[|c|..] == out0[|c|..]
  }

  /** One block behind those already written. */
  method PutBlock(out: array<bv8>, at: nat, b: Block, ghost out0: seq<bv8>, ghost c: seq<bv8>)
    requires |c| == at && at + 16 <= out.Length && Wrote(out0, out[..], c)
    modifies out
    ensures Wrote(out0, out[..], c + b)
  {
    forall k | 0 <= k < 16 { out[at + k] := b[k]; }
    assert out[..][..at] == c && out[..][at..at + 16] == b;
    assert out[..][..at + 16] == out[..][..at] + out[..][at..at + 16];
    assert out[..][at + 16..] == out0[at..][16..] == out0[at + 16..];
  }

  /** `cbc_encrypt`; bytes past the last whole block are left alone, and the length answered is that of the input. */
  method CbcEncrypt(key: Block, iv: Block, plaintext: seq<bv8>, out: array<bv8>) returns (n: nat)
    requires 16 * (|plaintext| / 16) <= out.Length
    modifies out
    ensures Wrote(old(out[..]), out[..], CbcEnc(Expand(key), iv, plaintext, |plaintext| / 16))
    ensures n == |plaintext|
    ensures n == |CbcEnc(Expand(key), iv, plaintext, |plaintext| / 16)| <==> |plaintext| % 16 == 0
  {
    hide Expand, Encrypt, Xor, Wrote;
    var rk := NewSchedule(key);
    var prev := iv;
    NothingWrote(out[..]);
    for i := 0 to |plaintext| / 16
      invariant Wrote(old(out[..]), out[..], CbcEnc(rk, iv, plaintext, i)) && prev == Chained(rk, iv, plaintext, i)
    {
      prev := Encipher(rk, Xor(BlockOf(plaintext, i), prev));
      PutBlock(out, 16 * i, prev, old(out[..]), CbcEnc(rk, iv, plaintext, i));
    }
    return |plaintext|;
  }

  lemma NothingWrote(out: seq<bv8>)
    ensures Wrote(out, out, [])
  {
    assert out[..0] == [];
  }

  method CbcDecrypt(key: Block, iv: Block, ciphertext: seq<bv8>, out: array<bv8>) returns (n: nat)
    requires 16 * (|ciphertext| / 16) <= out.Length
    modifies out
    ensures Wrote(old(out[..]), out[..], CbcDec(Expand(key), iv, ciphertext, |ciphertext| / 16))
    ensures n == |ciphertext|
    ensures n == |CbcDec(Expand(key), iv, ciphertext, |ciphertext| / 16)| <==> |ciphertext| % 16 == 0
  {
    hide Expand, Decrypt, Xor, Wrote;
    var rk := NewSchedule(key);
    var prev := iv;
    NothingWrote(out[..]);
    for i := 0 to |ciphertext| / 16
      invariant Wrote(old(out[..]), out[..], CbcDec(rk, iv, ciphertext, i)) && prev == Previous(iv, ciphertext, i)
    {
      var block := Decipher(rk, BlockOf(ciphertext, i));
      PutBlock(out, 16 * i, Xor(block, prev), old(out[..]), CbcDec(rk, iv, ciphertext, i));
      prev := BlockOf(ciphertext, i);
    }
    return |ciphertext|;
  }

  /** Block `i` of the ciphertext. */
  lemma {:induction false} CbcBlocks(rk: Schedule, iv: Block, data: seq<bv8>, n: nat, i: nat)
    requires 16 * n <= |data| && i < n
    ensures BlockOf(CbcEnc(rk, iv, data, n), i) == Chained(rk, iv, data, i + 1)
    decreases n
  {
    hide Encrypt, Xor, Chained;
    var c := CbcEnc(rk, iv, data, n - 1);
    if i < n - 1 {
      CbcBlocks(rk, iv, data, n - 1, i);
      assert (c + Chained(rk, iv, data, n))[16 * i..16 * i + 16] == c[16 * i..16 * i + 16];
    } else {
      assert (c + Chained(rk, iv, data, n))[16 * i..16 * i + 16] == Chained(rk, iv, data, n);
    }
  }

  lemma {:induction false} CbcRoundTrip(rk: Schedule, iv: Block, data: seq<bv8>, n: nat, k: nat)
    requires 16 * n <= |data| && k <= n
    ensures CbcDec(rk, iv, CbcEnc(rk, iv, data, n), k) == data[..16 * k]
    decreases k
  {
    hide Encrypt, Decrypt, Xor, CbcEnc;
    if k > 0 {
      var c, i := CbcEnc(rk, iv, data, n), k - 1;
      CbcRoundTrip(rk, iv, data, n, i);
      CbcBlocks(rk, iv, data, n, i);
      if i > 0 { CbcBlocks(rk, iv, data, n, i - 1); }
      var prev := Chained(rk, iv, data, i);
      assert Previous(iv, c, i) == prev;
      DecryptEncrypt(rk, Xor(BlockOf(data, i), prev));
      XorUndone(BlockOf(data, i), prev);
      assert data[..16 * i] + BlockOf(data, i) == data[..16 * k];
    }
  }

  /** Pad, chain, unchain, unpad: the data, whatever its length, key and initial vector. */
  lemma PaddedRecordRoundTrip(rk: Schedule, iv: Block, data: seq<bv8>)
    ensures var p := Pad(data); Unpad(CbcDec(rk, iv, CbcEnc(rk, iv, p, |p| / 16), |p| / 16)) == Some(data)
  {
    hide CbcEnc, CbcDec, Unpad;
    var p := Pad(data);
    UnpadPad(data);
    CbcRoundTrip(rk, iv, p, |p| / 16, |p| / 16);
    assert p[..16 * (|p| / 16)] == p;
  }
}
