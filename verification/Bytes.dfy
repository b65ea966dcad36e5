/** Little-endian numbers and records of fixed-width fields. */
module Bytes {
  import opened Common

  /** Little-endian bytes of a word. */
  function Le(v: nat, n: nat): seq<byte> { if n == 0 then [] else [v % 256] + Le(v / 256, n - 1) }

  function Num(b: seq<byte>): nat { if b == [] then 0 else b[0] + 256 * Num(b[1..]) }

  function Pow256(n: nat): nat { if n == 0 then 1 else 256 * Pow256(n - 1) }

  lemma {:induction false} LeRoundTrip(v: nat, n: nat)
    requires v < Pow256(n)
    ensures |Le(v, n)| == n && Num(Le(v, n)) == v
    decreases n
  {
    if n > 0 {
      LeRoundTrip(v / 256, n - 1);
      assert Le(v, n)[1..] == Le(v / 256, n - 1);
    }
  }

  lemma {:induction false} LeLength(v: nat, n: nat)
    ensures |Le(v, n)| == n
    decreases n
  {
    if n > 0 { LeLength(v / 256, n - 1); }
  }

  /** Byte `i` has weight 256^i: the least significant byte comes first. */
  lemma {:induction false} NumDigits(b: seq<byte>, i: nat)
    requires i < |b|
    ensures Pow256(i) > 0 && Num(b) / Pow256(i) % 256 == b[i]
    decreases |b|
  {
    if i > 0 {
      NumDigits(b[1..], i - 1);
      var q, n := Pow256(i - 1), Num(b[1..]);
      DivTwice(b[0] + 256 * n, q);
      assert (b[0] + 256 * n) / 256 == n;
    }
  }

  lemma DivTwice(x: nat, q: nat)
    requires q > 0
    ensures x / (256 * q) == x / 256 / q
  {
    var a, r := x / 256, x % 256;
    var c, t := a / q, a % q;
    assert x == 256 * (q * c + t) + r == 256 * q * c + (256 * t + r);
    assert 256 * t + r < 256 * q;
    DivUnique(x, 256 * q, c, 256 * t + r);
  }

  lemma DivUnique(x: nat, d: nat, c: nat, r: nat)
    requires x == d * c + r && r < d
    ensures x / d == c
  {
    var k, t := x / d, x % d;
    assert d * (k - c) == r - t;
    SmallMultiple(d, k - c);
  }

  lemma SmallMultiple(d: nat, n: int)
    ensures n > 0 ==> d * n >= d
    ensures n < 0 ==> d * n + d <= 0
  {
  }

  lemma Pow256Eight()
    ensures Pow256(8) == 0x1_0000_0000_0000_0000
  {
    assert Pow256(4) == 0x1_0000_0000;
  }

  // ---------------------------------------------------------------- records

  /** Fields one after the other, each as many bytes wide as `ws` says. */
  function Encode(ws: seq<nat>, vs: seq<nat>): seq<byte>
    requires |ws| == |vs|
  {
    if ws == [] then [] else Le(vs[0], ws[0]) + Encode(ws[1..], vs[1..])
  }

  function Decode(ws: seq<nat>, b: seq<byte>): seq<nat>
    requires |b| >= Width(ws)
  {
    if ws == [] then [] else [Num(b[..ws[0]])] + Decode(ws[1..], b[ws[0]..])
  }

  function Width(ws: seq<nat>): nat { if ws == [] then 0 else ws[0] + Width(ws[1..]) }

  ghost predicate Fit(ws: seq<nat>, vs: seq<nat>) { |ws| == |vs| && forall k :: 0 <= k < |ws| ==> vs[k] < Pow256(ws[k]) }

  lemma {:induction false} NumBound(b: seq<byte>)
    ensures Num(b) < Pow256(|b|)
    decreases |b|
  {
    if b != [] { NumBound(b[1..]); }
  }

  /** Whatever is decoded fits the fields it was read from. */
  lemma {:induction false} DecodeFits(ws: seq<nat>, b: seq<byte>)
    requires |b| >= Width(ws)
    ensures Fit(ws, Decode(ws, b))
    decreases |ws|
  {
    if ws != [] {
      NumBound(b[..ws[0]]);
      DecodeFits(ws[1..], b[ws[0]..]);
    }
  }

  lemma {:induction false} EncodeWidth(ws: seq<nat>, vs: seq<nat>)
    requires |ws| == |vs|
    ensures |Encode(ws, vs)| == Width(ws)
    decreases |ws|
  {
    if ws != [] {
      LeLength(vs[0], ws[0]);
      EncodeWidth(ws[1..], vs[1..]);
    }
  }

  /** What was encoded decodes, whatever follows it. */
  lemma {:induction false} RecordRoundTrip(ws: seq<nat>, vs: seq<nat>, rest: seq<byte>)
    requires Fit(ws, vs)
    ensures |Encode(ws, vs)| == Width(ws) && Decode(ws, Encode(ws, vs) + rest) == vs
    decreases |ws|
  {
    EncodeWidth(ws, vs);
    if ws != [] {
      LeRoundTrip(vs[0], ws[0]);
      var tail := Encode(ws[1..], vs[1..]);
      var b := Encode(ws, vs) + rest;
      assert b[..ws[0]] == Le(vs[0], ws[0]);
      assert b[ws[0]..] == tail + rest;
      RecordRoundTrip(ws[1..], vs[1..], rest);
    }
  }

  /** Field `k` is read where the fields before it end. */
  lemma {:induction false} DecodeAt(ws: seq<nat>, b: seq<byte>, k: nat)
    requires |b| >= Width(ws) && k < |ws|
    ensures var at := Width(ws[..k]);
            at + ws[k] <= |b| && |Decode(ws, b)| == |ws| && Decode(ws, b)[k] == Num(b[at..at + ws[k]])
    decreases |ws|
  {
    hide Num;
    if k == 0 {
      if |ws| > 1 { DecodeAt(ws[1..], b[ws[0]..], 0); }
      assert ws[..0] == [];
    } else {
      DecodeAt(ws[1..], b[ws[0]..], k - 1);
      assert ws[..k][1..] == ws[1..][..k - 1];
      var at := Width(ws[..k]);
      assert b[ws[0]..][at - ws[0]..at - ws[0] + ws[k]] == b[at..at + ws[k]];
    }
  }
}
