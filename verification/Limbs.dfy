/**
 Little-endian numbers in 32-bit limbs: their value, and the carry and borrow
 loops the field and the big-number code share.
 */
module Limbs {
  import opened Common

  const B: int := 0x1_0000_0000


  /** The weight of limb `i`. */
  function W(i: nat): (w: int)
    ensures w >= 1
  {
    if i == 0 then 1 else B * W(i - 1)
  }

  function Val(s: seq<int>): int {
    if s == [] then 0 else Val(s[..|s| - 1]) + s[|s| - 1] * W(|s| - 1)
  }

  function Val32(s: seq<u32>): int { Val(s) }

  lemma {:induction false} WAdd(i: nat, j: nat)
    ensures W(i + j) == W(i) * W(j)
  {
    if j > 0 {
      WAdd(i, j - 1);
      calc {
        W(i + j);
        B * W(i + j - 1);
        B * (W(i) * W(j - 1));
        W(i) * (B * W(j - 1));
        W(i) * W(j);
      }
    }
  }

  lemma ValSnoc(s: seq<int>, x: int)
    ensures Val(s + [x]) == Val(s) + x * W(|s|)
  {
    assert (s + [x])[..|s|] == s;
  }

  lemma {:induction false} ValConcat(s: seq<int>, t: seq<int>)
    ensures Val(s + t) == Val(s) + W(|s|) * Val(t)
    decreases |t|
  {
    if t == [] {
      assert s + t == s;
    } else {
      var n := |t| - 1;
      var x := t[n];
      assert s + t == (s + t[..n]) + [x];
      ValSnoc(s + t[..n], x);
      ValConcat(s, t[..n]);
      WAdd(|s|, n);
      Distribute(W(|s|), Val(t[..n]), x, W(n));
    }
  }

  lemma Distribute(w: int, v: int, x: int, u: int)
    ensures w * (v + x * u) == w * v + x * (w * u)
  {
  }

  /** Changing one limb changes the value by that much at its weight. */
  lemma {:induction false} ValUpdate(s: seq<int>, i: nat, x: int)
    requires i < |s|
    ensures Val(s[i := x]) == Val(s) + (x - s[i]) * W(i)
    decreases |s|
  {
    var n := |s| - 1;
    if i == n {
      assert s[i := x][..n] == s[..n];
      assert (x - s[i]) * W(i) == x * W(i) - s[i] * W(i);
    } else {
      assert s[i := x][..n] == s[..n][i := x];
      ValUpdate(s[..n], i, x);
    }
  }

  /** A proper number is below the weight past its last limb. */
  lemma {:induction false} ValBound(s: seq<u32>)
    ensures 0 <= Val32(s) < W(|s|)
    decreases |s|
  {
    if s != [] {
      var n := |s| - 1;
      ValBound(s[..n]);
      TopLimb(Val32(s[..n]), s[n], W(n));
    }
  }

  lemma TopLimb(v: int, x: u32, w: int)
    requires 0 <= v < w
    ensures 0 <= v + x * w < B * w
  {
    assert x * w <= (B - 1) * w;
    assert (B - 1) * w == B * w - w;
    assert 0 <= x * w;
  }

  lemma {:induction false} ValZeros(s: seq<int>)
    requires forall i :: 0 <= i < |s| ==> s[i] == 0
    ensures Val(s) == 0
    decreases |s|
  {
    if s != [] {
      ValZeros(s[..|s| - 1]);
    }
  }

  // ---------------------------------------------------------------- comparing

  datatype Ordering = Less | Equal | Greater

  /** Most significant limb first, as in `fe_cmp` and `bn_cmp`. */
  method Cmp(a: seq<u32>, b: seq<u32>) returns (o: Ordering)
    requires |a| == |b|
    ensures o.Less? <==> Val32(a) < Val32(b)
    ensures o.Greater? <==> Val32(a) > Val32(b)
  {
    var i := |a|;
    while i > 0
      invariant 0 <= i <= |a| && a[i..] == b[i..]
    {
      i := i - 1;
      if a[i] != b[i] {
        Decided(a, b, i);
        return if a[i] > b[i] then Greater else Less;
      }
      assert a[i..] == [a[i]] + a[i + 1..] && b[i..] == [b[i]] + b[i + 1..];
    }
    assert a == a[0..] == b[0..] == b;
    return Equal;
  }

  /** The highest limb that differs decides. */
  lemma Decided(a: seq<u32>, b: seq<u32>, i: nat)
    requires i < |a| == |b| && a[i + 1..] == b[i + 1..] && a[i] != b[i]
    ensures a[i] > b[i] <==> Val32(a) > Val32(b)
    ensures a[i] < b[i] <==> Val32(a) < Val32(b)
  {
    if a[i] < b[i] {
      DecidedLess(a, b, i);
    } else {
      DecidedLess(b, a, i);
    }
  }

  lemma DecidedLess(a: seq<u32>, b: seq<u32>, i: nat)
    requires i < |a| == |b| && a[i + 1..] == b[i + 1..] && a[i] < b[i]
    ensures Val32(a) < Val32(b)
  {
    hide Val, W;
    assert a == a[..i + 1] + a[i + 1..] && b == b[..i + 1] + b[i + 1..];
    ValConcat(a[..i + 1], a[i + 1..]);
    ValConcat(b[..i + 1], b[i + 1..]);
    assert a[..i + 1] == a[..i] + [a[i]] && b[..i + 1] == b[..i] + [b[i]];
    ValSnoc(a[..i], a[i]);
    ValSnoc(b[..i], b[i]);
    ValBound(a[..i]);
    ValBound(b[..i]);
    DigitLess(Val32(a[..i]), Val32(b[..i]), a[i], b[i], W(i));
  }

  lemma DigitLess(u: int, v: int, x: int, y: int, w: int)
    requires 0 <= u < w && 0 <= v && x < y
    ensures u + x * w < v + y * w
  {
    assert (x + 1) * w <= y * w;
  }

  // ---------------------------------------------------------------- adding and subtracting

  /** The borrow loop of `bn_sub`, `fe_sub` and `fe_reduce`. */
  method SubLimbs(a: seq<u32>, b: seq<u32>) returns (r: seq<u32>, borrow: int)
    requires |a| == |b|
    ensures |r| == |a| && (borrow == 0 || borrow == 1)
    ensures Val32(r) == Val32(a) - Val32(b) + borrow * W(|a|)
    ensures borrow == 1 <==> Val32(a) < Val32(b)
  {
    r, borrow := [], 0;
    for i := 0 to |a|
      invariant |r| == i && (borrow == 0 || borrow == 1)
      invariant Val32(r) == Val32(a[..i]) - Val32(b[..i]) + borrow * W(i)
    {
      var d := a[i] - b[i] - borrow;
      ghost var d' := if d < 0 then d + B else d;
      ValSnoc(r, d');
      ValSnoc(a[..i], a[i]);
      ValSnoc(b[..i], b[i]);
      assert a[..i + 1] == a[..i] + [a[i]] && b[..i + 1] == b[..i] + [b[i]];
      BorrowStep(a[i], b[i], borrow, d', if d < 0 then 1 else 0, W(i));
      if d < 0 {
        r, borrow := r + [d + B], 1;
      } else {
        r, borrow := r + [d], 0;
      }
    }
    assert a[..|a|] == a && b[..|b|] == b;
    ValBound(r);
    ValBound(a);
    ValBound(b);
  }

  lemma BorrowStep(x: int, y: int, c: int, d: int, c': int, w: int)
    requires x - y - c == d - c' * B
    ensures d * w == x * w - y * w - c * w + c' * (B * w)
  {
    assert (x - y - c) * w == (d - c' * B) * w;
  }

  lemma CarryStep(x: int, y: int, c: int, d: int, c': int, w: int)
    requires x + y + c == d + c' * B
    ensures d * w == x * w + y * w + c * w - c' * (B * w)
  {
    assert (x + y + c) * w == (d + c' * B) * w;
  }

  /** The carry loop of `bn_add` and `fe_add`. */
  method AddLimbs(a: seq<u32>, b: seq<u32>) returns (r: seq<u32>, carry: int)
    requires |a| == |b|
    ensures |r| == |a| && (carry == 0 || carry == 1)
    ensures Val32(r) == Val32(a) + Val32(b) - carry * W(|a|)
    ensures carry == 1 <==> Val32(a) + Val32(b) >= W(|a|)
  {
    r, carry := [], 0;
    for i := 0 to |a|
      invariant |r| == i && (carry == 0 || carry == 1)
      invariant Val32(r) == Val32(a[..i]) + Val32(b[..i]) - carry * W(i)
    {
      var s := a[i] + b[i] + carry;
      ValSnoc(r, s % B);
      ValSnoc(a[..i], a[i]);
      ValSnoc(b[..i], b[i]);
      assert a[..i + 1] == a[..i] + [a[i]] && b[..i + 1] == b[..i] + [b[i]];
      CarryStep(a[i], b[i], carry, s % B, s / B, W(i));
      r, carry := r + [s % B], s / B;
    }
    assert a[..|a|] == a && b[..|b|] == b;
    ValBound(r);
    ValBound(a);
    ValBound(b);
  }

  lemma MulBound(x: int, y: int, m: int)
    requires 0 <= x <= m && 0 <= y <= m
    ensures 0 <= x * y <= m * m
  {
    assert x * y <= m * y;
    assert m * y <= m * m;
  }

  /** A total below the weight leaves nothing at that weight. */
  lemma TopZero(v: int, hi: int, w: int, total: int)
    requires w > 0 && v >= 0 && hi >= 0 && v + hi * w == total && total < w
    ensures hi == 0
  {
    assert hi >= 1 ==> hi * w >= w;
  }
}
