/**
 Wrapping 32-bit sequence numbers (section 3.4 of RFC 9293) against the
 unbounded stream positions they stand for.
 */
module SeqArith {
  import opened Common

  const M32: int := 0x1_0000_0000
  const M31: int := 0x8000_0000

  /** The sequence number carried on the wire for stream position `pos`. */
  function Wrap(pos: int): u32 {
    pos % M32
  }

  /** `(a.wrapping_sub(b) as i32) > 0` */
  predicate WrappingGt(a: u32, b: u32) {
    var d := (a - b) % M32;
    0 < d < M31
  }

  predicate WrappingGe(a: u32, b: u32) {
    a == b || WrappingGt(a, b)
  }

  /** The comparison sees only the distance modulo 2^32 ... */
  lemma WrapDistance(x: int, y: int)
    ensures (Wrap(x) - Wrap(y)) % M32 == (x - y) % M32
  {
  }

  /** ... so it orders two positions correctly exactly while they are in one window. */
  lemma WrappingGeExact(x: int, y: int)
    requires -M31 <= x - y < M31
    ensures WrappingGe(Wrap(x), Wrap(y)) <==> x >= y
  {
    WrapDistance(x, y);
  }

  /** Outside the window the answer is the opposite one, up to the next window. */
  lemma WrappingGeWrong(x: int, y: int)
    requires M31 <= x - y < M32 || -M32 <= x - y < -M31
    ensures WrappingGe(Wrap(x), Wrap(y)) <==> x < y
  {
    WrapDistance(x, y);
  }

  /** Equal numbers name equal positions inside one window. */
  lemma WrapInjective(x: int, y: int)
    requires -M32 < x - y < M32
    ensures Wrap(x) == Wrap(y) <==> x == y
  {
    WrapDistance(x, y);
  }

  lemma WrapAdd(x: int, n: int)
    ensures Wrap(Wrap(x) + n) == Wrap(x + n)
  {
  }
}
