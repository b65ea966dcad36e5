/** Header compression of section 5 and section 6 of RFC 7541, without a dynamic table. */
module Hpack {
  import opened Common
  import ModArith

  type Str = seq<byte>

  datatype Header = Header(name: Str, value: Str)

  function Ascii(s: string): Str { seq(|s|, i requires 0 <= i < |s| => (s[i] as int) % 256) }

  /** The static table of appendix A. */
  function StaticRows(): seq<(string, string)> { PseudoRows() + PlainRows() }

  function PseudoRows(): seq<(string, string)> {
    [
      (":authority", ""), (":method", "GET"), (":method", "POST"), (":path", "/"), (":path", "/index.html"),
      (":scheme", "http"), (":scheme", "https"), (":status", "200"), (":status", "204"), (":status", "206"),
      (":status", "304"), (":status", "400"), (":status", "404"), (":status", "500")
    ]
  }

  function PlainRows(): seq<(string, string)> {
    [
      ("accept-charset", ""), ("accept-encoding", "gzip, deflate"), ("accept-language", ""), ("accept-ranges", ""), ("accept", ""),
      ("access-control-allow-origin", ""), ("age", ""), ("allow", ""), ("authorization", ""), ("cache-control", ""),
      ("content-disposition", ""), ("content-encoding", ""), ("content-language", ""), ("content-length", ""),
      ("content-location", ""), ("content-range", ""), ("content-type", ""), ("cookie", ""), ("date", ""),
      ("etag", ""), ("expect", ""), ("expires", ""), ("from", ""), ("host", ""), ("if-match", ""),
      ("if-modified-since", ""), ("if-none-match", ""), ("if-range", ""), ("if-unmodified-since", ""),
      ("last-modified", ""), ("link", ""), ("location", ""), ("max-forwards", ""), ("proxy-authenticate", ""),
      ("proxy-authorization", ""), ("range", ""), ("referer", ""), ("refresh", ""), ("retry-after", ""),
      ("server", ""), ("set-cookie", ""), ("strict-transport-security", ""), ("transfer-encoding", ""),
      ("user-agent", ""), ("vary", ""), ("via", ""), ("www-authenticate", "")
    ]
  }

  const STATIC: nat := 61

  function Row(i: nat): Header
    requires 1 <= i <= STATIC
  {
    var rows := StaticRows();
    Header(Ascii(rows[i - 1].0), Ascii(rows[i - 1].1))
  }

  // ---------------------------------------------------------------- integers

  function Tail(v: nat): Str { if v < 128 then [v] else [v % 128 + 128] + Tail(v / 128) }

  /** A number after `bits` bits of prefix; `first` is what the other bits of the first byte say. */
  function IntBytes(bits: nat, first: byte, v: nat): Str
    requires bits <= 7 && first + TwoTo(bits) <= 256
  {
    if v < TwoTo(bits) - 1 then [first + v] else [first + TwoTo(bits) - 1] + Tail(v - (TwoTo(bits) - 1))
  }

  function TakeTail(s: Str, value: nat, weight: nat): (r: (nat, Str))
    ensures |r.1| <= |s|
    decreases |s|
  {
    if s == [] then (value, s)
    else if s[0] < 128 then (value + s[0] % 128 * weight, s[1..])
    else TakeTail(s[1..], value + s[0] % 128 * weight, weight * 128)
  }

  function TakeInt(s: Str, bits: nat): (r: (nat, Str))
    ensures s != [] ==> |r.1| < |s|
  {
    if s == [] then (0, s)
    else if s[0] % TwoTo(bits) < TwoTo(bits) - 1 then (s[0] % TwoTo(bits), s[1..])
    else TakeTail(s[1..], s[0] % TwoTo(bits), 1)
  }

  lemma WeightStep(v: nat, weight: nat)
    ensures v % 128 * weight + v / 128 * (weight * 128) == v * weight
  {
    assert v == v % 128 + v / 128 * 128;
    assert (v % 128 + v / 128 * 128) * weight == v % 128 * weight + v / 128 * 128 * weight;
    assert v / 128 * 128 * weight == v / 128 * (weight * 128);
  }

  lemma {:induction false} TailRoundTrip(v: nat, rest: Str, value: nat, weight: nat)
    ensures TakeTail(Tail(v) + rest, value, weight) == (value + v * weight, rest)
    decreases v
  {
    var s := Tail(v) + rest;
    if v < 128 {
      assert s[1..] == rest;
    } else {
      assert s[1..] == Tail(v / 128) + rest;
      TailRoundTrip(v / 128, rest, value + v % 128 * weight, weight * 128);
      WeightStep(v, weight);
    }
  }

  lemma PrefixReads(first: byte, v: nat, p: nat)
    requires p > 0 && first % p == 0 && v < p
    ensures (first + v) % p == v
  {
    ModArith.ModUnique(first + v, p, first / p, v);
  }

  /** Every number, behind every prefix, decodes to itself and leaves what follows. */
  lemma IntRoundTrip(bits: nat, first: byte, v: nat, rest: Str)
    requires bits <= 7 && first + TwoTo(bits) <= 256 && first % TwoTo(bits) == 0
    ensures TakeInt(IntBytes(bits, first, v) + rest, bits) == (v, rest)
  {
    hide TwoTo, Tail, TakeTail;
    var p := TwoTo(bits);
    var s := IntBytes(bits, first, v) + rest;
    if v < p - 1 {
      PrefixReads(first, v, p);
      assert s[0] == first + v && s[1..] == rest;
    } else {
      PrefixReads(first, p - 1, p);
      TailRoundTrip(v - (p - 1), rest, p - 1, 1);
      assert s[0] == first + (p - 1) && s[1..] == Tail(v - (p - 1)) + rest;
    }
  }

  /** The example of section C.1.2 of RFC 7541: 1337 behind five bits. */
  lemma ThirteenThirtySeven(rest: Str)
    ensures IntBytes(5, 0, 1337) == [31, 154, 10] && TakeInt([31, 154, 10] + rest, 5) == (1337, rest)
  {
    assert TwoTo(5) == 32 by { assert TwoTo(3) == 8; }
    assert Tail(10) == [10] && Tail(1306) == [154] + Tail(10);
    var s: Str := [31, 154, 10] + rest;
    assert IntBytes(5, 0, 1337) == [31] + [154, 10];
    IntRoundTrip(5, 0, 1337, rest);
  }

  // ---------------------------------------------------------------- the 64-bit decoder


  /** Seven more bits: shifts count modulo 64, shifted-out bits and carries are lost. */
  function Added(value: nat, b: nat, shift: nat): (r: nat)
    ensures r < U64
  {
    Sum64(value, b * TwoTo(shift % 64))
  }

  function Sum64(value: nat, c: nat): (r: nat)
    ensures r < U64
  {
    (value + c % U64) % U64
  }

  /** The tail as the code adds it up. */
  function MachineTail(s: Str, value: nat, shift: nat): (r: (nat, Str))
    requires value < U64
    ensures r.0 < U64 && |r.1| <= |s|
    decreases |s|
  {
    if s == [] then (value, s)
    else
      var v := Added(value, s[0] % 128, shift);
      if s[0] < 128 then (v, s[1..]) else MachineTail(s[1..], v, shift + 7)
  }

  function MachineInt(s: Str, bits: nat): (r: (nat, Str))
    ensures r.0 < U64 && (s != [] ==> |r.1| < |s|)
  {
    if s == [] then (0, s)
    else
      var v := Low(s[0], TwoTo(bits));
      if v < TwoTo(bits) - 1 then (v, s[1..]) else MachineTail(s[1..], v, 0)
  }

  function Low(b: byte, p: nat): (r: nat)
    requires p > 0
    ensures r <= b
  {
    b % p
  }

  lemma {:induction false} TwoToBounds(n: nat)
    ensures n >= 64 ==> TwoTo(n) >= U64
    ensures TwoTo(n + 7) == TwoTo(n) * 128
  {
    if n > 0 {
      TwoToBounds(n - 1);
    } else {
      assert TwoTo(7) == 128 by { assert TwoTo(3) == 8; }
    }
    if n == 64 {
      assert TwoTo(64) == U64 by { SixtyFour(); }
    }
  }

  lemma SixtyFour()
    ensures TwoTo(64) == U64
  {
    assert TwoTo(8) == 256 by { assert TwoTo(4) == 16; }
    assert TwoTo(16) == 65536 by { assert TwoTo(12) == 4096; }
    assert TwoTo(24) == 16777216 by { assert TwoTo(20) == 1048576; }
    assert TwoTo(32) == 0x1_0000_0000 by { assert TwoTo(28) == 0x1000_0000; }
    assert TwoTo(40) == 0x100_0000_0000 by { assert TwoTo(36) == 0x10_0000_0000; }
    assert TwoTo(48) == 0x1_0000_0000_0000 by { assert TwoTo(44) == 0x1000_0000_0000; }
    assert TwoTo(56) == 0x100_0000_0000_0000 by { assert TwoTo(52) == 0x10_0000_0000_0000; }
    assert TwoTo(60) == 0x1000_0000_0000_0000;
  }

  /** A tail only ever adds. */
  lemma {:induction false} TailGrows(s: Str, value: nat, weight: nat)
    ensures TakeTail(s, value, weight).0 >= value
    decreases |s|
  {
    if s != [] && s[0] >= 128 {
      TailGrows(s[1..], value + s[0] % 128 * weight, weight * 128);
    }
  }

  lemma Times(b: nat, w: nat)
    ensures b > 0 ==> b * w >= w
  {
  }

  lemma NoCarry(value: nat, c: nat)
    requires value + c < U64
    ensures Sum64(value, c) == value + c
  {
  }

  /** Bits past the top would already exceed the bound, unless they are all zero. */
  lemma SameShift(b: nat, shift: nat)
    requires b * TwoTo(shift) < U64
    ensures b * TwoTo(shift % 64) == b * TwoTo(shift)
  {
    hide TwoTo;
    TwoToBounds(shift);
    Times(b, TwoTo(shift));
    if b == 0 {
      assert b * TwoTo(shift % 64) == 0 == b * TwoTo(shift);
    } else {
      assert shift % 64 == shift;
    }
  }

  lemma NothingLost(value: nat, b: nat, shift: nat)
    requires value + b * TwoTo(shift) < U64
    ensures Added(value, b, shift) == value + b * TwoTo(shift)
  {
    hide Sum64, TwoTo;
    SameShift(b, shift);
    NoCarry(value, b * TwoTo(shift));
  }

  lemma {:induction false} TailFits(s: Str, value: nat, shift: nat)
    requires value < U64 && TakeTail(s, value, TwoTo(shift)).0 < U64
    ensures MachineTail(s, value, shift) == TakeTail(s, value, TwoTo(shift))
    decreases |s|
  {
    hide TwoTo, Added;
    if s != [] {
      var b, w := s[0] % 128, TwoTo(shift);
      var v := value + b * w;
      TwoToBounds(shift);
      TailGrows(s[1..], v, w * 128);
      NothingLost(value, b, shift);
      if s[0] >= 128 {
        TailFits(s[1..], v, shift + 7);
      }
    }
  }

  lemma AtMost127(b: nat, w: nat)
    requires b <= 127
    ensures b * w <= 127 * w
  {
  }

  lemma {:induction false} TailBound(s: Str, value: nat, shift: nat)
    ensures TakeTail(s, value, TwoTo(shift)).0 + TwoTo(shift) <= value + TwoTo(shift + 7 * |s|)
    decreases |s|
  {
    hide TwoTo;
    if s != [] {
      var b, w := s[0] % 128, TwoTo(shift);
      var c := b * w;
      AtMost127(b, w);
      TwoToBounds(shift);
      TailBound(s[1..], value + c, shift + 7);
      assert shift + 7 + 7 * |s[1..]| == shift + 7 * |s|;
      TwoToGrows(shift + 7, 7 * |s[1..]|);
    }
  }

  lemma {:induction false} TwoToGrows(a: nat, n: nat)
    ensures TwoTo(a) <= TwoTo(a + n)
  {
    if n > 0 {
      TwoToGrows(a, n - 1);
    }
  }

  /** Nine bytes of tail can say nothing too large. */
  lemma ShortTailFits(s: Str, bits: nat)
    requires |s| <= 10
    ensures TakeInt(s, bits).0 < U64
  {
    hide TakeTail, TwoTo;
    if s != [] {
      var v, n := Low(s[0], TwoTo(bits)), 7 * |s[1..]|;
      TailBound(s[1..], v, 0);
      TwoToZero();
      TwoToGrows(n, 63 - n);
      HalfOf64();
    }
  }

  lemma HalfOf64()
    ensures TwoTo(63) == U64 / 2
  {
    SixtyFour();
  }

  /** The code decodes the number that was sent exactly when that number fits in 64 bits. */
  lemma MachineIntIff(s: Str, bits: nat)
    ensures MachineInt(s, bits) == TakeInt(s, bits) <==> TakeInt(s, bits).0 < U64
  {
    hide MachineTail, TakeTail, TwoTo;
    assert TwoTo(0) == 1 by { TwoToZero(); }
    if s != [] && Low(s[0], TwoTo(bits)) >= TwoTo(bits) - 1 && TakeInt(s, bits).0 < U64 {
      TailFits(s[1..], Low(s[0], TwoTo(bits)), 0);
    }
  }

  /** So what an encoder sends comes back through the code exactly when it is below 2^64. */
  lemma MachineRoundTripIff(bits: nat, first: byte, v: nat, rest: Str)
    requires bits <= 7 && first + TwoTo(bits) <= 256 && first % TwoTo(bits) == 0
    ensures MachineInt(IntBytes(bits, first, v) + rest, bits) == (v, rest) <==> v < U64
  {
    IntRoundTrip(bits, first, v, rest);
    MachineIntIff(IntBytes(bits, first, v) + rest, bits);
  }

  method EncodeTail(buf: Str, value: nat) returns (r: Str)
    ensures r == buf + Tail(value)
  {
    r := buf;
    var v := value;
    while v >= 128
      invariant r + Tail(v) == buf + Tail(value)
    {
      assert r + Tail(v) == r + [v % 128 + 128] + Tail(v / 128);
      r := r + [v % 128 + 128];
      v := v / 128;
    }
    r := r + [v];
  }

  method EncodeInt(bits: nat, value: nat, buf: Str, first: byte) returns (r: Str)
    requires bits <= 7 && first + TwoTo(bits) <= 256
    ensures r == buf + IntBytes(bits, first, value)
  {
    hide TwoTo, Tail;
    var max := TwoTo(bits) - 1;
    if value < max { return buf + [first + value]; }
    r := EncodeTail(buf + [first + max], value - max);
  }

  // ---------------------------------------------------------------- strings

  function Literal(s: Str): Str { IntBytes(7, 0, |s|) + s }

  /** Decoding of the compressed form is left to `huffman`. */
  function TakeString(s: Str, huffman: Str -> Str): (r: (Str, Str))
    ensures |r.1| <= |s|
  {
    if s == [] then ([], s)
    else
      var (n, t) := TakeInt(s, 7);
      if n > |t| then ([], t)
      else (if s[0] >= 128 then huffman(t[..n]) else t[..n], t[n..])
  }

  lemma LiteralRoundTrip(s: Str, rest: Str, huffman: Str -> Str)
    ensures TakeString(Literal(s) + rest, huffman) == (s, rest)
  {
    hide TakeInt;
    assert TwoTo(7) == 128 by { assert TwoTo(3) == 8; }
    assert Literal(s) + rest == IntBytes(7, 0, |s|) + (s + rest);
    IntRoundTrip(7, 0, |s|, s + rest);
    assert IntBytes(7, 0, |s|)[0] < 128;
    assert (s + rest)[..|s|] == s && (s + rest)[|s|..] == rest;
  }

  method EncodeLiteral(buf: Str, s: Str) returns (r: Str)
    ensures r == buf + Literal(s)
  {
    assert TwoTo(7) == 128 by { assert TwoTo(3) == 8; }
    r := EncodeInt(7, |s|, buf, 0);
    r := r + s;
  }

  // ---------------------------------------------------------------- header fields

  function Find(h: Header, i: nat): (r: nat)
    requires 1 <= i <= STATIC + 1
    ensures i <= r <= STATIC + 1 && (r <= STATIC ==> Row(r) == h)
    decreases STATIC + 1 - i
  {
    if i > STATIC || Row(i) == h then i else Find(h, i + 1)
  }

  function FindName(name: Str, i: nat): (r: nat)
    requires 1 <= i <= STATIC + 1
    ensures i <= r <= STATIC + 1 && (r <= STATIC ==> Row(r).name == name)
    decreases STATIC + 1 - i
  {
    if i > STATIC || Row(i).name == name then i else FindName(name, i + 1)
  }

  lemma Powers()
    ensures TwoTo(4) == 16 && TwoTo(5) == 32 && TwoTo(6) == 64 && TwoTo(7) == 128
  {
    assert TwoTo(3) == 8;
    assert TwoTo(5) == 32;
  }

  function FieldBytes(h: Header): Str {
    Powers();
    if Find(h, 1) <= STATIC then [128 + Find(h, 1)]
    else (if FindName(h.name, 1) <= STATIC then IntBytes(4, 0, FindName(h.name, 1)) else [0] + Literal(h.name)) + Literal(h.value)
  }

  function BlockBytes(hs: seq<Header>): Str { if hs == [] then [] else FieldBytes(hs[0]) + BlockBytes(hs[1..]) }

  /** The name and value of a literal field whose index has `bits` bits. */
  function TakeLiteral(s: Str, bits: nat, huffman: Str -> Str): (r: (Header, Str))
    requires s != []
    ensures |r.1| < |s|
  {
    var (i, t) := TakeInt(s, bits);
    var (name, u) := if 0 < i <= STATIC then (Row(i).name, t) else TakeString(t, huffman);
    var (value, w) := TakeString(u, huffman);
    (Header(name, value), w)
  }

  /** One field or none, and what follows. */
  function TakeField(s: Str, huffman: Str -> Str): (r: (Option<Header>, Str))
    requires s != []
    ensures |r.1| < |s|
  {
    if s[0] >= 128 then
      var (i, t) := TakeInt(s, 7);
      (if 0 < i <= STATIC then Some(Row(i)) else None, t)
    else if s[0] >= 64 then
      var (h, t) := TakeLiteral(s, 6, huffman);
      (Some(h), t)
    else if s[0] >= 32 then (None, TakeInt(s, 5).1)
    else
      var (h, t) := TakeLiteral(s, 4, huffman);
      (Some(h), t)
  }

  function TakeBlock(s: Str, huffman: Str -> Str): seq<Header>
    decreases |s|
  {
    if s == [] then []
    else
      var (h, t) := TakeField(s, huffman);
      (if h.Some? then [h.value] else []) + TakeBlock(t, huffman)
  }

  lemma IndexedRoundTrip(i: nat, rest: Str, huffman: Str -> Str)
    requires 1 <= i <= STATIC
    ensures TakeField([128 + i] + rest, huffman) == (Some(Row(i)), rest)
  {
    hide Row;
    Powers();
    var s: Str := [128 + i] + rest;
    assert s[1..] == rest;
  }

  lemma NamedRoundTrip(i: nat, value: Str, rest: Str, huffman: Str -> Str)
    requires 1 <= i <= STATIC
    ensures TakeField(IntBytes(4, 0, i) + Literal(value) + rest, huffman) == (Some(Header(Row(i).name, value)), rest)
  {
    hide Row, TakeInt, Literal, TakeString;
    Powers();
    assert IntBytes(4, 0, i) + Literal(value) + rest == IntBytes(4, 0, i) + (Literal(value) + rest);
    IntRoundTrip(4, 0, i, Literal(value) + rest);
    LiteralRoundTrip(value, rest, huffman);
    assert IntBytes(4, 0, i)[0] < 32;
  }

  lemma NewNameRoundTrip(h: Header, rest: Str, huffman: Str -> Str)
    ensures TakeField([0] + Literal(h.name) + Literal(h.value) + rest, huffman) == (Some(h), rest)
  {
    hide Row, Literal, TakeString;
    Powers();
    var s: Str := [0] + Literal(h.name) + Literal(h.value) + rest;
    assert s[1..] == Literal(h.name) + (Literal(h.value) + rest);
    LiteralRoundTrip(h.name, Literal(h.value) + rest, huffman);
    LiteralRoundTrip(h.value, rest, huffman);
  }

  lemma FieldRoundTrip(h: Header, rest: Str, huffman: Str -> Str)
    ensures FieldBytes(h) != [] && TakeField(FieldBytes(h) + rest, huffman) == (Some(h), rest)
  {
    hide Row, Literal, TakeField;
    Powers();
    if Find(h, 1) <= STATIC {
      IndexedRoundTrip(Find(h, 1), rest, huffman);
    } else if FindName(h.name, 1) <= STATIC {
      NamedRoundTrip(FindName(h.name, 1), h.value, rest, huffman);
    } else {
      NewNameRoundTrip(h, rest, huffman);
    }
  }

  /** Every list of header fields decodes to itself, whatever the compressed form would have meant. */
  lemma {:induction false} BlockRoundTrip(hs: seq<Header>, huffman: Str -> Str)
    ensures TakeBlock(BlockBytes(hs), huffman) == hs
    decreases |hs|
  {
    hide FieldBytes, TakeField;
    if hs != [] {
      FieldRoundTrip(hs[0], BlockBytes(hs[1..]), huffman);
      BlockRoundTrip(hs[1..], huffman);
    }
  }

  method EncodeHeader(buf: Str, h: Header) returns (r: Str)
    ensures r == buf + FieldBytes(h)
  {
    hide Row, IntBytes, Literal;
    Powers();
    var i := Find(h, 1);
    if i <= STATIC { return buf + [128 + i]; }
    i := FindName(h.name, 1);
    if i <= STATIC {
      r := EncodeInt(4, i, buf, 0);
    } else {
      r := EncodeLiteral(buf + [0], h.name);
    }
    r := EncodeLiteral(r, h.value);
  }

  // ---------------------------------------------------------------- the examples of the standard

  function Short(s: Str): Str
    requires |s| < 127
  {
    [|s|] + s
  }

  lemma ShortIs(s: Str)
    requires |s| < 127
    ensures Literal(s) == Short(s)
  {
    Powers();
  }

  /** Section C.2.1: a literal with indexing, name and value spelled out. */
  lemma CustomHeader(h: Header, rest: Str, huffman: Str -> Str)
    requires |h.name| < 127 && |h.value| < 127
    ensures TakeField([0x40] + Short(h.name) + Short(h.value) + rest, huffman) == (Some(h), rest)
    ensures TakeField([0x00] + Short(h.name) + Short(h.value) + rest, huffman) == (Some(h), rest)
    ensures TakeField([0x10] + Short(h.name) + Short(h.value) + rest, huffman) == (Some(h), rest)
  {
    hide Row, Literal, TakeString;
    Powers();
    ShortIs(h.name);
    ShortIs(h.value);
    var tail := Literal(h.name) + (Literal(h.value) + rest);
    LiteralRoundTrip(h.name, Literal(h.value) + rest, huffman);
    LiteralRoundTrip(h.value, rest, huffman);
    var s1, s2, s3: Str := [0x40] + Short(h.name) + Short(h.value) + rest, [0x00] + Short(h.name) + Short(h.value) + rest,
                           [0x10] + Short(h.name) + Short(h.value) + rest;
    assert s1[1..] == tail && s2[1..] == tail && s3[1..] == tail;
  }

  /** Section C.2.2: a literal whose name is row 4 of the table, and section C.2.4: row 2 of it. */
  lemma TableRows(value: Str, rest: Str, huffman: Str -> Str)
    requires |value| < 127
    ensures TakeField([0x04] + Short(value) + rest, huffman) == (Some(Header(Ascii(":path"), value)), rest)
    ensures TakeField([0x82] + rest, huffman) == (Some(Header(Ascii(":method"), Ascii("GET"))), rest)
    ensures TakeField([0x88] + rest, huffman) == (Some(Header(Ascii(":status"), Ascii("200"))), rest)
  {
    Rows();
    hide Row, Ascii, TakeString, Literal;
    Powers();
    ShortIs(value);
    LiteralRoundTrip(value, rest, huffman);
    var s1, s2, s3: Str := [0x04] + Short(value) + rest, [0x82] + rest, [0x88] + rest;
    assert s1[1..] == Literal(value) + rest && s2[1..] == rest && s3[1..] == rest;
  }

  lemma Rows()
    ensures Row(2) == Header(Ascii(":method"), Ascii("GET")) && Row(4).name == Ascii(":path")
    ensures Row(8) == Header(Ascii(":status"), Ascii("200"))
  {
    hide Ascii, PlainRows;
    var rows := PseudoRows();
    assert rows[1].0 == ":method" && rows[1].1 == "GET";
    assert rows[3].0 == ":path";
    assert rows[7].0 == ":status" && rows[7].1 == "200";
  }
}
