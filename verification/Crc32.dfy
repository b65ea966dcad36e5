/** CRC-32: the table-driven update against division by the polynomial one bit at a time. */
module Crc32 {
  import opened Common

  const POLYNOMIAL: bv32 := 0xEDB8_8320

  function Plus(a: bv32, b: bv32): bv32 { a ^ b }

  /** One bit of the division: shift out, and subtract the polynomial when a one falls off. */
  function Step(c: bv32): bv32 { if Even(c) then Half(c) else Plus(POLYNOMIAL, Half(c)) }

  function Steps(c: bv32, n: nat): bv32
    decreases n
  {
    if n == 0 then c else Steps(Step(c), n - 1)
  }

  function Wide(b: byte): bv32 { (b as bv8) as bv32 }

  /** The division of a whole message, eight steps a byte. */
  function Divide(crc: bv32, data: seq<byte>): bv32
    decreases |data|
  {
    if data == [] then crc else Divide(Steps(Plus(crc, Wide(data[0])), 8), data[1..])
  }

  function Crc(data: seq<byte>): nat { (Divide(0xFFFF_FFFF, data) ^ 0xFFFF_FFFF) as nat }

  lemma CrcBound(data: seq<byte>)
    ensures Crc(data) < 0x1_0000_0000
  {
  }

  // ---------------------------------------------------------------- the eight steps are linear

  lemma PlusAssociates(a: bv32, b: bv32, c: bv32)
    ensures Plus(Plus(a, b), c) == Plus(a, Plus(b, c))
  {
  }

  function Half(y: bv32): bv32 { y >> 1 }

  predicate Even(y: bv32) { y & 1 == 0 }

  lemma HalfPlus(x: bv32, y: bv32)
    ensures Half(Plus(x, y)) == Plus(Half(x), Half(y))
  {
  }

  lemma EvenPlus(x: bv32, y: bv32)
    requires Even(y)
    ensures Even(Plus(x, y)) == Even(x)
  {
  }

  /** A summand without a low bit passes through a step by shifting. */
  lemma StepPlus(x: bv32, y: bv32)
    requires Even(y)
    ensures Step(Plus(x, y)) == Plus(Step(x), Half(y))
  {
    hide Plus, Half, Even;
    HalfPlus(x, y);
    EvenPlus(x, y);
    PlusAssociates(POLYNOMIAL, Half(x), Half(y));
  }

  /** The bits above the low byte, `k` places further down. */
  function High(x: bv32, k: nat): bv32 { if k == 0 then x & 0xFFFF_FF00 else Half(High(x, k - 1)) }

  lemma LowClear(y: bv32, x: bv32)
    requires y == x & 0xFFFF_FF00
    ensures y & 1 == 0 && (y >> 1) & 1 == 0 && (y >> 2) & 1 == 0 && (y >> 3) & 1 == 0
    ensures (y >> 4) & 1 == 0 && (y >> 5) & 1 == 0 && (y >> 6) & 1 == 0 && (y >> 7) & 1 == 0
    ensures y >> 8 == x >> 8
  {
  }

  lemma Half1(y: bv32)
    ensures Half(y) == y >> 1 && Half(y >> 1) == y >> 2
  {
  }

  lemma Half2(y: bv32)
    ensures Half(y >> 2) == y >> 3 && Half(y >> 3) == y >> 4
  {
  }

  lemma Half3(y: bv32)
    ensures Half(y >> 4) == y >> 5 && Half(y >> 5) == y >> 6
  {
  }

  lemma Half4(y: bv32)
    ensures Half(y >> 6) == y >> 7 && Half(y >> 7) == y >> 8
  {
  }

  lemma HighIs(x: bv32, y: bv32)
    requires y == x & 0xFFFF_FF00
    ensures High(x, 1) == y >> 1 && High(x, 2) == y >> 2 && High(x, 3) == y >> 3 && High(x, 4) == y >> 4
    ensures High(x, 5) == y >> 5 && High(x, 6) == y >> 6 && High(x, 7) == y >> 7 && High(x, 8) == y >> 8
  {
    hide Half;
    Half1(y);
    Half2(y);
    Half3(y);
    Half4(y);
    assert High(x, 0) == y;
    assert High(x, 1) == Half(High(x, 0));
    assert High(x, 2) == Half(High(x, 1));
    assert High(x, 4) == y >> 4;
    assert High(x, 6) == y >> 6;
  }

  lemma HighEven(x: bv32, k: nat)
    requires k < 8
    ensures Even(High(x, k))
  {
    hide Half;
    var y := x & 0xFFFF_FF00;
    HighIs(x, y);
    LowClear(y, x);
  }

  lemma {:induction false} StepsPlus(c: bv32, x: bv32, k: nat)
    requires k <= 8
    ensures Steps(Plus(c, High(x, k)), 8 - k) == Plus(Steps(c, 8 - k), High(x, 8))
    decreases 8 - k
  {
    hide Plus, Step, Half, Even;
    if k < 8 {
      HighEven(x, k);
      StepPlus(c, High(x, k));
      StepsPlus(Step(c), x, k + 1);
    }
  }

  lemma Split(x: bv32)
    ensures Plus(x & 0xFF, High(x, 0)) == x
  {
  }

  lemma HighEnd(x: bv32)
    ensures High(x, 8) == x >> 8
  {
    hide High;
    HighIs(x, x & 0xFFFF_FF00);
    LowClear(x & 0xFFFF_FF00, x);
  }

  lemma ByteBelow(crc: bv32, b: byte)
    ensures Plus(crc, Wide(b)) >> 8 == crc >> 8
  {
  }

  /** Looking the low byte up and shifting the rest is eight steps at once, whatever the register and the byte. */
  lemma TableStep(crc: bv32, b: byte)
    ensures Plus(Steps(Plus(crc, Wide(b)) & 0xFF, 8), crc >> 8) == Steps(Plus(crc, Wide(b)), 8)
  {
    hide Plus, Wide, Steps, High;
    var x := Plus(crc, Wide(b));
    Split(x);
    HighEnd(x);
    StepsPlus(x & 0xFF, x, 0);
    ByteBelow(crc, b);
  }

  lemma DivideNone(crc: bv32)
    ensures Divide(crc, []) == crc
  {
  }

  lemma {:induction false} DivideConcat(crc: bv32, a: seq<byte>, b: seq<byte>)
    ensures Divide(crc, a + b) == Divide(Divide(crc, a), b)
    decreases |a|
  {
    if a == [] {
      assert a + b == b;
    } else {
      assert (a + b)[1..] == a[1..] + b;
      DivideConcat(Steps(Plus(crc, Wide(a[0])), 8), a[1..], b);
    }
  }

  // ---------------------------------------------------------------- the table and the loops over it

  function Index(x: bv32): (i: nat)
    ensures i < 256
  {
    ((x & 0xFF) as bv8) as nat
  }

  ghost predicate IsTable(t: seq<bv32>) { |t| == 256 && forall i: byte :: t[i] == Steps(Wide(i), 8) }

  lemma ByteBack(v: bv8)
    ensures (v as nat) as bv8 == v
  {
  }

  lemma LowByte(x: bv32)
    ensures ((x & 0xFF) as bv8) as bv32 == x & 0xFF
  {
  }

  lemma IndexWide(x: bv32)
    ensures Wide(Index(x)) == x & 0xFF
  {
    ByteBack((x & 0xFF) as bv8);
    LowByte(x);
  }

  method MakeTable() returns (t: seq<bv32>)
    ensures IsTable(t)
  {
    t := [];
    for i := 0 to 256
      invariant |t| == i
      invariant forall k: byte :: k < i ==> t[k] == Steps(Wide(k), 8)
    {
      var c := Wide(i);
      for j := 0 to 8
        invariant Steps(c, 8 - j) == Steps(Wide(i), 8)
      {
        c := if c & 1 != 0 then POLYNOMIAL ^ (c >> 1) else c >> 1;
      }
      t := t + [c];
    }
  }

  /** One byte of `crc32`, by the table. */
  method Update(t: seq<bv32>, crc: bv32, b: byte) returns (r: bv32)
    requires IsTable(t)
    ensures r == Steps(Plus(crc, Wide(b)), 8)
  {
    hide Steps, Wide, Index, Plus;
    var x := Plus(crc, Wide(b));
    var i: byte := Index(x);
    IndexWide(x);
    r := Plus(t[i], crc >> 8);
    TableStep(crc, b);
  }

  method Feed(t: seq<bv32>, crc: bv32, data: seq<byte>) returns (r: bv32)
    requires IsTable(t)
    ensures r == Divide(crc, data)
  {
    hide Steps;
    r := crc;
    for i := 0 to |data|
      invariant Divide(r, data[i..]) == Divide(crc, data)
    {
      r := Update(t, r, data[i]);
      assert data[i..][1..] == data[i + 1..];
    }
  }

  method Checksum(data: seq<byte>) returns (r: nat)
    ensures r == Crc(data)
  {
    var t := MakeTable();
    var c := Feed(t, 0xFFFF_FFFF, data);
    r := (c ^ 0xFFFF_FFFF) as nat;
  }

  // ---------------------------------------------------------------- the checksum of the standard

  /** Coefficient `i` of the register: the lowest bit is the highest power. */
  predicate Coefficient(c: bv32, i: bv32)
    requires i < 32
  {
    (c >> (31 - i)) & 1 == 1
  }

  /** The powers below 32 of the polynomial of IEEE 802.3. */
  predicate InPolynomial(i: bv32) {
    i == 0 || i == 1 || i == 2 || i == 4 || i == 5 || i == 7 || i == 8 || i == 10 || i == 11 || i == 12 || i == 16 || i == 22
    || i == 23 || i == 26
  }

  /** A step is multiplication by x modulo that polynomial. */
  lemma StepMeans(c: bv32, i: bv32)
    requires i < 32
    ensures Coefficient(Step(c), i) <==> ((i > 0 && Coefficient(c, i - 1)) != (Coefficient(c, 31) && InPolynomial(i)))
  {
  }

  lemma DivideNext(crc: bv32, data: seq<byte>, i: nat, crc': bv32)
    requires i < |data| && Steps(Plus(crc, Wide(data[i])), 8) == crc'
    ensures Divide(crc, data[i..]) == Divide(crc', data[i + 1..])
  {
    hide Steps, Plus, Wide;
    assert data[i..][1..] == data[i + 1..];
  }

  lemma EightSteps(c: bv32)
    ensures Steps(c, 8) == Step(Step(Step(Step(Step(Step(Step(Step(c))))))))
  {
    hide Step;
    var d := Step(Step(c));
    var e := Step(Step(d));
    var f := Step(Step(e));
    assert Steps(c, 8) == Steps(d, 6) == Steps(e, 4) == Steps(f, 2);
  }

  lemma FirstLetter()
    ensures Steps(Plus(0xFFFF_FFFF, Wide(0x61)), 8) == 0x1748_41BC
  {
    hide Steps;
    EightSteps(Plus(0xFFFF_FFFF, Wide(0x61)));
    assert Plus(0xFFFF_FFFF, Wide(0x61)) == 0xFFFF_FF9E;
    assert Step(0xFFFF_FF9E) == 0x7FFF_FFCF && Step(0x7FFF_FFCF) == 0xD247_7CC7;
    assert Step(0xD247_7CC7) == 0x849B_3D43 && Step(0x849B_3D43) == 0xAFF5_1D81;
    assert Step(0xAFF5_1D81) == 0xBA42_0DE0 && Step(0xBA42_0DE0) == 0x5D21_06F0;
    assert Step(0x5D21_06F0) == 0x2E90_8378 && Step(0x2E90_8378) == 0x1748_41BC;
  }

  lemma SecondLetter()
    ensures Steps(Plus(0x1748_41BC, Wide(0x62)), 8) == 0x617C_B792
  {
    hide Steps;
    EightSteps(Plus(0x1748_41BC, Wide(0x62)));
    assert Plus(0x1748_41BC, Wide(0x62)) == 0x1748_41DE;
    assert Step(0x1748_41DE) == 0x0BA4_20EF && Step(0x0BA4_20EF) == 0xE86A_9357;
    assert Step(0xE86A_9357) == 0x998D_CA8B && Step(0x998D_CA8B) == 0xA17E_6665;
    assert Step(0xA17E_6665) == 0xBD07_B012 && Step(0xBD07_B012) == 0x5E83_D809;
    assert Step(0x5E83_D809) == 0xC2F9_6F24 && Step(0xC2F9_6F24) == 0x617C_B792;
  }

  /** A known checksum, that of "ab": where the register starts, which bit goes first, and what is done at the end. */
  lemma KnownChecksum()
    ensures Crc([0x61, 0x62]) == 0x9E83_486D
  {
    hide Steps, Plus, Wide;
    var d: seq<byte> := [0x61, 0x62];
    assert d[0..] == d && d[2..] == [];
    FirstLetter();
    DivideNext(0xFFFF_FFFF, d, 0, 0x1748_41BC);
    SecondLetter();
    DivideNext(0x1748_41BC, d, 1, 0x617C_B792);
  }
}
