/**
 The decoder of header blocks as the code runs it, in 64-bit arithmetic and with slices that panic,
 against the reference of Hpack on unbounded numbers.
 */
module HpackCode {
  import opened Common
  import opened Hpack

  datatype Outcome<+T> = Done(value: T) | Panic

  /** A number as it was read; a length comes with the position its string would end at. */
  datatype Number = Index(n: nat) | Length(n: nat, end: nat)

  datatype Read<+T> = Read(value: T, rest: Str, log: seq<Number>)

  predicate Fits(x: Number) { x.n < U64 && (x.Length? ==> x.end < U64) }

  predicate AllFit(log: seq<Number>) { forall k :: 0 <= k < |log| ==> Fits(log[k]) }

  predicate NumbersFit(log: seq<Number>) { forall k :: 0 <= k < |log| ==> log[k].n < U64 }

  // ---------------------------------------------------------------- both decoders at once

  /** On the machine, or as it should be. */
  function ReadInt(machine: bool, s: Str, bits: nat): (r: (nat, Str))
    ensures s != [] ==> |r.1| < |s|
  {
    if machine then MachineInt(s, bits) else TakeInt(s, bits)
  }

  /** `s` is what is left of a block of `size` bytes. */
  function ReadString(machine: bool, s: Str, size: nat, huffman: Str -> Str): (r: Outcome<Read<Str>>)
    requires |s| <= size
    ensures r.Done? ==> |r.value.rest| <= |s|
  {
    if s == [] then Done(Read([], s, []))
    else
      var (n, t) := ReadInt(machine, s, 7);
      var pos := size - |t|;
      var end := if machine then (pos + n) % 0x1_0000_0000_0000_0000 else pos + n;
      var log := [Length(n, pos + n)];
      if end > size then Done(Read([], t, log))
      else if end < pos then Panic
      else Done(Read(if s[0] >= 128 then huffman(t[..end - pos]) else t[..end - pos], t[end - pos..], log))
  }

  function ReadName(machine: bool, i: nat, t: Str, size: nat, huffman: Str -> Str): (r: Outcome<Read<Str>>)
    requires |t| <= size
    ensures r.Done? ==> |r.value.rest| <= |t|
  {
    if 0 < i <= STATIC then Done(Read(Row(i).name, t, [])) else ReadString(machine, t, size, huffman)
  }

  function ReadLiteral(machine: bool, s: Str, bits: nat, size: nat, huffman: Str -> Str): (r: Outcome<Read<Header>>)
    requires s != [] && |s| <= size
    ensures r.Done? ==> |r.value.rest| < |s|
  {
    var (i, t) := ReadInt(machine, s, bits);
    var name := ReadName(machine, i, t, size, huffman);
    if name.Panic? then Panic
    else
      var value := ReadString(machine, name.value.rest, size, huffman);
      if value.Panic? then Panic
      else Done(Read(Header(name.value.value, value.value.value), value.value.rest,
                     [Index(i)] + name.value.log + value.value.log))
  }

  function ReadField(machine: bool, s: Str, size: nat, huffman: Str -> Str): (r: Outcome<Read<Option<Header>>>)
    requires s != [] && |s| <= size
    ensures r.Done? ==> |r.value.rest| < |s|
  {
    if s[0] >= 128 then
      var (i, t) := ReadInt(machine, s, 7);
      Done(Read(if 0 < i <= STATIC then Some(Row(i)) else None, t, [Index(i)]))
    else if 32 <= s[0] < 64 then
      var (i, t) := ReadInt(machine, s, 5);
      Done(Read(None, t, [Index(i)]))
    else
      var f := ReadLiteral(machine, s, if s[0] >= 64 then 6 else 4, size, huffman);
      if f.Panic? then Panic else Done(Read(Some(f.value.value), f.value.rest, f.value.log))
  }

  function ReadBlock(machine: bool, s: Str, size: nat, huffman: Str -> Str): Outcome<(seq<Header>, seq<Number>)>
    requires |s| <= size
    decreases |s|
  {
    if s == [] then Done(([], []))
    else
      var f := ReadField(machine, s, size, huffman);
      if f.Panic? then Panic
      else
        var b := ReadBlock(machine, f.value.rest, size, huffman);
        if b.Panic? then Panic
        else Done(((if f.value.value.Some? then [f.value.value.value] else []) + b.value.0, f.value.log + b.value.1))
  }

  // ---------------------------------------------------------------- the reference

  lemma StringRefers(s: Str, size: nat, huffman: Str -> Str)
    requires |s| <= size
    ensures var r := ReadString(false, s, size, huffman);
            r.Done? && (r.value.value, r.value.rest) == TakeString(s, huffman)
  {
    hide TakeInt;
  }

  lemma FieldRefers(s: Str, size: nat, huffman: Str -> Str)
    requires s != [] && |s| <= size
    ensures var r := ReadField(false, s, size, huffman);
            r.Done? && (r.value.value, r.value.rest) == TakeField(s, huffman)
  {
    hide TakeInt, TakeString, ReadString, Row;
    var t := TakeInt(s, if s[0] >= 64 then 6 else 4).1;
    StringRefers(t, size, huffman);
    StringRefers(TakeString(t, huffman).1, size, huffman);
  }

  /** Off the machine the decoder never panics and reads the headers of the reference. */
  lemma {:induction false} BlockRefers(s: Str, size: nat, huffman: Str -> Str)
    requires |s| <= size
    ensures var r := ReadBlock(false, s, size, huffman); r.Done? && r.value.0 == TakeBlock(s, huffman)
    decreases |s|
  {
    hide ReadField, TakeField;
    if s != [] {
      FieldRefers(s, size, huffman);
      BlockRefers(TakeField(s, huffman).1, size, huffman);
    }
  }

  // ---------------------------------------------------------------- where the two part

  ghost predicate Differ(a: seq<Number>, b: seq<Number>) { exists k :: 0 <= k < |a| && k < |b| && a[k] != b[k] }

  lemma DifferLater(front: seq<Number>, a: seq<Number>, b: seq<Number>, a': seq<Number>, b': seq<Number>)
    requires Differ(a, b)
    ensures Differ(front + a + a', front + b + b')
  {
    var k :| 0 <= k < |a| && k < |b| && a[k] != b[k];
    assert (front + a + a')[|front| + k] == a[k] && (front + b + b')[|front| + k] == b[k];
  }

  lemma DifferAtOnce(x: Number, y: Number, a: seq<Number>, b: seq<Number>)
    requires x != y
    ensures Differ([x] + a, [y] + b)
  {
    assert ([x] + a)[0] == x && ([y] + b)[0] == y;
  }

  lemma DifferNotEqual(a: seq<Number>, b: seq<Number>)
    requires Differ(a, b)
    ensures a != b
  {
  }

  lemma AllFitConcat(a: seq<Number>, b: seq<Number>)
    ensures AllFit(a + b) <==> AllFit(a) && AllFit(b)
    ensures NumbersFit(a + b) <==> NumbersFit(a) && NumbersFit(b)
  {
    assert forall k :: 0 <= k < |a| ==> (a + b)[k] == a[k];
    assert forall k :: 0 <= k < |b| ==> (a + b)[|a| + k] == b[k];
  }

  /** A number too large is read as another one, and what follows it is found all the same. */
  lemma IntParts(s: Str, bits: nat)
    ensures MachineInt(s, bits).1 == TakeInt(s, bits).1
    ensures TakeInt(s, bits).0 < U64 ==> MachineInt(s, bits) == TakeInt(s, bits)
    ensures TakeInt(s, bits).0 >= U64 ==> MachineInt(s, bits).0 != TakeInt(s, bits).0
  {
    hide MachineTail, TakeTail, TwoTo;
    MachineIntIff(s, bits);
    if s != [] { SameRest(s[1..], Low(s[0], TwoTo(bits)), 0, Low(s[0], TwoTo(bits)), 1); }
  }

  lemma {:induction false} SameRest(s: Str, v: nat, shift: nat, w: nat, weight: nat)
    requires v < U64
    ensures MachineTail(s, v, shift).1 == TakeTail(s, w, weight).1
    decreases |s|
  {
    hide Added;
    if s != [] && s[0] >= 128 {
      SameRest(s[1..], Added(v, s[0] % 128, shift), shift + 7, w + s[0] % 128 * weight, weight * 128);
    }
  }

  /** What becomes of a reading on the machine, by the log of the reference. */
  ghost predicate Parts<T>(machine: Outcome<Read<T>>, reference: Outcome<Read<T>>) {
    && reference.Done?
    && (AllFit(reference.value.log) ==> machine == reference)
    && (!AllFit(reference.value.log) ==> machine.Panic? || Differ(machine.value.log, reference.value.log))
    && (!AllFit(reference.value.log) && NumbersFit(reference.value.log) ==> machine.Panic?)
  }

  lemma StringParts(s: Str, size: nat, huffman: Str -> Str)
    requires |s| <= size < U64
    ensures Parts(ReadString(true, s, size, huffman), ReadString(false, s, size, huffman))
  {
    hide MachineInt, TakeInt;
    if s != [] {
      IntParts(s, 7);
      var (n, t) := TakeInt(s, 7);
      var n' := MachineInt(s, 7).0;
      var pos := size - |t|;
      if n >= U64 { DifferAtOnce(Length(n', pos + n'), Length(n, pos + n), [], []); }
      assert [Length(n', pos + n')] + [] == [Length(n', pos + n')] && [Length(n, pos + n)] + [] == [Length(n, pos + n)];
      var log := [Length(n, pos + n)];
      assert AllFit(log) <==> Fits(log[0]);
      assert NumbersFit(log) <==> log[0].n < U64;
    }
  }

  lemma NameParts(i: nat, t: Str, size: nat, huffman: Str -> Str)
    requires |t| <= size < U64
    ensures Parts(ReadName(true, i, t, size, huffman), ReadName(false, i, t, size, huffman))
  {
    hide ReadString, Row;
    StringParts(t, size, huffman);
  }

  lemma LiteralParts(s: Str, bits: nat, size: nat, huffman: Str -> Str)
    requires s != [] && |s| <= size < U64
    ensures Parts(ReadLiteral(true, s, bits, size, huffman), ReadLiteral(false, s, bits, size, huffman))
  {
    hide MachineInt, TakeInt, ReadString, ReadName, AllFit, NumbersFit, Differ;
    IntParts(s, bits);
    var (i, t) := TakeInt(s, bits);
    var i' := MachineInt(s, bits).0;
    var name := ReadName(false, i, t, size, huffman);
    NameParts(i, t, size, huffman);
    var value := ReadString(false, name.value.rest, size, huffman);
    StringParts(name.value.rest, size, huffman);
    OneFits(Index(i));
    AllFitConcat([Index(i)], name.value.log);
    AllFitConcat([Index(i)] + name.value.log, value.value.log);
    LiteralDiffers(s, bits, size, huffman);
  }

  lemma OneFits(x: Number)
    ensures AllFit([x]) <==> Fits(x)
    ensures NumbersFit([x]) <==> x.n < U64
  {
    assert [x][0] == x;
  }

  /** The first number that does not fit shows in the log, or the machine has panicked. */
  lemma LiteralDiffers(s: Str, bits: nat, size: nat, huffman: Str -> Str)
    requires s != [] && |s| <= size < U64
    ensures var m, r := ReadLiteral(true, s, bits, size, huffman), ReadLiteral(false, s, bits, size, huffman);
            r.Done? && (AllFit(r.value.log) || m.Panic? || Differ(m.value.log, r.value.log))
  {
    hide MachineInt, TakeInt, ReadString, ReadName, AllFit, NumbersFit, Differ;
    IntParts(s, bits);
    var m, r := ReadLiteral(true, s, bits, size, huffman), ReadLiteral(false, s, bits, size, huffman);
    var (i, t) := TakeInt(s, bits);
    var i' := MachineInt(s, bits).0;
    var name, name' := ReadName(false, i, t, size, huffman), ReadName(true, i', t, size, huffman);
    NameParts(i, t, size, huffman);
    var value := ReadString(false, name.value.rest, size, huffman);
    StringParts(name.value.rest, size, huffman);
    OneFits(Index(i));
    AllFitConcat([Index(i)], name.value.log);
    AllFitConcat([Index(i)] + name.value.log, value.value.log);
    if m.Done? && !AllFit(r.value.log) {
      var value' := ReadString(true, name'.value.rest, size, huffman);
      if i >= U64 {
        DifferAtOnce(Index(i'), Index(i), name'.value.log + value'.value.log, name.value.log + value.value.log);
        assert [Index(i')] + name'.value.log + value'.value.log == [Index(i')] + (name'.value.log + value'.value.log);
        assert [Index(i)] + name.value.log + value.value.log == [Index(i)] + (name.value.log + value.value.log);
      } else if !AllFit(name.value.log) {
        DifferLater([Index(i)], name'.value.log, name.value.log, value'.value.log, value.value.log);
      } else {
        DifferLater([Index(i)] + name.value.log, value'.value.log, value.value.log, [], []);
        assert m.value.log + [] == m.value.log && r.value.log + [] == r.value.log;
      }
    }
  }

  lemma FieldParts(s: Str, size: nat, huffman: Str -> Str)
    requires s != [] && |s| <= size < U64
    ensures Parts(ReadField(true, s, size, huffman), ReadField(false, s, size, huffman))
  {
    hide MachineInt, TakeInt, ReadLiteral, Row, AllFit, NumbersFit, Differ;
    if s[0] >= 128 || 32 <= s[0] < 64 {
      var bits := if s[0] >= 128 then 7 else 5;
      IntParts(s, bits);
      var i, i' := TakeInt(s, bits).0, MachineInt(s, bits).0;
      OneFits(Index(i));
      if i != i' { DifferAtOnce(Index(i'), Index(i), [], []); }
      assert [Index(i')] + [] == [Index(i')] && [Index(i)] + [] == [Index(i)];
    } else {
      LiteralParts(s, if s[0] >= 64 then 6 else 4, size, huffman);
    }
  }

  ghost predicate BlockParts(machine: Outcome<(seq<Header>, seq<Number>)>, reference: Outcome<(seq<Header>, seq<Number>)>) {
    && reference.Done?
    && (AllFit(reference.value.1) ==> machine == reference)
    && (!AllFit(reference.value.1) ==> machine.Panic? || Differ(machine.value.1, reference.value.1))
    && (!AllFit(reference.value.1) && NumbersFit(reference.value.1) ==> machine.Panic?)
  }

  lemma {:induction false} BlockFollows(s: Str, size: nat, huffman: Str -> Str)
    requires |s| <= size < U64
    ensures BlockParts(ReadBlock(true, s, size, huffman), ReadBlock(false, s, size, huffman))
    decreases |s|
  {
    hide ReadField, AllFit, NumbersFit, Differ;
    if s == [] {
      NoneFit();
    } else {
      var f, f' := ReadField(false, s, size, huffman), ReadField(true, s, size, huffman);
      FieldParts(s, size, huffman);
      BlockFollows(f.value.rest, size, huffman);
      var b := ReadBlock(false, f.value.rest, size, huffman);
      AllFitConcat(f.value.log, b.value.1);
      var m := ReadBlock(true, s, size, huffman);
      if m.Done? {
        var b' := ReadBlock(true, f'.value.rest, size, huffman);
        if !AllFit(f.value.log) {
          DifferLater([], f'.value.log, f.value.log, b'.value.1, b.value.1);
          assert [] + f'.value.log == f'.value.log && [] + f.value.log == f.value.log;
        } else if !AllFit(b.value.1) {
          DifferLater(f.value.log, b'.value.1, b.value.1, [], []);
          assert f.value.log + b'.value.1 + [] == f.value.log + b'.value.1;
          assert f.value.log + b.value.1 + [] == f.value.log + b.value.1;
        }
      }
    }
  }

  lemma NoneFit()
    ensures AllFit([]) && NumbersFit([])
  {
  }

  /** Every number of a block, as the reference reads it. */
  function Numbers(block: Str, huffman: Str -> Str): seq<Number> {
    BlockRefers(block, |block|, huffman);
    ReadBlock(false, block, |block|, huffman).value.1
  }

  /** The code reads a block, its headers and each number in it, as the reference does exactly when every number and the
      end of every string is below 2^64. */
  lemma BlockExactIff(block: Str, huffman: Str -> Str)
    requires |block| < U64
    ensures ReadBlock(true, block, |block|, huffman) == Done((TakeBlock(block, huffman), Numbers(block, huffman)))
            <==> AllFit(Numbers(block, huffman))
  {
    hide ReadBlock, AllFit, Differ, TakeBlock;
    BlockRefers(block, |block|, huffman);
    BlockFollows(block, |block|, huffman);
    var m := ReadBlock(true, block, |block|, huffman);
    if m.Done? && Differ(m.value.1, Numbers(block, huffman)) {
      DifferNotEqual(m.value.1, Numbers(block, huffman));
    }
  }

  /** With every number below 2^64 it panics exactly when some string would end at 2^64 or past it. */
  lemma BlockPanicsIff(block: Str, huffman: Str -> Str)
    requires |block| < U64 && NumbersFit(Numbers(block, huffman))
    ensures ReadBlock(true, block, |block|, huffman).Panic? <==>
            exists k :: 0 <= k < |Numbers(block, huffman)| && Numbers(block, huffman)[k].Length? && Numbers(block, huffman)[k].end >= U64
  {
    hide ReadBlock, Differ, Numbers;
    assert Numbers(block, huffman) == ReadBlock(false, block, |block|, huffman).value.1 by { NumbersAre(block, huffman); }
    BlockFollows(block, |block|, huffman);
  }

  lemma NumbersAre(block: Str, huffman: Str -> Str)
    ensures var r := ReadBlock(false, block, |block|, huffman); r.Done? && Numbers(block, huffman) == r.value.1
  {
    hide ReadBlock;
    BlockRefers(block, |block|, huffman);
  }

  /** A field with a new name of `n` bytes of which none follow. */
  function Bare(n: nat): Str {
    Powers();
    [0] + IntBytes(7, 0, n)
  }

  /** A name too long is skipped; but when it would end at 2^64 or past it the check wraps and the slice panics. */
  lemma BarePanicsIff(n: nat, huffman: Str -> Str)
    requires n < U64 && |Bare(n)| < U64
    ensures ReadBlock(true, Bare(n), |Bare(n)|, huffman) ==
            if n + |Bare(n)| >= U64 then Panic else Done(([Header([], [])], [Index(0), Length(n, |Bare(n)| + n)]))
  {
    Powers();
    var b := Bare(n);
    assert |b| > 1 && b[0] == 0 && b[1] < 128 && b[1..] == IntBytes(7, 0, n) == IntBytes(7, 0, n) + [];
    IntRoundTrip(7, 0, n, []);
    hide IntBytes, TakeInt, ReadBlock;
    BareReads(b, n, huffman);
  }

  lemma BareString(t: Str, n: nat, size: nat, huffman: Str -> Str)
    requires t != [] && t[0] < 128 && TakeInt(t, 7) == (n, []) && n < U64 && |t| < size < U64
    ensures ReadString(true, t, size, huffman) ==
            if n + size >= U64 then Panic else Done(Read([], [], [Length(n, size + n)]))
  {
    hide TakeInt, MachineInt;
    IntParts(t, 7);
  }

  lemma BareLiteral(b: Str, n: nat, huffman: Str -> Str)
    requires |b| > 1 && b[0] == 0 && b[1] < 128 && TakeInt(b[1..], 7) == (n, []) && n < U64 && |b| < U64
    ensures ReadLiteral(true, b, 4, |b|, huffman) ==
            if n + |b| >= U64 then Panic else Done(Read(Header([], []), [], [Index(0), Length(n, |b| + n)]))
  {
    hide TakeInt, Row, ReadString;
    var t := b[1..];
    assert MachineInt(b, 4) == (0, t) by { Powers(); }
    hide MachineInt;
    BareString(t, n, |b|, huffman);
    NoString(|b|, huffman);
    assert ReadName(true, 0, t, |b|, huffman) == ReadString(true, t, |b|, huffman);
    assert [Index(0)] + [Length(n, |b| + n)] + [] == [Index(0), Length(n, |b| + n)];
  }

  lemma NoString(size: nat, huffman: Str -> Str)
    ensures ReadString(true, [], size, huffman) == Done(Read([], [], []))
  {
  }

  lemma BareField(b: Str, n: nat, huffman: Str -> Str)
    requires |b| > 1 && b[0] == 0 && b[1] < 128 && TakeInt(b[1..], 7) == (n, []) && n < U64 && |b| < U64
    ensures ReadField(true, b, |b|, huffman) ==
            if n + |b| >= U64 then Panic else Done(Read(Some(Header([], [])), [], [Index(0), Length(n, |b| + n)]))
  {
    hide TakeInt, MachineInt, Row, ReadLiteral;
    BareLiteral(b, n, huffman);
  }

  lemma BareReads(b: Str, n: nat, huffman: Str -> Str)
    requires |b| > 1 && b[0] == 0 && b[1] < 128 && TakeInt(b[1..], 7) == (n, []) && n < U64 && |b| < U64
    ensures ReadBlock(true, b, |b|, huffman) ==
            if n + |b| >= U64 then Panic else Done(([Header([], [])], [Index(0), Length(n, |b| + n)]))
  {
    hide TakeInt, ReadField;
    BareField(b, n, huffman);
    assert ReadBlock(true, [], |b|, huffman) == Done(([], []));
    assert [Header([], [])] + [] == [Header([], [])];
    assert [Index(0), Length(n, |b| + n)] + [] == [Index(0), Length(n, |b| + n)];
  }

  lemma LongestLength()
    ensures |Bare(U64 - 1)| == 12
  {
    Powers();
    assert |Tail(255)| == 2;
    assert |Tail(4194303)| == 2 + |Tail(255)|;
    assert |Tail(68719476735)| == 2 + |Tail(4194303)|;
    assert |Tail(1125899906842623)| == 2 + |Tail(68719476735)|;
    assert |Tail(18446744073709551488)| == 2 + |Tail(1125899906842623)|;
  }

  /** Twelve bytes that do so. */
  lemma LongestName(huffman: Str -> Str)
    ensures |Bare(U64 - 1)| == 12 && ReadBlock(true, Bare(U64 - 1), 12, huffman) == Panic
  {
    hide ReadBlock;
    LongestLength();
    BarePanicsIff(U64 - 1, huffman);
  }

  // ---------------------------------------------------------------- what is kept of a block

  /** All that is taken out of a header block. */
  datatype Seen = Seen(status: nat, location: Option<Str>)

  const NOTHING: Seen := Seen(0, None)

  predicate AllDigits(s: Str) { forall k :: 0 <= k < |s| ==> 48 <= s[k] <= 57 }

  function Decimal(s: Str): nat
    requires AllDigits(s)
  {
    if s == [] then 0 else 10 * Decimal(s[..|s| - 1]) + (s[|s| - 1] - 48)
  }

  /** A 16-bit number in decimal, with a plus sign or without; zero for anything else. */
  function ParseStatus(v: Str): nat {
    var d := if v != [] && v[0] == 43 then v[1..] else v;
    if d != [] && AllDigits(d) && Decimal(d) < 65536 then Decimal(d) else 0
  }

  function See(seen: Seen, h: Header, utf8: Str -> bool): Seen {
    if h.name == Ascii(":status") then seen.(status := ParseStatus(h.value))
    else if h.name == Ascii("location") && utf8(h.value) then seen.(location := Some(h.value))
    else seen
  }

  function Summary(hs: seq<Header>, utf8: Str -> bool): Seen {
    if hs == [] then NOTHING else See(Summary(hs[..|hs| - 1], utf8), hs[|hs| - 1], utf8)
  }

  /** The last status counts; a block without one, such as trailers, has status zero. */
  lemma {:induction false} StatusIs(hs: seq<Header>, utf8: Str -> bool)
    ensures (forall k :: 0 <= k < |hs| ==> hs[k].name != Ascii(":status")) ==> Summary(hs, utf8).status == 0
    ensures forall k :: 0 <= k < |hs| && hs[k].name == Ascii(":status")
                        && (forall j :: k < j < |hs| ==> hs[j].name != Ascii(":status"))
                        ==> Summary(hs, utf8).status == ParseStatus(hs[k].value)
    decreases |hs|
  {
    hide Ascii, ParseStatus;
    if hs != [] {
      var front := hs[..|hs| - 1];
      StatusIs(front, utf8);
      assert forall k :: 0 <= k < |front| ==> front[k] == hs[k];
    }
  }

  /** Without a readable location there is none. */
  lemma {:induction false} NoLocation(hs: seq<Header>, utf8: Str -> bool)
    requires forall k :: 0 <= k < |hs| ==> !Locates(hs[k], utf8)
    ensures Summary(hs, utf8).location == None
    decreases |hs|
  {
    hide See, Locates;
    if hs != [] {
      var front, h := hs[..|hs| - 1], hs[|hs| - 1];
      NoLocation(front, utf8);
      SeeLocates(Summary(front, utf8), h, utf8);
    }
  }

  /** The last readable location counts. */
  lemma {:induction false} LocationIs(hs: seq<Header>, k: nat, utf8: Str -> bool)
    requires k < |hs| && Locates(hs[k], utf8) && forall j :: k < j < |hs| ==> !Locates(hs[j], utf8)
    ensures Summary(hs, utf8).location == Some(hs[k].value)
    decreases |hs|
  {
    hide See, Locates;
    var front, h := hs[..|hs| - 1], hs[|hs| - 1];
    SeeLocates(Summary(front, utf8), h, utf8);
    if k < |front| { LocationIs(front, k, utf8); }
  }

  predicate Locates(h: Header, utf8: Str -> bool) { h.name == Ascii("location") && utf8(h.value) }

  lemma SeeLocates(seen: Seen, h: Header, utf8: Str -> bool)
    ensures See(seen, h, utf8).location == if Locates(h, utf8) then Some(h.value) else seen.location
  {
    assert Ascii(":status")[0] != Ascii("location")[0];
    hide Ascii, ParseStatus;
  }

  /** A number as it is written in decimal. */
  function Digits(n: nat): Str { if n < 10 then [48 + n] else Digits(n / 10) + [48 + n % 10] }

  lemma {:induction false} DigitsRead(n: nat)
    ensures AllDigits(Digits(n)) && Digits(n) != [] && Decimal(Digits(n)) == n
    decreases n
  {
    if n < 10 {
      assert Decimal([]) == 0 && [48 + n][..0] == [];
    } else {
      DigitsRead(n / 10);
      assert Digits(n)[..|Digits(n)| - 1] == Digits(n / 10);
    }
  }

  /** A status is the number it spells, with a plus sign or without, and zero from 65536 on. */
  lemma StatusReads(n: nat)
    ensures ParseStatus(Digits(n)) == ParseStatus([43] + Digits(n)) == if n < 0x1_0000 then n else 0
  {
    DigitsRead(n);
    assert Digits(n)[0] != 43;
    assert ([43] + Digits(n))[1..] == Digits(n);
  }

  /** Anything but digits behind an optional plus sign is no status. */
  lemma NoStatus(v: Str)
    requires v == [] || v == [43] || (exists k :: 1 <= k < |v| && !('0' as int <= v[k] <= '9' as int))
             || !('0' as int <= v[0] <= '9' as int || v[0] == '+' as int)
    ensures ParseStatus(v) == 0
  {
    if v != [] && v != [43] {
      var d := if v[0] == 43 then v[1..] else v;
      if k :| 1 <= k < |v| && !('0' as int <= v[k] <= '9' as int) {
        assert v[k] == d[if v[0] == 43 then k - 1 else k];
      } else {
        assert d[0] == v[0];
      }
    }
  }

  function Summarised(r: Outcome<(seq<Header>, seq<Number>)>, utf8: Str -> bool): Outcome<Seen> {
    if r.Panic? then Panic else Done(Summary(r.value.0, utf8))
  }

  /** `decode_headers_block` on a whole block. */
  function Decoded(block: Str, huffman: Str -> Str, utf8: Str -> bool): Outcome<Seen> {
    Summarised(ReadBlock(true, block, |block|, huffman), utf8)
  }

  lemma LiteralFits(s: Str, rest: Str, size: nat, huffman: Str -> Str)
    requires |Literal(s) + rest| <= size < U64
    ensures var r := ReadString(false, Literal(s) + rest, size, huffman);
            r.Done? && r.value.rest == rest && AllFit(r.value.log)
  {
    hide TakeInt;
    Powers();
    assert Literal(s) + rest == IntBytes(7, 0, |s|) + (s + rest);
    IntRoundTrip(7, 0, |s|, s + rest);
    assert (s + rest)[|s|..] == rest;
    OneFits(Length(|s|, size - |rest|));
  }

  /** A field that was sent holds no number too large for the code. */
  lemma FieldFits(h: Header, rest: Str, size: nat, huffman: Str -> Str)
    requires FieldBytes(h) != [] && |FieldBytes(h) + rest| <= size < U64
    ensures var r := ReadField(false, FieldBytes(h) + rest, size, huffman); r.Done? && AllFit(r.value.log)
  {
    hide Row, Literal, TakeInt, ReadString, AllFit;
    Powers();
    var s := FieldBytes(h) + rest;
    if Find(h, 1) <= STATIC {
      IndexFits(s);
    } else if FindName(h.name, 1) <= STATIC {
      var i := FindName(h.name, 1);
      assert s == IntBytes(4, 0, i) + (Literal(h.value) + rest);
      IntRoundTrip(4, 0, i, Literal(h.value) + rest);
      LiteralFits(h.value, rest, size, huffman);
      OneFits(Index(i));
      AllFitConcat([Index(i)], []);
      AllFitConcat([Index(i)] + [], ReadString(false, Literal(h.value) + rest, size, huffman).value.log);
      NoneFit();
      assert s[0] < 32;
    } else {
      var t := Literal(h.name) + (Literal(h.value) + rest);
      assert s[0] == 0 && s[1..] == t;
      assert TakeInt(s, 4) == (0, t) by { ZeroIndex(s); }
      LiteralFits(h.name, Literal(h.value) + rest, size, huffman);
      LiteralFits(h.value, rest, size, huffman);
      OneFits(Index(0));
      AllFitConcat([Index(0)], ReadString(false, t, size, huffman).value.log);
      AllFitConcat([Index(0)] + ReadString(false, t, size, huffman).value.log,
                   ReadString(false, Literal(h.value) + rest, size, huffman).value.log);
    }
  }

  lemma ZeroIndex(s: Str)
    requires s != [] && s[0] == 0
    ensures TakeInt(s, 4) == (0, s[1..])
  {
    Powers();
  }

  lemma IndexFits(s: Str)
    requires s != [] && 128 <= s[0] < 255
    ensures TakeInt(s, 7).0 < U64 && AllFit([Index(TakeInt(s, 7).0)])
  {
    Powers();
  }

  lemma {:induction false} SentFits(hs: seq<Header>, size: nat, huffman: Str -> Str)
    requires |BlockBytes(hs)| <= size < U64
    ensures var r := ReadBlock(false, BlockBytes(hs), size, huffman); r.Done? && AllFit(r.value.1)
    decreases |hs|
  {
    hide ReadField, FieldBytes, TakeField, AllFit;
    if hs == [] {
      NoneFit();
    } else {
      var rest := BlockBytes(hs[1..]);
      FieldRoundTrip(hs[0], rest, huffman);
      FieldFits(hs[0], rest, size, huffman);
      FieldRefers(FieldBytes(hs[0]) + rest, size, huffman);
      SentFits(hs[1..], size, huffman);
      AllFitConcat(ReadField(false, BlockBytes(hs), size, huffman).value.log, ReadBlock(false, rest, size, huffman).value.1);
    }
  }

  /** Every list of fields sent comes through the code as what it says. */
  lemma SummaryRoundTrip(hs: seq<Header>, huffman: Str -> Str, utf8: Str -> bool)
    requires |BlockBytes(hs)| < U64
    ensures Decoded(BlockBytes(hs), huffman, utf8) == Done(Summary(hs, utf8))
  {
    hide ReadBlock, TakeBlock, AllFit, Summary, Numbers;
    SentFits(hs, |BlockBytes(hs)|, huffman);
    NumbersAre(BlockBytes(hs), huffman);
    BlockExactIff(BlockBytes(hs), huffman);
    BlockRoundTrip(hs, huffman);
  }

  // ---------------------------------------------------------------- the loops

  method DecodeTail(data: Str, pos: nat, start: nat) returns (value: nat, next: nat)
    requires pos <= |data| && start < U64
    ensures pos <= next <= |data| && (value, data[next..]) == MachineTail(data[pos..], start, 0)
  {
    hide Added;
    value, next := start, pos;
    var shift := 0;
    while next < |data|
      invariant pos <= next <= |data| && value < U64
      invariant MachineTail(data[next..], value, shift) == MachineTail(data[pos..], start, 0)
    {
      var b := data[next];
      assert data[next..][1..] == data[next + 1..];
      next := next + 1;
      value, shift := Added(value, b % 128, shift), shift + 7;
      if b < 128 { return; }
    }
  }

  method DecodeInt(data: Str, pos: nat, bits: nat) returns (value: nat, next: nat)
    requires pos <= |data|
    ensures pos <= next <= |data| && (value, data[next..]) == MachineInt(data[pos..], bits)
    ensures pos < |data| ==> pos < next
  {
    hide MachineTail, TwoTo;
    if pos >= |data| { return 0, pos; }
    assert data[pos..][1..] == data[pos + 1..];
    value := Low(data[pos], TwoTo(bits));
    next := pos + 1;
    if value < TwoTo(bits) - 1 { return; }
    value, next := DecodeTail(data, next, value);
  }

  /** What reading at `pos` gave and where it left off. */
  ghost predicate Matches<T>(data: Str, o: Outcome<T>, next: nat, r: Outcome<Read<T>>) {
    if r.Panic? then o.Panic? else next <= |data| && o == Done(r.value.value) && data[next..] == r.value.rest
  }

  method DecodeString(data: Str, pos: nat, huffman: Str -> Str) returns (o: Outcome<Str>, next: nat)
    requires pos <= |data|
    ensures Matches(data, o, next, ReadString(true, data[pos..], |data|, huffman)) && (o.Done? ==> pos <= next)
  {
    hide MachineInt;
    if pos >= |data| { return Done([]), pos; }
    var packed := data[pos] >= 128;
    var n, p := DecodeInt(data, pos, 7);
    var end := (p + n) % 0x1_0000_0000_0000_0000;
    if end > |data| { return Done([]), p; }
    if end < p { return Panic, p; }
    assert data[p..][..end - p] == data[p..end] && data[p..][end - p..] == data[end..];
    return Done(if packed then huffman(data[p..end]) else data[p..end]), end;
  }

  method DecodeLiteralField(data: Str, pos: nat, bits: nat, huffman: Str -> Str) returns (o: Outcome<Header>, next: nat)
    requires pos < |data|
    ensures Matches(data, o, next, ReadLiteral(true, data[pos..], bits, |data|, huffman)) && (o.Done? ==> pos < next)
  {
    hide MachineInt, ReadString, Row;
    var i, p := DecodeInt(data, pos, bits);
    var name, value;
    if 0 < i <= STATIC { name := Done(Row(i).name); } else { name, p := DecodeString(data, p, huffman); }
    if name.Panic? { return Panic, p; }
    value, p := DecodeString(data, p, huffman);
    if value.Panic? { return Panic, p; }
    return Done(Header(name.value, value.value)), p;
  }

  method DecodeField(data: Str, pos: nat, huffman: Str -> Str) returns (o: Outcome<Option<Header>>, next: nat)
    requires pos < |data|
    ensures Matches(data, o, next, ReadField(true, data[pos..], |data|, huffman)) && (o.Done? ==> pos < next)
  {
    hide MachineInt, ReadLiteral, Row;
    var b := data[pos];
    var i, f;
    if b >= 128 {
      i, next := DecodeInt(data, pos, 7);
      return Done(if 0 < i <= STATIC then Some(Row(i)) else None), next;
    } else if b >= 64 {
      f, next := DecodeLiteralField(data, pos, 6, huffman);
    } else if b >= 32 {
      i, next := DecodeInt(data, pos, 5);
      return Done(None), next;
    } else {
      f, next := DecodeLiteralField(data, pos, 4, huffman);
    }
    o := if f.Panic? then Panic else Done(Some(f.value));
  }

  /** What is left to read, behind headers and numbers read before. */
  function Behind(hs: seq<Header>, log: seq<Number>, b: Outcome<(seq<Header>, seq<Number>)>): Outcome<(seq<Header>, seq<Number>)> {
    if b.Panic? then Panic else Done((hs + b.value.0, log + b.value.1))
  }

  lemma BlockStep(hs: seq<Header>, log: seq<Number>, s: Str, size: nat, huffman: Str -> Str)
    requires s != [] && |s| <= size
    ensures var f := ReadField(true, s, size, huffman);
            Behind(hs, log, ReadBlock(true, s, size, huffman)) ==
            if f.Panic? then Panic
            else Behind(if f.value.value.Some? then hs + [f.value.value.value] else hs, log + f.value.log,
                        ReadBlock(true, f.value.rest, size, huffman))
  {
    hide ReadField;
    var f := ReadField(true, s, size, huffman);
    if f.Done? {
      var b := ReadBlock(true, f.value.rest, size, huffman);
      if b.Done? {
        assert log + (f.value.log + b.value.1) == log + f.value.log + b.value.1;
        if f.value.value.Some? {
          assert hs + ([f.value.value.value] + b.value.0) == hs + [f.value.value.value] + b.value.0;
        } else {
          assert [] + b.value.0 == b.value.0;
        }
      }
    }
  }

  /** `decode_headers_block`. */
  method DecodeBlock(block: Str, huffman: Str -> Str, utf8: Str -> bool) returns (r: Outcome<Seen>)
    ensures r == Decoded(block, huffman, utf8)
  {
    hide ReadField, ReadBlock, See;
    var seen := NOTHING;
    ghost var hs: seq<Header>, log: seq<Number> := [], [];
    var pos := 0;
    assert block[0..] == block;
    NothingBehind(ReadBlock(true, block, |block|, huffman));
    while pos < |block|
      invariant pos <= |block| && seen == Summary(hs, utf8)
      invariant Behind(hs, log, ReadBlock(true, block[pos..], |block|, huffman)) == ReadBlock(true, block, |block|, huffman)
      decreases |block| - pos
    {
      BlockStep(hs, log, block[pos..], |block|, huffman);
      ghost var f := ReadField(true, block[pos..], |block|, huffman);
      var h, next := DecodeField(block, pos, huffman);
      if h.Panic? { return Panic; }
      if h.value.Some? {
        assert (hs + [h.value.value])[..|hs|] == hs;
        hs := hs + [h.value.value];
        seen := See(seen, h.value.value, utf8);
      }
      log := log + f.value.log;
      pos := next;
    }
    assert block[pos..] == [];
    EmptyBlock(hs, log, |block|, huffman);
    return Done(seen);
  }

  lemma NothingBehind(b: Outcome<(seq<Header>, seq<Number>)>)
    ensures Behind([], [], b) == b
  {
    if b.Done? { assert [] + b.value.0 == b.value.0 && [] + b.value.1 == b.value.1; }
  }

  lemma EmptyBlock(hs: seq<Header>, log: seq<Number>, size: nat, huffman: Str -> Str)
    ensures Behind(hs, log, ReadBlock(true, [], size, huffman)) == Done((hs, log))
  {
    assert hs + [] == hs && log + [] == log;
  }
}
