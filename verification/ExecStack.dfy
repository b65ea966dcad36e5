/**
 The stack a new program starts on: strings pushed from the top of the eager
 region down, then the auxiliary, environment and argument vectors and the
 argument count, as section 3.4.1 of the System V AMD64 psABI lays them out.
 */
module ExecStack {
  import opened Common
  import opened Bytes

  type Str = seq<byte>

  const EAGER: nat := 262144
  const ARG_MAX_STRING_BYTES: nat := 131072
  const ARG_MAX_VECTOR_ENTRIES: nat := 8192

  // ---------------------------------------------------------------- words and strings in memory

  function CStr(s: Str): seq<byte> { s + [0] }

  /** The words of a vector, lowest address first. */
  function Words(ws: seq<nat>): seq<byte> { if ws == [] then [] else Le(ws[0], 8) + Words(ws[1..]) }

  function WordAt(m: seq<byte>, j: nat): nat
    requires 8 * j + 8 <= |m|
  {
    Num(m[8 * j..8 * j + 8])
  }

  lemma {:induction false} WordsRead(ws: seq<nat>, rest: seq<byte>, j: nat)
    requires j < |ws| && forall k :: 0 <= k < |ws| ==> ws[k] < U64
    ensures |Words(ws)| == 8 * |ws| && WordAt(Words(ws) + rest, j) == ws[j]
    decreases |ws|
  {
    var w := Le(ws[0], 8);
    Pow256Eight();
    LeRoundTrip(ws[0], 8);
    WordsLength(ws[1..]);
    var m := Words(ws) + rest;
    if j == 0 {
      assert m[0..8] == w;
    } else {
      WordsRead(ws[1..], rest, j - 1);
      assert m == w + (Words(ws[1..]) + rest);
      assert m[8 * j..8 * j + 8] == (Words(ws[1..]) + rest)[8 * (j - 1)..8 * (j - 1) + 8];
    }
  }

  lemma {:induction false} WordsLength(ws: seq<nat>)
    ensures |Words(ws)| == 8 * |ws|
    decreases |ws|
  {
    if ws != [] {
      LeLength(ws[0], 8);
      WordsLength(ws[1..]);
    }
  }

  /** The bytes `s` lie at address `a` of a memory image that ends at `top`. */
  ghost predicate HoldsAt(m: seq<byte>, top: nat, a: nat, s: seq<byte>) {
    && top - |m| <= a && a + |s| <= top
    && (var i := |m| - (top - a); m[i..i + |s|] == s)
  }

  lemma HoldsBelow(x: seq<byte>, m: seq<byte>, top: nat, a: nat, s: seq<byte>)
    requires HoldsAt(m, top, a, s)
    ensures HoldsAt(x + m, top, a, s)
  {
    var i := |m| - (top - a);
    assert (x + m)[|x| + i..|x| + i + |s|] == m[i..i + |s|];
  }

  lemma HoldsFirst(m: seq<byte>, top: nat, s: seq<byte>)
    requires |s| + |m| <= top
    ensures HoldsAt(s + m, top, top - |s| - |m|, s)
  {
    assert (s + m)[0..|s|] == s;
  }

  // ---------------------------------------------------------------- pushing

  class Stack {
    const base: nat
    const mem: array<byte>
    var sp: nat
    var overflow: bool

    function Top(): nat { base + EAGER }

    /** The pointer may stand one word below the region, between a padding step and the push that notices. */
    ghost predicate Valid()
      reads this
    {
      mem.Length == EAGER && base % 16 == 0 && base >= 16 && base - 8 <= sp <= Top() && Top() < U64
    }

    /** What has been pushed, lowest address first. */
    ghost function View(): seq<byte>
      requires Valid()
      reads this, mem
    {
      if sp < base then [] else mem[sp - base..]
    }

    lemma ViewLength()
      requires Valid()
      ensures sp >= base ==> |View()| == Top() - sp
    {
    }

    method PushBytes(bs: seq<byte>) returns (a: nat)
      requires Valid()
      modifies this, mem
      ensures Valid() && overflow == (old(overflow) || old(sp) < base + |bs|)
      ensures !overflow ==> a == sp == old(sp) - |bs| && View() == bs + old(View())
      ensures overflow ==> sp == old(sp)
      ensures sp >= base ==> |View()| == Top() - sp
    {
      if overflow {
        return sp;
      }
      if sp < base + |bs| {
        overflow := true;
        return sp;
      }
      sp := sp - |bs|;
      CopyIn(sp - base, bs);
      return sp;
    }

    method CopyIn(off: nat, bs: seq<byte>)
      requires off + |bs| <= mem.Length
      modifies mem
      ensures mem[off..] == bs + old(mem[off + |bs|..])
    {
      ghost var before := mem[..];
      for k := 0 to |bs|
        invariant mem[..] == before[..off] + bs[..k] + before[off + k..]
      {
        mem[off + k] := bs[k];
      }
      assert mem[off..] == mem[..][off..];
    }

    /** C strings, each below the one before. */
    method PushStrings(xs: seq<Str>) returns (addrs: seq<nat>)
      requires Valid() && sp >= base
      modifies this, mem
      ensures Valid() && sp >= base && overflow == (old(overflow) || old(sp) < base + Sum(xs))
      ensures !overflow ==> sp == old(sp) - Sum(xs) && Extends(View(), old(View()))
      ensures |addrs| == |xs| && (!overflow ==> AllHeld(View(), Top(), addrs, xs))
    {
      hide HoldsAt, Extends, AllHeld, Sum, Stack.View;
      ViewLength();
      addrs := [];
      assert xs[..0] == [];
      NothingPushed(View(), Top());
      for k := 0 to |xs|
        invariant Valid() && sp >= base && |addrs| == k && |View()| == Top() - sp
        invariant overflow == (old(overflow) || old(sp) < base + Sum(xs[..k]))
        invariant !overflow ==> sp == old(sp) - Sum(xs[..k]) && Extends(View(), old(View()))
        invariant !overflow ==> AllHeld(View(), Top(), addrs, xs[..k])
      {
        SumSnoc(xs, k);
        assert xs[..k + 1] == xs[..k] + [xs[k]];
        ghost var m := View();
        var a := PushBytes(CStr(xs[k]));
        if !overflow {
          ExtendsMore(CStr(xs[k]), m, old(View()));
          HeldSnoc(m, Top(), addrs, xs[..k], xs[k], a);
        }
        addrs := addrs + [a];
      }
      assert xs[..|xs|] == xs;
    }

    /** A vector of words, pushed from its end. */
    method PushWords(ws: seq<nat>)
      requires Valid()
      modifies this, mem
      ensures Valid() && (ws != [] ==> overflow == (old(overflow) || old(sp) < base + 8 * |ws|))
      ensures ws == [] ==> overflow == old(overflow)
      ensures !overflow ==> sp == old(sp) - 8 * |ws| && View() == Words(ws) + old(View())
    {
      hide Stack.View, Words, Le;
      var k := |ws|;
      assert ws[k..] == [];
      NoWords();
      while k > 0
        invariant 0 <= k <= |ws| && Valid()
        invariant k == |ws| ==> overflow == old(overflow)
        invariant k < |ws| ==> overflow == (old(overflow) || old(sp) < base + 8 * (|ws| - k))
        invariant !overflow ==> sp == old(sp) - 8 * (|ws| - k) && View() == Words(ws[k..]) + old(View())
      {
        k := k - 1;
        LeLength(ws[k], 8);
        ghost var m := View();
        var a := PushBytes(Le(ws[k], 8));
        WordsCons(ws, k, old(View()));
      }
      assert ws[0..] == ws;
    }

    /** Rounding the pointer down leaves what was pushed where it was. */
    method AlignDown()
      requires Valid() && sp >= base
      modifies this`sp
      ensures Valid() && sp >= base && sp == old(sp) - old(sp) % 16 && Extends(View(), old(View())) && |View()| == Top() - sp
    {
      sp := sp - sp % 16;
    }

    /** One word of padding, not checked here: the next push notices. */
    method Pad()
      requires Valid() && sp >= base
      modifies this`sp
      ensures Valid() && sp == old(sp) - 8 && (sp >= base ==> Extends(View(), old(View())) && |View()| == Top() - sp)
    {
      sp := sp - 8;
    }

    /** The strings: random bytes, program name, platform, arguments, environment. */
    method PushData(random: seq<byte>, path: Str, argv: seq<Str>, envs: seq<Str>)
      returns (randomVa: nat, execfnVa: nat, platformVa: nat, argvVa: seq<nat>, envpVa: seq<nat>)
      requires Valid() && sp == Top() && !overflow && |random| == 16
      modifies this, mem
      ensures Valid() && sp >= base && overflow == (EAGER < DataSize(path, argv, envs))
      ensures !overflow ==> sp == Top() - DataSize(path, argv, envs) && |View()| == Top() - sp
      ensures |argvVa| == |argv| && (!overflow ==> AllHeld(View(), Top(), argvVa, argv))
      ensures |envpVa| == |envs| && (!overflow ==> AllHeld(View(), Top(), envpVa, envs))
      ensures !overflow ==> HoldsAt(View(), Top(), randomVa, random) && HoldsAt(View(), Top(), execfnVa, CStr(path))
      ensures !overflow ==> HoldsAt(View(), Top(), platformVa, CStr(PLATFORM))
    {
      hide HoldsAt, Extends, AllHeld, Sum, Stack.View;
      randomVa, execfnVa, platformVa := PushFixed(random, path);
      ghost var m3 := View();
      argvVa := PushStrings(argv);
      ghost var m4 := View();
      envpVa := PushStrings(envs);
      ViewLength();
      if !overflow {
        HeldFurther(m3, m4, View(), Top(), randomVa, random);
        HeldFurther(m3, m4, View(), Top(), execfnVa, CStr(path));
        HeldFurther(m3, m4, View(), Top(), platformVa, CStr(PLATFORM));
        AllHeldFurther(m4, View(), Top(), argvVa, argv);
      }
    }

    method PushFixed(random: seq<byte>, path: Str) returns (randomVa: nat, execfnVa: nat, platformVa: nat)
      requires Valid() && sp == Top() && !overflow && |random| == 16
      modifies this, mem
      ensures Valid() && sp >= base && overflow == (EAGER < 16 + (|path| + 1) + 7)
      ensures !overflow ==> sp == Top() - (16 + (|path| + 1) + 7)
      ensures !overflow ==> HoldsAt(View(), Top(), randomVa, random) && HoldsAt(View(), Top(), execfnVa, CStr(path))
      ensures !overflow ==> HoldsAt(View(), Top(), platformVa, CStr(PLATFORM))
    {
      hide HoldsAt, Extends, Stack.View, CStr;
      CStrLength(path);
      CStrLength(PLATFORM);
      randomVa := PushHeld(random);
      ghost var m1 := View();
      execfnVa := PushHeld(CStr(path));
      ghost var m2 := View();
      platformVa := PushHeld(CStr(PLATFORM));
      if !overflow {
        HeldFurther(m1, m2, View(), Top(), randomVa, random);
        HeldAbove(m2, View(), Top(), execfnVa, CStr(path));
      }
    }

    /** A push, and where its bytes are. */
    method PushHeld(bs: seq<byte>) returns (a: nat)
      requires Valid() && sp >= base
      modifies this, mem
      ensures Valid() && sp >= base && overflow == (old(overflow) || old(sp) < base + |bs|)
      ensures !overflow ==> sp == old(sp) - |bs| && HoldsAt(View(), Top(), a, bs) && Extends(View(), old(View()))
    {
      hide HoldsAt, Stack.View;
      ViewLength();
      ghost var m := View();
      a := PushBytes(bs);
      if !overflow {
        HoldsFirst(m, Top(), bs);
        assert (bs + m)[|bs|..] == m;
      }
    }

    /** The byte budget: strings of both vectors, the name, the platform and the random bytes. */
    method StringBytes(path: Str, args: seq<Str>, envs: seq<Str>) returns (n: nat)
      ensures n == |path| + 24 + Sum(args) + Sum(envs)
    {
      hide Sum;
      n := |path| + 1 + 7 + 16;
      assert args[..0] == [] && envs[..0] == [];
      NothingPushed([], 0);
      for i := 0 to |args|
        invariant n == |path| + 24 + Sum(args[..i])
      {
        SumSnoc(args, i);
        n := n + |args[i]| + 1;
      }
      assert args[..|args|] == args && envs[..|envs|] == envs;
      for i := 0 to |envs|
        invariant n == |path| + 24 + Sum(args) + Sum(envs[..i])
      {
        SumSnoc(envs, i);
        n := n + |envs[i]| + 1;
      }
    }

    /** `setup_stack`: accepted exactly when the budgets pass and everything fits the eager region. */
    method SetupStack(random: seq<byte>, path: Str, args: seq<Str>, envs: seq<Str>, h: Header)
      returns (r: Option<nat>, ghost at: Places)
      requires Valid() && sp == Top() && !overflow && |random| == 16
      modifies this, mem
      ensures Valid() && (r.Some? <==> Budget(path, args, envs) && Total(path, Argv(path, args), envs) <= EAGER)
      ensures r.Some? ==> r.value == sp == Top() - Total(path, Argv(path, args), envs) && r.value % 16 == 0
      ensures r.Some? ==> Laid(View(), Top(), random, path, Argv(path, args), envs, h, at)
    {
      hide HoldsAt, Extends, AllHeld, Sum, Stack.View, Words, DataSize, Aux, Laid;
      r, at := None, Places(0, 0, 0, [], []);
      if |args| + |envs| > ARG_MAX_VECTOR_ENTRIES {
        return;
      }
      var strBytes := StringBytes(path, args, envs);
      if strBytes > ARG_MAX_STRING_BYTES {
        return;
      }
      var argv := Argv(path, args);
      var randomVa, execfnVa, platformVa, argvVa, envpVa := PushData(random, path, argv, envs);
      at := Places(randomVa, execfnVa, platformVa, argvVa, envpVa);
      ghost var data := View();
      var w := Vector(|argv|, argvVa, envpVa, Aux(h, randomVa, platformVa, execfnVa));
      ghost var padded := PushVector(w);
      if !overflow {
        LaidIntro(data, padded, View(), Top(), random, path, argv, envs, h, at);
        r := Some(sp);
      }
    }

    /** Align, pad so that the final pointer is a multiple of 16, and push the words. */
    method PushVector(w: seq<nat>) returns (ghost padded: seq<byte>)
      requires Valid() && sp >= base && w != []
      modifies this, mem
      ensures Valid() && overflow == (old(overflow) || EAGER < RoundUp16(Top() - old(sp)) + 8 * (|w| % 2) + 8 * |w|)
      ensures !overflow ==> sp == Top() - (RoundUp16(Top() - old(sp)) + 8 * (|w| % 2) + 8 * |w|) && sp % 16 == 0
      ensures !overflow ==> View() == Words(w) + padded && Extends(padded, old(View()))
    {
      hide Extends, Stack.View, Words, RoundUp16;
      ghost var data := View();
      AlignMath(Top(), sp, |w|);
      AlignDown();
      ghost var aligned := View();
      ExtendsSelf(aligned);
      if |w| % 2 == 1 {
        Pad();
      }
      padded := View();
      if sp >= base { ExtendsTrans(padded, aligned, data); }
      PushWords(w);
    }
  }

  // ---------------------------------------------------------------- what is laid out

  datatype Header = Header(phdr: nat, phent: nat, phnum: nat, interp: nat, entry: nat, hwcap: nat)

  /** Addresses of what the vectors point to. */
  datatype Places = Places(random: nat, execfn: nat, platform: nat, argv: seq<nat>, envp: seq<nat>)

  /** The auxiliary vector, key and value. */
  function AuxList(h: Header, randomVa: nat, platformVa: nat, execfnVa: nat): (r: seq<(nat, nat)>)
    ensures |r| == 19
  {
    [(3, h.phdr), (4, h.phent), (5, h.phnum), (6, 4096), (7, h.interp), (8, 0), (9, h.entry), (11, 0), (12, 0), (13, 0),
     (14, 0), (23, 0), (25, randomVa), (16, h.hwcap), (26, 0), (17, 250), (15, platformVa), (31, execfnVa), (51, 2048)]
  }

  /** Word by word, ending in AT_NULL. */
  function Aux(h: Header, randomVa: nat, platformVa: nat, execfnVa: nat): (r: seq<nat>)
    ensures |r| == 40 && r[38] == 0 == r[39]
  {
    hide Flat, AuxList;
    FlatIs(AuxList(h, randomVa, platformVa, execfnVa));
    Flat(AuxList(h, randomVa, platformVa, execfnVa))
  }

  function Flat(pairs: seq<(nat, nat)>): seq<nat> {
    if pairs == [] then [0, 0] else [pairs[0].0, pairs[0].1] + Flat(pairs[1..])
  }

  lemma {:induction false} FlatIs(pairs: seq<(nat, nat)>)
    ensures |Flat(pairs)| == 2 * |pairs| + 2 && Flat(pairs)[2 * |pairs|..] == [0, 0]
    ensures (forall i :: 0 <= i < |pairs| ==> pairs[i].0 < U64 && pairs[i].1 < U64) ==> forall i :: 0 <= i < |Flat(pairs)| ==> Flat(pairs)[i] < U64
    ensures (forall i :: 0 <= i < |pairs| ==> pairs[i].0 != 0) ==> Pairs(Flat(pairs)) == pairs
    decreases |pairs|
  {
    if pairs != [] {
      FlatIs(pairs[1..]);
      assert Flat(pairs)[2..] == Flat(pairs[1..]);
      assert pairs == [pairs[0]] + pairs[1..];
    }
  }

  /** Argument count, argument and environment pointers with their terminators, auxiliary vector. */
  function Vector(argc: nat, argvVa: seq<nat>, envpVa: seq<nat>, aux: seq<nat>): seq<nat> {
    [argc] + argvVa + [0] + envpVa + [0] + aux
  }

  /** With no arguments the program name stands in for the first. */
  function Argv(path: Str, args: seq<Str>): seq<Str> { if args == [] then [path] else args }

  predicate Budget(path: Str, args: seq<Str>, envs: seq<Str>) {
    |args| + |envs| <= ARG_MAX_VECTOR_ENTRIES && |path| + 24 + Sum(args) + Sum(envs) <= ARG_MAX_STRING_BYTES
  }

  function RoundUp16(n: nat): nat { (n + 15) / 16 * 16 }

  function WordCount(argc: nat, envc: nat): nat { 40 + (envc + 1) + (argc + 1) + 1 }

  /** Everything, with alignment and padding. */
  function Total(path: Str, argv: seq<Str>, envs: seq<Str>): nat {
    RoundUp16(DataSize(path, argv, envs)) + 8 * (WordCount(|argv|, |envs|) % 2) + 8 * WordCount(|argv|, |envs|)
  }

  ghost predicate Laid(m: seq<byte>, top: nat, random: seq<byte>, path: Str, argv: seq<Str>, envs: seq<Str>, h: Header, at: Places) {
    && StartsWith(m, Words(Vector(|argv|, at.argv, at.envp, Aux(h, at.random, at.platform, at.execfn))))
    && AllHeld(m, top, at.argv, argv) && AllHeld(m, top, at.envp, envs)
    && HoldsAt(m, top, at.random, random) && HoldsAt(m, top, at.execfn, CStr(path)) && HoldsAt(m, top, at.platform, CStr(PLATFORM))
  }

  ghost predicate StartsWith(m: seq<byte>, first: seq<byte>) { |first| <= |m| && m[..|first|] == first }

  lemma AlignMath(top: nat, sp: nat, n: nat)
    requires top % 16 == 0 && sp <= top
    ensures sp - sp % 16 == top - RoundUp16(top - sp)
    ensures (top - (RoundUp16(top - sp) + 8 * (n % 2) + 8 * n)) % 16 == 0
  {
    var d := top - sp;
    assert RoundUp16(d) % 16 == 0;
    assert (8 * (n % 2) + 8 * n) % 16 == 0;
  }

  lemma ExtendsSelf(m: seq<byte>)
    ensures Extends(m, m)
  {
  }

  lemma ExtendsTrans(a: seq<byte>, b: seq<byte>, c: seq<byte>)
    requires Extends(a, b) && Extends(b, c)
    ensures Extends(a, c)
  {
    assert a[|a| - |c|..] == a[|a| - |b|..][|b| - |c|..];
  }

  lemma LaidIntro(data: seq<byte>, padded: seq<byte>, m: seq<byte>, top: nat,
                  random: seq<byte>, path: Str, argv: seq<Str>, envs: seq<Str>, h: Header, at: Places)
    requires Extends(padded, data)
    requires m == Words(Vector(|argv|, at.argv, at.envp, Aux(h, at.random, at.platform, at.execfn))) + padded
    requires AllHeld(data, top, at.argv, argv) && AllHeld(data, top, at.envp, envs)
    requires HoldsAt(data, top, at.random, random) && HoldsAt(data, top, at.execfn, CStr(path)) && HoldsAt(data, top, at.platform, CStr(PLATFORM))
    ensures Laid(m, top, random, path, argv, envs, h, at)
  {
    assert Extends(m, data) by {
      assert m[|m| - |data|..] == padded[|padded| - |data|..];
    }
    hide Extends, Words, Aux, HoldsAt, AllHeld;
    AllHeldFurther(data, m, top, at.argv, argv);
    AllHeldFurther(data, m, top, at.envp, envs);
    HeldAbove(data, m, top, at.random, random);
    HeldAbove(data, m, top, at.execfn, CStr(path));
    HeldAbove(data, m, top, at.platform, CStr(PLATFORM));
  }

  lemma CStrLength(s: Str)
    ensures |CStr(s)| == |s| + 1
  {
  }

  const PLATFORM: Str := [0x78, 0x38, 0x36, 0x5F, 0x36, 0x34]

  /** Bytes the strings take. */
  function DataSize(path: Str, argv: seq<Str>, envs: seq<Str>): nat { 16 + (|path| + 1) + 7 + Sum(argv) + Sum(envs) }

  lemma HeldAbove(m: seq<byte>, m': seq<byte>, top: nat, a: nat, s: seq<byte>)
    requires HoldsAt(m, top, a, s) && Extends(m', m)
    ensures HoldsAt(m', top, a, s)
  {
    var x := m'[..|m'| - |m|];
    assert m' == x + m;
    HoldsBelow(x, m, top, a, s);
  }

  lemma HeldFurther(m: seq<byte>, m': seq<byte>, m'': seq<byte>, top: nat, a: nat, s: seq<byte>)
    requires HoldsAt(m, top, a, s) && Extends(m', m) && Extends(m'', m')
    ensures HoldsAt(m'', top, a, s)
  {
    hide HoldsAt, Extends;
    HeldAbove(m, m', top, a, s);
    HeldAbove(m', m'', top, a, s);
  }

  lemma AllHeldFurther(m: seq<byte>, m': seq<byte>, top: nat, addrs: seq<nat>, xs: seq<Str>)
    requires AllHeld(m, top, addrs, xs) && Extends(m', m)
    ensures AllHeld(m', top, addrs, xs)
  {
    hide HoldsAt, Extends;
    forall k | 0 <= k < |xs| ensures HoldsAt(m', top, addrs[k], CStr(xs[k])) {
      HeldAbove(m, m', top, addrs[k], CStr(xs[k]));
    }
  }

  lemma NoWords()
    ensures Words([]) == []
  {
  }

  lemma WordsCons(ws: seq<nat>, k: nat, m: seq<byte>)
    requires k < |ws|
    ensures Le(ws[k], 8) + (Words(ws[k + 1..]) + m) == Words(ws[k..]) + m
  {
    assert ws[k..][1..] == ws[k + 1..];
  }

  // ---------------------------------------------------------------- sizes

  function Sum(xs: seq<Str>): nat { if xs == [] then 0 else Sum(xs[..|xs| - 1]) + |xs[|xs| - 1]| + 1 }

  lemma SumSnoc(xs: seq<Str>, k: nat)
    requires k < |xs|
    ensures Sum(xs[..k + 1]) == Sum(xs[..k]) + |xs[k]| + 1
  {
    assert xs[..k + 1][..k] == xs[..k];
  }

  ghost predicate Extends(m: seq<byte>, m0: seq<byte>) { |m0| <= |m| && m[|m| - |m0|..] == m0 }

  lemma ExtendsMore(x: seq<byte>, m: seq<byte>, m0: seq<byte>)
    requires Extends(m, m0)
    ensures Extends(x + m, m0)
  {
    assert (x + m)[|x| + |m| - |m0|..] == m[|m| - |m0|..];
  }

  ghost predicate AllHeld(m: seq<byte>, top: nat, addrs: seq<nat>, xs: seq<Str>) {
    |addrs| == |xs| && forall k :: 0 <= k < |xs| ==> HoldsAt(m, top, addrs[k], CStr(xs[k]))
  }

  lemma NothingPushed(m: seq<byte>, top: nat)
    ensures Extends(m, m) && AllHeld(m, top, [], []) && Sum([]) == 0
  {
  }

  lemma HeldSnoc(m: seq<byte>, top: nat, addrs: seq<nat>, xs: seq<Str>, x: Str, a: nat)
    requires AllHeld(m, top, addrs, xs) && |x| + 1 + |m| <= top && a == top - |m| - |x| - 1
    ensures AllHeld(CStr(x) + m, top, addrs + [a], xs + [x])
  {
    hide HoldsAt;
    HoldsFirst(m, top, CStr(x));
    forall k | 0 <= k < |xs| ensures HoldsAt(CStr(x) + m, top, addrs[k], CStr(xs[k])) {
      HoldsBelow(CStr(x), m, top, addrs[k], CStr(xs[k]));
    }
  }

  // ---------------------------------------------------------------- the budgets and the region

  /** With arguments given, the budgets alone guarantee that everything fits. */
  lemma BudgetSuffices(path: Str, args: seq<Str>, envs: seq<Str>)
    requires args != [] && Budget(path, args, envs)
    ensures Total(path, Argv(path, args), envs) <= EAGER
  {
    hide Sum;
  }

  /** Without arguments the name is pushed twice and counted once: within budget, and too big. */
  lemma EmptyArgsMayOverflow(path: Str)
    requires 131040 <= |path| <= 131048
    ensures Budget(path, [], []) && Total(path, Argv(path, []), []) > EAGER
  {
    assert Sum([path]) == |path| + 1 by { assert [path][..0] == []; }
  }

  // ---------------------------------------------------------------- reading it back

  function Word(m: seq<byte>, j: nat): nat { if 8 * j + 8 <= |m| then WordAt(m, j) else 0 }

  /** How many words from `j` on come before a zero. */
  function CountWords(m: seq<byte>, j: nat): nat
    decreases |m| - 8 * j
  {
    if Word(m, j) == 0 then 0 else 1 + CountWords(m, j + 1)
  }

  function ZeroTerminated(m: seq<byte>, i: nat): Str
    decreases |m| - i
  {
    if i >= |m| || m[i] == 0 then [] else [m[i]] + ZeroTerminated(m, i + 1)
  }

  /** The C string at an address. */
  function StringAt(m: seq<byte>, top: nat, a: nat): Str {
    if top - |m| <= a <= top then ZeroTerminated(m, |m| - (top - a)) else []
  }

  function AuxAt(m: seq<byte>, j: nat): seq<(nat, nat)>
    decreases |m| - 8 * j
  {
    if Word(m, j) == 0 then [] else [(Word(m, j), Word(m, j + 1))] + AuxAt(m, j + 2)
  }

  datatype Program = Program(argv: seq<Str>, envp: seq<Str>, aux: seq<(nat, nat)>)

  /** What start-up code reads off the stack. */
  function ParseStack(m: seq<byte>, top: nat): Program {
    var argc := Word(m, 0);
    var envc := CountWords(m, argc + 2);
    Program(seq(argc, (i: nat) => StringAt(m, top, Word(m, 1 + i))),
            seq(envc, (i: nat) => StringAt(m, top, Word(m, argc + 2 + i))),
            AuxAt(m, argc + envc + 3))
  }

  /** Keys and values up to AT_NULL. */
  function Pairs(aux: seq<nat>): seq<(nat, nat)> {
    if |aux| < 2 || aux[0] == 0 then [] else [(aux[0], aux[1])] + Pairs(aux[2..])
  }

  /** What of a string C can see. */
  function UpToNul(s: Str): Str { if s == [] || s[0] == 0 then [] else [s[0]] + UpToNul(s[1..]) }

  function Visible(xs: seq<Str>): seq<Str> { seq(|xs|, (i: nat) requires i < |xs| => UpToNul(xs[i])) }

  ghost predicate NoNul(xs: seq<Str>) { forall k :: 0 <= k < |xs| ==> 0 !in xs[k] }

  lemma {:induction false} UpToNulIff(s: Str)
    ensures UpToNul(s) == s <==> 0 !in s
    ensures |UpToNul(s)| <= |s|
  {
    if s != [] {
      UpToNulIff(s[1..]);
      assert s == [s[0]] + s[1..];
      assert s[0] != 0 ==> (UpToNul(s) == s <==> UpToNul(s[1..]) == s[1..]);
    }
  }

  /** Strings are seen whole exactly when none holds a zero byte. */
  lemma VisibleIff(xs: seq<Str>)
    ensures Visible(xs) == xs <==> NoNul(xs)
  {
    hide UpToNul;
    forall k: nat | k < |xs| ensures UpToNul(xs[k]) == xs[k] <==> 0 !in xs[k] {
      UpToNulIff(xs[k]);
    }
    if Visible(xs) == xs {
      forall k: nat | k < |xs| ensures 0 !in xs[k] {
        assert Visible(xs)[k] == xs[k];
      }
    }
  }

  ghost predicate Reads(m: seq<byte>, j: nat, ws: seq<nat>) { forall k {:trigger ws[k]} :: 0 <= k < |ws| ==> Word(m, j + k) == ws[k] }

  lemma {:induction false} StringRead(m: seq<byte>, i: nat, s: Str)
    requires i + |s| < |m| && m[i..i + |s| + 1] == s + [0]
    ensures ZeroTerminated(m, i) == UpToNul(s)
    decreases |s|
  {
    assert (s + [0])[0] == m[i];
    if s != [] {
      assert m[i + 1..i + |s| + 1] == m[i..i + |s| + 1][1..] == s[1..] + [0];
      StringRead(m, i + 1, s[1..]);
    }
  }

  lemma {:induction false} CountRead(m: seq<byte>, j: nat, n: nat)
    requires Word(m, j + n) == 0 && forall q: nat :: j <= q < j + n ==> Word(m, q) != 0
    ensures CountWords(m, j) == n
    decreases n
  {
    if n > 0 {
      assert Word(m, j) != 0;
      CountRead(m, j + 1, n - 1);
    }
  }

  lemma {:induction false} AuxRead(m: seq<byte>, j: nat, aux: seq<nat>)
    requires Reads(m, j, aux) && |aux| >= 2 && |aux| % 2 == 0 && aux[|aux| - 2] == 0
    ensures AuxAt(m, j) == Pairs(aux)
    decreases |aux|
  {
    assert Word(m, j + 0) == aux[0] && Word(m, j + 1) == aux[1];
    if aux[0] != 0 {
      forall k | 0 <= k < |aux| - 2 ensures Word(m, j + 2 + k) == aux[2..][k] {
        assert Word(m, j + (k + 2)) == aux[k + 2];
      }
      AuxRead(m, j + 2, aux[2..]);
    }
  }

  lemma VectorRead(m: seq<byte>, w: seq<nat>)
    requires StartsWith(m, Words(w)) && forall k :: 0 <= k < |w| ==> w[k] < U64
    ensures forall j: nat :: j < |w| ==> Word(m, j) == w[j]
  {
    hide Words, WordAt;
    WordsLength(w);
    var n := |Words(w)|;
    var rest := m[n..];
    assert m == m[..n] + rest;
    forall j: nat | j < |w| ensures Word(m, j) == w[j] {
      WordsRead(w, rest, j);
    }
  }

  lemma HeldString(m: seq<byte>, top: nat, a: nat, s: Str)
    requires HoldsAt(m, top, a, CStr(s))
    ensures StringAt(m, top, a) == UpToNul(s)
  {
    StringRead(m, |m| - (top - a), s);
  }

  /** Where each word of the vector is. */
  lemma VectorParts(argc: nat, argvVa: seq<nat>, envpVa: seq<nat>, aux: seq<nat>)
    requires argc == |argvVa|
    ensures var w, envc := Vector(argc, argvVa, envpVa, aux), |envpVa|;
            && |w| == argc + envc + 3 + |aux| && w[0] == argc && w[argc + 1] == 0 && w[argc + 2 + envc] == 0
            && (forall i :: 0 <= i < argc ==> w[1 + i] == argvVa[i])
            && (forall i :: 0 <= i < envc ==> w[argc + 2 + i] == envpVa[i])
            && (forall i :: 0 <= i < |aux| ==> w[argc + envc + 3 + i] == aux[i])
  {
  }

  ghost predicate SmallHeader(h: Header) { h.phdr < U64 && h.phent < U64 && h.phnum < U64 && h.interp < U64 && h.entry < U64 && h.hwcap < U64 }

  lemma AuxSmall(h: Header, at: Places)
    requires SmallHeader(h) && at.random < U64 && at.platform < U64 && at.execfn < U64
    ensures forall i :: 0 <= i < 40 ==> Aux(h, at.random, at.platform, at.execfn)[i] < U64
  {
    hide Flat;
    FlatIs(AuxList(h, at.random, at.platform, at.execfn));
  }

  lemma VectorSmall(argvVa: seq<nat>, envpVa: seq<nat>, aux: seq<nat>)
    requires |argvVa| < U64 && (forall i :: 0 <= i < |argvVa| ==> argvVa[i] < U64)
    requires (forall i :: 0 <= i < |envpVa| ==> envpVa[i] < U64) && (forall i :: 0 <= i < |aux| ==> aux[i] < U64)
    ensures forall k :: 0 <= k < |Vector(|argvVa|, argvVa, envpVa, aux)| ==> Vector(|argvVa|, argvVa, envpVa, aux)[k] < U64
  {
  }

  lemma HeldRange(m: seq<byte>, top: nat, addrs: seq<nat>, xs: seq<Str>)
    requires AllHeld(m, top, addrs, xs) && |m| < top < U64
    ensures |addrs| == |xs| && forall k :: 0 <= k < |addrs| ==> 0 < addrs[k] < U64
  {
  }

  lemma HeldStrings(m: seq<byte>, top: nat, addrs: seq<nat>, xs: seq<Str>, k: nat)
    requires AllHeld(m, top, addrs, xs) && k < |xs|
    ensures StringAt(m, top, addrs[k]) == UpToNul(xs[k])
  {
    hide HoldsAt, StringAt;
    HeldString(m, top, addrs[k], xs[k]);
  }

  /** Start-up code reads back the auxiliary vector and every argument and setting up to its first zero byte. */
  lemma ParseBack(m: seq<byte>, top: nat, random: seq<byte>, path: Str, argv: seq<Str>, envs: seq<Str>, h: Header, at: Places)
    requires Laid(m, top, random, path, argv, envs, h, at) && |m| < top < U64 && |argv| < U64 && SmallHeader(h)
    ensures ParseStack(m, top) == Program(Visible(argv), Visible(envs), Pairs(Aux(h, at.random, at.platform, at.execfn)))
    ensures ParseStack(m, top).argv == argv <==> NoNul(argv)
    ensures ParseStack(m, top).envp == envs <==> NoNul(envs)
  {
    hide Visible, UpToNul, Aux, Words, HoldsAt, Word, Pairs, StringAt, CountWords, AuxAt, Vector, AllHeld, Reads, NoNul, StartsWith;
    var aux := Aux(h, at.random, at.platform, at.execfn);
    var argc, envc := |argv|, |envs|;
    HeldPlaces(m, top, random, at.random);
    HeldPlaces(m, top, CStr(path), at.execfn);
    HeldPlaces(m, top, CStr(PLATFORM), at.platform);
    AuxSmall(h, at);
    HeldRange(m, top, at.argv, argv);
    HeldRange(m, top, at.envp, envs);
    VectorBack(m, at.argv, at.envp, aux);
    ArgvBack(m, top, argv, at.argv, 1);
    CountRead(m, argc + 2, envc);
    ArgvBack(m, top, envs, at.envp, argc + 2);
    AuxRead(m, argc + envc + 3, aux);
    VisibleIff(argv);
    VisibleIff(envs);
  }

  lemma HeldPlaces(m: seq<byte>, top: nat, s: seq<byte>, a: nat)
    requires HoldsAt(m, top, a, s) && top < U64
    ensures a < U64
  {
  }

  lemma VectorBack(m: seq<byte>, argvVa: seq<nat>, envpVa: seq<nat>, aux: seq<nat>)
    requires StartsWith(m, Words(Vector(|argvVa|, argvVa, envpVa, aux))) && |argvVa| < U64
    requires forall i :: 0 <= i < |argvVa| ==> argvVa[i] < U64
    requires forall i :: 0 <= i < |envpVa| ==> 0 < envpVa[i] < U64
    requires forall i :: 0 <= i < |aux| ==> aux[i] < U64
    ensures var argc, envc := |argvVa|, |envpVa|;
            && Word(m, 0) == argc && Reads(m, 1, argvVa) && Reads(m, argc + 2, envpVa) && Reads(m, argc + envc + 3, aux)
            && Word(m, argc + 2 + envc) == 0 && (forall q: nat :: argc + 2 <= q < argc + 2 + envc ==> Word(m, q) != 0)
  {
    hide Words, Word, Vector, StartsWith;
    var argc, envc, w := |argvVa|, |envpVa|, Vector(|argvVa|, argvVa, envpVa, aux);
    VectorSmall(argvVa, envpVa, aux);
    VectorParts(argc, argvVa, envpVa, aux);
    VectorRead(m, w);
    forall q: nat | argc + 2 <= q < argc + 2 + envc ensures Word(m, q) != 0 {
      assert w[argc + 2 + (q - argc - 2)] == envpVa[q - argc - 2];
    }
  }

  lemma ArgvBack(m: seq<byte>, top: nat, xs: seq<Str>, addrs: seq<nat>, j: nat)
    requires AllHeld(m, top, addrs, xs) && Reads(m, j, addrs)
    ensures seq(|xs|, (i: nat) => StringAt(m, top, Word(m, j + i))) == Visible(xs)
  {
    hide HoldsAt, StringAt, Word, UpToNul;
    forall i: nat | i < |xs| ensures StringAt(m, top, Word(m, j + i)) == UpToNul(xs[i]) {
      HeldStrings(m, top, addrs, xs, i);
      assert Word(m, j + i) == addrs[i];
    }
  }

  // ---------------------------------------------------------------- the auxiliary vector by key

  const AT_PHDR := 3
  const AT_PHENT := 4
  const AT_PHNUM := 5
  const AT_PAGESZ := 6
  const AT_BASE := 7
  const AT_FLAGS := 8
  const AT_ENTRY := 9
  const AT_UID := 11
  const AT_EUID := 12
  const AT_GID := 13
  const AT_EGID := 14
  const AT_PLATFORM := 15
  const AT_HWCAP := 16
  const AT_CLKTCK := 17
  const AT_SECURE := 23
  const AT_RANDOM := 25
  const AT_HWCAP2 := 26
  const AT_EXECFN := 31
  const AT_MINSIGSTKSZ := 51

  /** What `getauxval` finds: the value behind the first such key. */
  function Lookup(aux: seq<(nat, nat)>, key: nat): Option<nat> {
    if aux == [] then None else if aux[0].0 == key then Some(aux[0].1) else Lookup(aux[1..], key)
  }

  lemma {:induction false} LookupAt(aux: seq<(nat, nat)>, i: nat)
    requires i < |aux| && forall j :: 0 <= j < i ==> aux[j].0 != aux[i].0
    ensures Lookup(aux, aux[i].0) == Some(aux[i].1)
    decreases |aux|
  {
    if i > 0 {
      assert aux[0].0 != aux[i].0;
      LookupAt(aux[1..], i - 1);
    }
  }

  /** Where each key stands in the vector. */
  function PlaceOf(key: nat): nat {
    match key
    case 3 => 0 case 4 => 1 case 5 => 2 case 6 => 3 case 7 => 4 case 8 => 5 case 9 => 6 case 11 => 7 case 12 => 8 case 13 => 9
    case 14 => 10 case 23 => 11 case 25 => 12 case 16 => 13 case 26 => 14 case 17 => 15 case 15 => 16 case 31 => 17 case _ => 18
  }

  /** So no key stands there twice, and each is found. */
  lemma AuxFinds(h: Header, at: Places, i: nat)
    requires i < 19
    ensures var aux := AuxList(h, at.random, at.platform, at.execfn); Lookup(aux, aux[i].0) == Some(aux[i].1)
  {
    hide Lookup;
    var aux := AuxList(h, at.random, at.platform, at.execfn);
    assert forall j :: 0 <= j < 19 ==> PlaceOf(aux[j].0) == j;
    hide PlaceOf, AuxList;
    LookupAt(aux, i);
  }

  lemma AuxPairs(h: Header, at: Places)
    ensures Pairs(Aux(h, at.random, at.platform, at.execfn)) == AuxList(h, at.random, at.platform, at.execfn)
  {
    hide Flat, Pairs;
    FlatIs(AuxList(h, at.random, at.platform, at.execfn));
  }

  /** The entries a dynamic linker relies on: the program's own. */
  predicate ProgramEntries(aux: seq<(nat, nat)>, h: Header) {
    && Lookup(aux, AT_PHDR) == Some(h.phdr) && Lookup(aux, AT_PHENT) == Some(h.phent) && Lookup(aux, AT_PHNUM) == Some(h.phnum)
    && Lookup(aux, AT_BASE) == Some(h.interp) && Lookup(aux, AT_ENTRY) == Some(h.entry) && Lookup(aux, AT_HWCAP) == Some(h.hwcap)
  }

  /** ... those that are the same for every program, which runs as root and not set-user-id ... */
  predicate FixedEntries(aux: seq<(nat, nat)>) {
    && Lookup(aux, AT_PAGESZ) == Some(4096) && Lookup(aux, AT_CLKTCK) == Some(250) && Lookup(aux, AT_MINSIGSTKSZ) == Some(2048)
    && Lookup(aux, AT_UID) == Some(0) && Lookup(aux, AT_EUID) == Some(0) && Lookup(aux, AT_GID) == Some(0) && Lookup(aux, AT_EGID) == Some(0)
    && Lookup(aux, AT_FLAGS) == Some(0) && Lookup(aux, AT_SECURE) == Some(0) && Lookup(aux, AT_HWCAP2) == Some(0)
  }

  /** ... and those that point to bytes above the vector. */
  ghost predicate PointerEntries(aux: seq<(nat, nat)>, m: seq<byte>, top: nat, random: seq<byte>, path: Str) {
    && Lookup(aux, AT_RANDOM).Some? && HoldsAt(m, top, Lookup(aux, AT_RANDOM).value, random)
    && Lookup(aux, AT_EXECFN).Some? && StringAt(m, top, Lookup(aux, AT_EXECFN).value) == UpToNul(path)
    && Lookup(aux, AT_PLATFORM).Some? && StringAt(m, top, Lookup(aux, AT_PLATFORM).value) == [0x78, 0x38, 0x36, 0x5F, 0x36, 0x34]
  }

  lemma ProgramFound(h: Header, at: Places)
    ensures ProgramEntries(AuxList(h, at.random, at.platform, at.execfn), h)
  {
    hide Lookup;
    AuxFinds(h, at, 0);
    AuxFinds(h, at, 1);
    AuxFinds(h, at, 2);
    AuxFinds(h, at, 4);
    AuxFinds(h, at, 6);
    AuxFinds(h, at, 13);
  }

  lemma FixedFound(h: Header, at: Places)
    ensures FixedEntries(AuxList(h, at.random, at.platform, at.execfn))
  {
    hide Lookup;
    AuxFinds(h, at, 3);
    AuxFinds(h, at, 5);
    AuxFinds(h, at, 7);
    AuxFinds(h, at, 8);
    AuxFinds(h, at, 9);
    AuxFinds(h, at, 10);
    AuxFinds(h, at, 11);
    AuxFinds(h, at, 14);
    AuxFinds(h, at, 15);
    AuxFinds(h, at, 18);
  }

  lemma PointersFound(h: Header, at: Places)
    ensures var aux := AuxList(h, at.random, at.platform, at.execfn);
            && Lookup(aux, AT_RANDOM) == Some(at.random) && Lookup(aux, AT_PLATFORM) == Some(at.platform)
            && Lookup(aux, AT_EXECFN) == Some(at.execfn)
  {
    hide Lookup;
    AuxFinds(h, at, 12);
    AuxFinds(h, at, 16);
    AuxFinds(h, at, 17);
  }

  /** Start-up code finds every entry under its key, and the bytes the pointers lead to. */
  lemma AuxBack(m: seq<byte>, top: nat, random: seq<byte>, path: Str, argv: seq<Str>, envs: seq<Str>, h: Header, at: Places)
    requires Laid(m, top, random, path, argv, envs, h, at) && |m| < top < U64 && |argv| < U64 && SmallHeader(h)
    ensures var aux := ParseStack(m, top).aux;
            |aux| == 19 && ProgramEntries(aux, h) && FixedEntries(aux) && PointerEntries(aux, m, top, random, path)
  {
    hide Lookup, Pairs, ParseStack, HoldsAt, StringAt, UpToNul, AllHeld, Words, StartsWith, Visible, NoNul, Aux, AuxList, ProgramEntries, FixedEntries;
    ParseBack(m, top, random, path, argv, envs, h, at);
    AuxPairs(h, at);
    ProgramFound(h, at);
    FixedFound(h, at);
    PointersFound(h, at);
    HeldString(m, top, at.execfn, path);
    HeldString(m, top, at.platform, PLATFORM);
    UpToNulIff(PLATFORM);
  }
}
