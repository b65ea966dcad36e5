/**
 Loading the PT_LOAD segments of an ELF file into an address space: the header
 checks, the overlap and W^X checks, the page-by-page copy with pages shared
 between segments or mapped beforehand, and the rollback.
 */
module ElfLoader {
  import opened Common

  const PAGE: nat := 4096
  /** Pages of the lower half, the one user space has to itself. */
  const USER_PAGES: nat := 0x8_0000_0000
  /** The four table indices take 36 bits of page number; higher bits are not looked at. */
  const KEYS: nat := 0x10_0000_0000
  /** Pages of the whole 64-bit range. */
  const ALL_PAGES: nat := 0x10_0000_0000_0000
  const MAX_ELF_SIZE: nat := 67108864

  type u64 = x: nat | x < 0x1_0000_0000_0000_0000
  type Page = p: seq<byte> | |p| == 4096 witness seq(4096, _ => 0)

  datatype Phdr = Phdr(load: bool, w: bool, x: bool, offset: u64, vaddr: u64, filesz: u64, memsz: u64)
  datatype UPage = UPage(bytes: Page, w: bool, x: bool)
  datatype Error = FileTooLarge | NoLoadSegments | SegmentOutOfBounds | WxSegment | SegmentOverlap | MapFailed | OutOfMemory
  /** `Panic`: the processor address type refused an address whose upper bits are not a sign extension. */
  datatype Outcome = Ok | Err(e: Error) | Panic

  /** A segment at the address it is loaded to. */
  datatype Seg = Seg(v: nat, filesz: nat, memsz: nat, offset: nat, w: bool, x: bool)

  function At(ph: Phdr, bias: nat): Seg { Seg(ph.vaddr + bias, ph.filesz, ph.memsz, ph.offset, ph.w, ph.x) }

  function PageDown(a: nat): nat { a - a % PAGE }
  function PageUp(a: nat): nat { PageDown(a + (PAGE - 1)) }
  function Addr(p: nat, o: nat): nat { p * PAGE + o }

  // ---------------------------------------------------------------- the image

  predicate HasFile(s: Seg, a: nat) { s.v <= a < s.v + s.filesz }

  predicate InFile(data: seq<byte>, s: Seg) {
    s.filesz <= s.memsz && (s.filesz > 0 ==> s.offset + s.filesz <= |data|)
  }

  function FileByte(data: seq<byte>, s: Seg, a: nat): byte
    requires InFile(data, s) && HasFile(s, a)
  {
    data[s.offset + (a - s.v)]
  }

  /** A segment mapped up to (not including) a page-aligned address. */
  datatype Part = Part(s: Seg, end: nat)

  predicate Covers(t: Part, p: nat) { PageDown(t.s.v) <= p * PAGE < t.end }

  predicate Wrote(t: Part, a: nat) { HasFile(t.s, a) && a < t.end }

  /** The entry of the tables a page number leads to. */
  function Key(p: nat): nat { p % KEYS }

  predicate Canonical(p: nat) { p < USER_PAGES || ALL_PAGES - USER_PAGES <= p < ALL_PAGES }

  ghost predicate CoversKey(t: Part, k: nat) { exists p: nat :: Covers(t, p) && Key(p) == k }

  ghost predicate CoveredBy(ts: seq<Part>, k: nat) { exists i :: 0 <= i < |ts| && CoversKey(ts[i], k) }

  ghost predicate AllInFile(data: seq<byte>, ts: seq<Part>) { forall i :: 0 <= i < |ts| ==> InFile(data, ts[i].s) }

  /** Page `p` of part `i` put a file byte at offset `o` behind entry `k`. */
  ghost predicate Writer(ts: seq<Part>, k: nat, o: nat, i: nat, p: nat) { i < |ts| && Key(p) == k && Wrote(ts[i], Addr(p, o)) }

  ghost predicate NoWriter(ts: seq<Part>, k: nat, o: nat) { forall i: nat, p: nat :: !Writer(ts, k, o, i, p) }

  function Base(pages0: map<nat, UPage>, k: nat, o: nat): byte
    requires o < PAGE
  {
    if k in pages0 then pages0[k].bytes[o] else 0
  }

  /** A byte that one of the writers put there, or what was there before if there is none. */
  ghost predicate CellOk(pages0: map<nat, UPage>, data: seq<byte>, ts: seq<Part>, k: nat, o: nat, b: byte)
    requires AllInFile(data, ts) && o < PAGE
  {
    || (exists i: nat, p: nat :: Writer(ts, k, o, i, p) && FileByte(data, ts[i].s, Addr(p, o)) == b)
    || (NoWriter(ts, k, o) && b == Base(pages0, k, o))
  }

  ghost predicate Mapped(pages0: map<nat, UPage>, pages: map<nat, UPage>, ts: seq<Part>) {
    forall k: nat :: k in pages <==> k in pages0 || CoveredBy(ts, k)
  }

  ghost predicate Filled(pages0: map<nat, UPage>, pages: map<nat, UPage>, data: seq<byte>, ts: seq<Part>)
    requires AllInFile(data, ts)
  {
    forall k: nat, o: nat :: k in pages && o < PAGE ==> CellOk(pages0, data, ts, k, o, pages[k].bytes[o])
  }

  ghost predicate SomeW(ts: seq<Part>, k: nat) { exists i :: 0 <= i < |ts| && CoversKey(ts[i], k) && ts[i].s.w }
  ghost predicate SomeX(ts: seq<Part>, k: nat) { exists i :: 0 <= i < |ts| && CoversKey(ts[i], k) && ts[i].s.x }

  /** An entry may do what it could before and what some segment on it may do; one a segment touches never both. */
  ghost predicate Permitted(pages0: map<nat, UPage>, pages: map<nat, UPage>, ts: seq<Part>) {
    forall k: nat :: k in pages ==>
      && (pages[k].w <==> (k in pages0 && pages0[k].w) || SomeW(ts, k))
      && (pages[k].x <==> (k in pages0 && pages0[k].x) || SomeX(ts, k))
      && (CoveredBy(ts, k) ==> !(pages[k].w && pages[k].x))
  }

  /** The tables `pages` are `pages0` with the parts laid over them. */
  ghost predicate Exact(pages0: map<nat, UPage>, pages: map<nat, UPage>, data: seq<byte>, ts: seq<Part>) {
    && AllInFile(data, ts)
    && Mapped(pages0, pages, ts) && Filled(pages0, pages, data, ts) && Permitted(pages0, pages, ts)
  }

  // ---------------------------------------------------------------- one more page

  function LaidByte(data: seq<byte>, s: Seg, p: nat, pages: map<nat, UPage>, o: nat): byte
    requires InFile(data, s) && o < PAGE
  {
    if HasFile(s, Addr(p, o)) then FileByte(data, s, Addr(p, o)) else Base(pages, Key(p), o)
  }

  /** What the loop leaves behind the entry of page `p`: the segment's bytes over what was there, or over zeros. */
  ghost predicate Laid(data: seq<byte>, s: Seg, p: nat, pages: map<nat, UPage>, pg: UPage)
    requires InFile(data, s)
  {
    && (forall o :: 0 <= o < PAGE ==> pg.bytes[o] == LaidByte(data, s, p, pages, o))
    && pg.w == ((Key(p) in pages && pages[Key(p)].w) || s.w)
    && pg.x == ((Key(p) in pages && pages[Key(p)].x) || s.x)
    && !(pg.w && pg.x)
  }

  function Grow(ts: seq<Part>, s: Seg, pv: nat): seq<Part> { ts + [Part(s, pv)] }

  /** Where one more page of a segment differs from one less. */
  lemma {:induction false} NextPage(s: Seg, p: nat)
    requires PageDown(s.v) <= p * PAGE
    ensures forall q: nat :: Covers(Part(s, (p + 1) * PAGE), q) <==> Covers(Part(s, p * PAGE), q) || q == p
    ensures forall q: nat, o: nat :: o < PAGE ==>
              (Wrote(Part(s, (p + 1) * PAGE), Addr(q, o)) <==>
               if q == p then HasFile(s, Addr(q, o)) else Wrote(Part(s, p * PAGE), Addr(q, o)))
    ensures forall o: nat :: o < PAGE ==> !Wrote(Part(s, p * PAGE), Addr(p, o))
  {
  }

  lemma WroteCovers(t: Part, p: nat, o: nat)
    requires o < PAGE && Wrote(t, Addr(p, o))
    ensures Covers(t, p)
  {
  }

  /** Behind other entries nothing new is covered or written; behind this one, this page. */
  lemma KeyStep(ts: seq<Part>, s: Seg, p: nat, k: nat)
    requires PageDown(s.v) <= p * PAGE
    ensures var ts0, ts1 := Grow(ts, s, p * PAGE), Grow(ts, s, (p + 1) * PAGE);
            forall i :: 0 <= i < |ts1| ==> (CoversKey(ts1[i], k) <==> CoversKey(ts0[i], k) || (i == |ts| && k == Key(p)))
  {
    NextPage(s, p);
    hide Covers, PageDown, Key;
    var ts0, ts1 := Grow(ts, s, p * PAGE), Grow(ts, s, (p + 1) * PAGE);
    forall i | 0 <= i < |ts1| ensures CoversKey(ts1[i], k) <==> CoversKey(ts0[i], k) || (i == |ts| && k == Key(p)) {
      if i == |ts| {
        assert Covers(ts1[i], p);
        assert forall q: nat :: Covers(ts1[i], q) <==> Covers(ts0[i], q) || q == p;
      }
    }
  }

  lemma WriterStep(ts: seq<Part>, s: Seg, p: nat, k: nat, o: nat, i: nat, q: nat)
    requires PageDown(s.v) <= p * PAGE && o < PAGE
    ensures var ts0, ts1 := Grow(ts, s, p * PAGE), Grow(ts, s, (p + 1) * PAGE);
            Writer(ts1, k, o, i, q) <==> Writer(ts0, k, o, i, q) || (i == |ts| && q == p && k == Key(p) && HasFile(s, Addr(p, o)))
  {
    NextPage(s, p);
    hide Covers, PageDown, Key;
  }

  lemma SomeStep(ts: seq<Part>, s: Seg, p: nat, k: nat)
    requires PageDown(s.v) <= p * PAGE
    ensures var ts0, ts1 := Grow(ts, s, p * PAGE), Grow(ts, s, (p + 1) * PAGE);
            && (SomeW(ts1, k) <==> SomeW(ts0, k) || (k == Key(p) && s.w))
            && (SomeX(ts1, k) <==> SomeX(ts0, k) || (k == Key(p) && s.x))
  {
    KeyStep(ts, s, p, k);
    hide CoversKey, PageDown, Key;
    var ts0, ts1 := Grow(ts, s, p * PAGE), Grow(ts, s, (p + 1) * PAGE);
    assert forall i :: 0 <= i < |ts1| ==> ts1[i].s == ts0[i].s;
    assert k == Key(p) ==> CoversKey(ts1[|ts|], k);
    if SomeW(ts0, k) { var i :| 0 <= i < |ts0| && CoversKey(ts0[i], k) && ts0[i].s.w; assert CoversKey(ts1[i], k); }
    if SomeX(ts0, k) { var i :| 0 <= i < |ts0| && CoversKey(ts0[i], k) && ts0[i].s.x; assert CoversKey(ts1[i], k); }
    if SomeW(ts1, k) { var i :| 0 <= i < |ts1| && CoversKey(ts1[i], k) && ts1[i].s.w; assert CoversKey(ts0[i], k) ==> ts0[i].s.w; }
    if SomeX(ts1, k) { var i :| 0 <= i < |ts1| && CoversKey(ts1[i], k) && ts1[i].s.x; assert CoversKey(ts0[i], k) ==> ts0[i].s.x; }
  }

  lemma CoveredStep(ts: seq<Part>, s: Seg, p: nat, k: nat)
    requires PageDown(s.v) <= p * PAGE
    ensures CoveredBy(Grow(ts, s, (p + 1) * PAGE), k) <==> CoveredBy(Grow(ts, s, p * PAGE), k) || k == Key(p)
  {
    KeyStep(ts, s, p, k);
    hide CoversKey, PageDown, Key;
    var ts0, ts1 := Grow(ts, s, p * PAGE), Grow(ts, s, (p + 1) * PAGE);
    assert k == Key(p) ==> CoversKey(ts1[|ts|], k);
    if CoveredBy(ts0, k) { var i :| 0 <= i < |ts0| && CoversKey(ts0[i], k); assert CoversKey(ts1[i], k); }
    if CoveredBy(ts1, k) { var i :| 0 <= i < |ts1| && CoversKey(ts1[i], k); }
  }

  lemma MappedStep(pages0: map<nat, UPage>, pages: map<nat, UPage>, ts: seq<Part>, s: Seg, p: nat, pg: UPage)
    requires PageDown(s.v) <= p * PAGE && Mapped(pages0, pages, Grow(ts, s, p * PAGE))
    ensures Mapped(pages0, pages[Key(p) := pg], Grow(ts, s, (p + 1) * PAGE))
  {
    hide CoveredBy, PageDown, Grow, Key;
    forall k: nat ensures CoveredBy(Grow(ts, s, (p + 1) * PAGE), k) <==> CoveredBy(Grow(ts, s, p * PAGE), k) || k == Key(p) {
      CoveredStep(ts, s, p, k);
    }
  }

  lemma PermittedStep(pages0: map<nat, UPage>, pages: map<nat, UPage>, data: seq<byte>, ts: seq<Part>, s: Seg, p: nat, pg: UPage)
    requires PageDown(s.v) <= p * PAGE && Mapped(pages0, pages, Grow(ts, s, p * PAGE))
    requires Permitted(pages0, pages, Grow(ts, s, p * PAGE)) && InFile(data, s) && Laid(data, s, p, pages, pg)
    ensures Permitted(pages0, pages[Key(p) := pg], Grow(ts, s, (p + 1) * PAGE))
  {
    hide SomeW, SomeX, CoveredBy, PageDown, LaidByte, Grow, Key;
    var ts0, ts1 := Grow(ts, s, p * PAGE), Grow(ts, s, (p + 1) * PAGE);
    forall k: nat
      ensures CoveredBy(ts1, k) <==> CoveredBy(ts0, k) || k == Key(p)
      ensures SomeW(ts1, k) <==> SomeW(ts0, k) || (k == Key(p) && s.w)
      ensures SomeX(ts1, k) <==> SomeX(ts0, k) || (k == Key(p) && s.x)
    {
      CoveredStep(ts, s, p, k);
      SomeStep(ts, s, p, k);
    }
    SomeCovered(ts0, Key(p));
  }

  lemma SomeCovered(ts: seq<Part>, k: nat)
    ensures SomeW(ts, k) || SomeX(ts, k) ==> CoveredBy(ts, k)
  {
    hide CoversKey;
  }

  lemma WriterCovers(ts: seq<Part>, k: nat, o: nat, i: nat, p: nat)
    requires o < PAGE && Writer(ts, k, o, i, p)
    ensures CoveredBy(ts, k)
  {
    WroteCovers(ts[i], p, o);
    hide Covers, Wrote;
    assert CoversKey(ts[i], k);
  }

  /** Behind the page's own entry. */
  lemma CellHere(pages0: map<nat, UPage>, pages: map<nat, UPage>, data: seq<byte>, ts: seq<Part>, s: Seg, p: nat, o: nat, b: byte)
    requires PageDown(s.v) <= p * PAGE && o < PAGE && InFile(data, s) && AllInFile(data, Grow(ts, s, p * PAGE))
    requires Mapped(pages0, pages, Grow(ts, s, p * PAGE)) && b == LaidByte(data, s, p, pages, o)
    requires Key(p) in pages ==> CellOk(pages0, data, Grow(ts, s, p * PAGE), Key(p), o, pages[Key(p)].bytes[o])
    ensures AllInFile(data, Grow(ts, s, (p + 1) * PAGE)) && CellOk(pages0, data, Grow(ts, s, (p + 1) * PAGE), Key(p), o, b)
  {
    hide PageDown, Key, CoveredBy, InFile;
    var k, ts0, ts1 := Key(p), Grow(ts, s, p * PAGE), Grow(ts, s, (p + 1) * PAGE);
    assert forall i :: 0 <= i < |ts1| ==> ts1[i].s == ts0[i].s;
    WriterStep(ts, s, p, k, o, |ts|, p);
    if HasFile(s, Addr(p, o)) {
      assert Writer(ts1, k, o, |ts|, p);
    } else {
      if k !in pages {
        forall i: nat, q: nat ensures !Writer(ts0, k, o, i, q) {
          if Writer(ts0, k, o, i, q) { WriterCovers(ts0, k, o, i, q); }
        }
        assert NoWriter(ts0, k, o);
      }
      CellMoves(pages0, data, ts, s, p, k, o, b);
    }
  }

  lemma CellMoves(pages0: map<nat, UPage>, data: seq<byte>, ts: seq<Part>, s: Seg, p: nat, k: nat, o: nat, b: byte)
    requires PageDown(s.v) <= p * PAGE && o < PAGE && AllInFile(data, Grow(ts, s, p * PAGE))
    requires (k != Key(p) || !HasFile(s, Addr(p, o))) && CellOk(pages0, data, Grow(ts, s, p * PAGE), k, o, b)
    ensures AllInFile(data, Grow(ts, s, (p + 1) * PAGE)) && CellOk(pages0, data, Grow(ts, s, (p + 1) * PAGE), k, o, b)
  {
    hide PageDown, Key, InFile;
    var ts0, ts1 := Grow(ts, s, p * PAGE), Grow(ts, s, (p + 1) * PAGE);
    assert forall i :: 0 <= i < |ts1| ==> ts1[i].s == ts0[i].s;
    forall i: nat, q: nat ensures Writer(ts1, k, o, i, q) <==> Writer(ts0, k, o, i, q) {
      WriterStep(ts, s, p, k, o, i, q);
    }
    if NoWriter(ts0, k, o) {
      assert NoWriter(ts1, k, o);
    } else {
      var i: nat, q: nat :| Writer(ts0, k, o, i, q) && FileByte(data, ts0[i].s, Addr(q, o)) == b;
      assert Writer(ts1, k, o, i, q);
    }
  }

  /** One page of the loop: the image stays exact. */
  lemma StepExact(pages0: map<nat, UPage>, pages: map<nat, UPage>, data: seq<byte>, ts: seq<Part>, s: Seg, p: nat, pg: UPage)
    requires PageDown(s.v) <= p * PAGE && InFile(data, s)
    requires Exact(pages0, pages, data, Grow(ts, s, p * PAGE)) && Laid(data, s, p, pages, pg)
    ensures Exact(pages0, pages[Key(p) := pg], data, Grow(ts, s, (p + 1) * PAGE))
  {
    hide Mapped, Permitted, Grow, PageDown, InFile, CellOk, LaidByte, Key;
    MappedStep(pages0, pages, ts, s, p, pg);
    PermittedStep(pages0, pages, data, ts, s, p, pg);
    var ts0, ts1 := Grow(ts, s, p * PAGE), Grow(ts, s, (p + 1) * PAGE);
    CellsKept(data, ts, s, p);
    var after := pages[Key(p) := pg];
    forall k: nat, o: nat | k in after && o < PAGE ensures CellOk(pages0, data, ts1, k, o, after[k].bytes[o]) {
      if k == Key(p) {
        CellHere(pages0, pages, data, ts, s, p, o, pg.bytes[o]);
      } else {
        CellMoves(pages0, data, ts, s, p, k, o, pages[k].bytes[o]);
      }
    }
  }

  lemma CellsKept(data: seq<byte>, ts: seq<Part>, s: Seg, p: nat)
    requires AllInFile(data, Grow(ts, s, p * PAGE))
    ensures AllInFile(data, Grow(ts, s, (p + 1) * PAGE))
  {
    hide InFile;
    var ts0, ts1 := Grow(ts, s, p * PAGE), Grow(ts, s, (p + 1) * PAGE);
    assert forall i :: 0 <= i < |ts1| ==> ts1[i].s == ts0[i].s;
  }

  // ---------------------------------------------------------------- the checks on headers

  predicate HeaderOk(len: nat, ph: Phdr) {
    && (ph.filesz > 0 ==> ph.offset + ph.filesz <= len)
    && ph.filesz <= ph.memsz && ph.vaddr + ph.memsz < U64
  }

  /** The loop of `parse` over decoded program headers. */
  method Parse(len: u64, phdrs: seq<Phdr>) returns (r: Outcome)
    ensures r == Ok <==> (forall i :: 0 <= i < |phdrs| ==> HeaderOk(len, phdrs[i])) && (exists i :: 0 <= i < |phdrs| && phdrs[i].load)
    ensures r != Panic
    ensures r == Err(NoLoadSegments) ==> forall i :: 0 <= i < |phdrs| ==> !phdrs[i].load
  {
    var hasLoad := false;
    for i := 0 to |phdrs|
      invariant forall k :: 0 <= k < i ==> HeaderOk(len, phdrs[k])
      invariant hasLoad <==> exists k :: 0 <= k < i && phdrs[k].load
    {
      var p := phdrs[i];
      if p.filesz > 0 {
        if p.offset + p.filesz >= U64 || p.offset + p.filesz > len {
          return Err(SegmentOutOfBounds);
        }
      }
      if p.memsz < p.filesz {
        return Err(SegmentOutOfBounds);
      }
      if p.vaddr + p.memsz >= U64 {
        return Err(SegmentOutOfBounds);
      }
      if p.load { hasLoad := true; }
    }
    if !hasLoad {
      return Err(NoLoadSegments);
    }
    return Ok;
  }

  predicate Loads(ph: Phdr) { ph.load && ph.memsz > 0 }

  predicate Apart(p: Phdr, q: Phdr) { !(q.vaddr < p.vaddr + p.memsz && q.vaddr + q.memsz > p.vaddr) }

  ghost predicate Separate(phdrs: seq<Phdr>, n: nat) {
    forall i, j :: 0 <= i < j < n && j < |phdrs| && Loads(phdrs[i]) && Loads(phdrs[j]) ==> Apart(phdrs[i], phdrs[j])
  }

  ghost predicate NoWx(phdrs: seq<Phdr>, n: nat) {
    forall i :: 0 <= i < n && i < |phdrs| && Loads(phdrs[i]) ==> !(phdrs[i].w && phdrs[i].x)
  }

  /** `check_overlaps`: no segment is both writable and executable, no two overlap. */
  method CheckOverlaps(phdrs: seq<Phdr>) returns (r: Outcome)
    ensures (forall i :: 0 <= i < |phdrs| ==> phdrs[i].vaddr + phdrs[i].memsz < U64) ==>
              (r == Ok <==> NoWx(phdrs, |phdrs|) && Separate(phdrs, |phdrs|))
    ensures r != Panic && (r == Ok ==> NoWx(phdrs, |phdrs|) && Separate(phdrs, |phdrs|))
  {
    var ranges: seq<nat> := [];
    for i := 0 to |phdrs|
      invariant forall k :: 0 <= k < |ranges| ==> ranges[k] < i && Loads(phdrs[ranges[k]])
      invariant forall k :: 0 <= k < i && Loads(phdrs[k]) ==> k in ranges
      invariant NoWx(phdrs, i) && Separate(phdrs, i)
    {
      var p := phdrs[i];
      if Loads(p) {
        if p.w && p.x {
          return Err(WxSegment);
        }
        if p.vaddr + p.memsz >= U64 {
          return Err(SegmentOverlap);
        }
        for k := 0 to |ranges|
          invariant forall l :: 0 <= l < k ==> Apart(phdrs[ranges[l]], p)
        {
          if !Apart(phdrs[ranges[k]], p) {
            return Err(SegmentOverlap);
          }
        }
        ranges := ranges + [i];
      }
    }
    return Ok;
  }

  // ---------------------------------------------------------------- segments of a header table

  /** The parts of the loadable headers, each mapped to its end. */
  function PartsOf(phdrs: seq<Phdr>, bias: nat): seq<Part> {
    if phdrs == [] then []
    else
      var ph := phdrs[|phdrs| - 1];
      PartsOf(phdrs[..|phdrs| - 1], bias) + if Loads(ph) then [Whole(At(ph, bias))] else []
  }

  function Whole(s: Seg): Part { Part(s, PageUp(s.v + s.memsz)) }

  lemma PartsSnoc(phdrs: seq<Phdr>, bias: nat, i: nat)
    requires i < |phdrs|
    ensures PartsOf(phdrs[..i + 1], bias) ==
            if Loads(phdrs[i]) then PartsOf(phdrs[..i], bias) + [Whole(At(phdrs[i], bias))] else PartsOf(phdrs[..i], bias)
  {
    assert phdrs[..i + 1][..i] == phdrs[..i];
  }

  lemma PartsNone(bias: nat)
    ensures PartsOf([], bias) == []
  {
  }

  lemma NothingLaid(pages: map<nat, UPage>, data: seq<byte>)
    ensures Exact(pages, pages, data, [])
  {
    forall k: nat, o: nat | k in pages && o < PAGE ensures CellOk(pages, data, [], k, o, pages[k].bytes[o]) {
      assert NoWriter([], k, o);
    }
  }

  lemma {:induction false} PartFrom(phdrs: seq<Phdr>, bias: nat, k: nat) returns (i: nat)
    requires k < |PartsOf(phdrs, bias)|
    ensures i < |phdrs| && Loads(phdrs[i]) && PartsOf(phdrs, bias)[k] == Whole(At(phdrs[i], bias))
    decreases |phdrs|
  {
    var n := |phdrs| - 1;
    if k < |PartsOf(phdrs[..n], bias)| {
      i := PartFrom(phdrs[..n], bias, k);
    } else {
      i := n;
    }
  }

  lemma {:induction false} PartFor(phdrs: seq<Phdr>, bias: nat, i: nat) returns (k: nat)
    requires i < |phdrs| && Loads(phdrs[i])
    ensures k < |PartsOf(phdrs, bias)| && PartsOf(phdrs, bias)[k] == Whole(At(phdrs[i], bias))
    decreases |phdrs|
  {
    var n := |phdrs| - 1;
    if i < n {
      k := PartFor(phdrs[..n], bias, i);
    } else {
      k := |PartsOf(phdrs[..n], bias)|;
    }
  }

  /** Before its first page a segment changes nothing. */
  lemma StartSegment(pages0: map<nat, UPage>, pages: map<nat, UPage>, data: seq<byte>, ts: seq<Part>, s: Seg)
    requires Exact(pages0, pages, data, ts) && InFile(data, s)
    ensures Exact(pages0, pages, data, Grow(ts, s, PageDown(s.v)))
  {
    var ts1 := Grow(ts, s, PageDown(s.v));
    assert forall q: nat :: !Covers(ts1[|ts|], q) && !Wrote(ts1[|ts|], q);
    assert forall i :: 0 <= i < |ts| ==> ts1[i] == ts[i];
    hide Covers, PageDown, Key, InFile;
    forall k: nat ensures (CoveredBy(ts1, k) <==> CoveredBy(ts, k)) && (SomeW(ts1, k) <==> SomeW(ts, k)) && (SomeX(ts1, k) <==> SomeX(ts, k)) {
      StartKeys(ts, ts1, k);
    }
    hide CoveredBy, SomeW, SomeX;
    forall k: nat, o: nat | k in pages && o < PAGE ensures CellOk(pages0, data, ts1, k, o, pages[k].bytes[o]) {
      StartCell(pages0, data, ts, ts1, k, o, pages[k].bytes[o]);
    }
  }

  lemma StartKeys(ts: seq<Part>, ts1: seq<Part>, k: nat)
    requires |ts1| == |ts| + 1 && ts1[..|ts|] == ts && forall q: nat :: !Covers(ts1[|ts|], q)
    ensures (CoveredBy(ts1, k) <==> CoveredBy(ts, k)) && (SomeW(ts1, k) <==> SomeW(ts, k)) && (SomeX(ts1, k) <==> SomeX(ts, k))
  {
    hide Covers;
    assert !CoversKey(ts1[|ts|], k);
    assert forall i :: 0 <= i < |ts| ==> ts1[i] == ts[i];
    hide CoversKey;
    if CoveredBy(ts, k) { var i :| 0 <= i < |ts| && CoversKey(ts[i], k); assert CoversKey(ts1[i], k); }
    if SomeW(ts, k) { var i :| 0 <= i < |ts| && CoversKey(ts[i], k) && ts[i].s.w; assert CoversKey(ts1[i], k) && ts1[i].s.w; }
    if SomeX(ts, k) { var i :| 0 <= i < |ts| && CoversKey(ts[i], k) && ts[i].s.x; assert CoversKey(ts1[i], k) && ts1[i].s.x; }
  }

  lemma StartCell(pages0: map<nat, UPage>, data: seq<byte>, ts: seq<Part>, ts1: seq<Part>, k: nat, o: nat, b: byte)
    requires AllInFile(data, ts) && AllInFile(data, ts1) && o < PAGE && CellOk(pages0, data, ts, k, o, b)
    requires |ts1| == |ts| + 1 && ts1[..|ts|] == ts && forall a: nat :: !Wrote(ts1[|ts|], a)
    ensures CellOk(pages0, data, ts1, k, o, b)
  {
    assert forall i :: 0 <= i < |ts| ==> ts1[i] == ts[i];
    hide InFile, Key;
    forall i: nat, q: nat ensures Writer(ts1, k, o, i, q) <==> Writer(ts, k, o, i, q) {
    }
    if NoWriter(ts, k, o) {
      assert NoWriter(ts1, k, o);
    } else {
      var i: nat, q: nat :| Writer(ts, k, o, i, q) && FileByte(data, ts[i].s, Addr(q, o)) == b;
      assert Writer(ts1, k, o, i, q);
    }
  }

  // ---------------------------------------------------------------- the copy


  /** `copy_segment_data`: the bytes of the segment that fall on the page. */
  method CopySegment(page: Page, data: seq<byte>, pv: nat, s: Seg) returns (r: Page)
    requires InFile(data, s) && Max(pv, s.v) < Min(pv + PAGE, s.v + s.filesz)
    ensures forall o :: 0 <= o < PAGE ==>
              r[o] == if HasFile(s, pv + o) then data[s.offset + (pv + o - s.v)] else page[o]
  {
    var from, to := Max(pv, s.v), Min(pv + PAGE, s.v + s.filesz);
    var dst, src, len := from - pv, s.offset + (from - s.v), to - from;
    var clamped := Min(len, |data| - src);
    r := page[..dst] + data[src..src + clamped] + page[dst + clamped..];
  }

  /** A new frame: whatever it held is overwritten or zeroed. */
  method FillFrame(data: seq<byte>, s: Seg, p: nat) returns (frame: Page)
    requires InFile(data, s)
    ensures forall o :: 0 <= o < PAGE ==> frame[o] == if HasFile(s, Addr(p, o)) then FileByte(data, s, Addr(p, o)) else 0
  {
    var pv := p * PAGE;
    var from, to := Max(pv, s.v), Min(pv + PAGE, s.v + s.filesz);
    var len := if from < to then to - from else 0;
    frame := *;
    if !(from == pv && len == PAGE) {
      frame := seq(PAGE, _ => 0);
    }
    if len > 0 {
      frame := CopySegment(frame, data, pv, s);
    }
  }

  /** A page that is there already: the segment's bytes go over it. */
  method Overlay(page: Page, data: seq<byte>, s: Seg, p: nat) returns (r: Page)
    requires InFile(data, s)
    ensures forall o :: 0 <= o < PAGE ==> r[o] == if HasFile(s, Addr(p, o)) then FileByte(data, s, Addr(p, o)) else page[o]
  {
    var pv := p * PAGE;
    r := page;
    if Max(pv, s.v) < Min(pv + PAGE, s.v + s.filesz) {
      r := CopySegment(page, data, pv, s);
    }
  }

  /** No entry changed but those the parts cover. */
  ghost predicate KeptOutside(pages0: map<nat, UPage>, pages: map<nat, UPage>, ts: seq<Part>) {
    forall k: nat :: !CoveredBy(ts, k) ==> (k in pages <==> k in pages0) && (k in pages0 ==> pages[k] == pages0[k])
  }

  lemma KeptMore(pages0: map<nat, UPage>, pages: map<nat, UPage>, ts: seq<Part>, us: seq<Part>)
    requires KeptOutside(pages0, pages, ts) && forall i :: 0 <= i < |ts| ==> ts[i] in us
    ensures KeptOutside(pages0, pages, us)
  {
    hide CoversKey;
    forall k: nat | CoveredBy(ts, k) ensures CoveredBy(us, k) {
      var i :| 0 <= i < |ts| && CoversKey(ts[i], k);
      var j :| 0 <= j < |us| && us[j] == ts[i];
      assert CoversKey(us[j], k);
    }
  }

  /** Whatever is not one of the new pages was mapped before, and a new page was not. */
  ghost predicate Undoable(pages0: map<nat, UPage>, pages: map<nat, UPage>, added: seq<nat>) {
    && (forall k :: k in pages0 ==> k in pages)
    && (forall k :: k in pages && k !in pages0 ==> exists n :: 0 <= n < |added| && Key(added[n]) == k)
    && (forall n :: 0 <= n < |added| ==> Key(added[n]) !in pages0)
  }

  lemma UndoOver(pages0: map<nat, UPage>, pages: map<nat, UPage>, added: seq<nat>, k: nat, pg: UPage)
    requires Undoable(pages0, pages, added) && k in pages
    ensures Undoable(pages0, pages[k := pg], added)
  {
  }

  lemma UndoNew(pages0: map<nat, UPage>, pages: map<nat, UPage>, added: seq<nat>, p: nat, pg: UPage)
    requires Undoable(pages0, pages, added) && Key(p) !in pages
    ensures Undoable(pages0, pages[Key(p) := pg], added + [p])
  {
    hide Key;
    var after := added + [p];
    assert after[|added|] == p;
    assert forall n :: 0 <= n < |added| ==> after[n] == added[n];
  }

  // ---------------------------------------------------------------- when a load succeeds

  predicate Both(w: bool, x: bool) { w && x }

  /** The addresses of the segment, rounded up to whole pages, are 64-bit numbers. */
  predicate Fits(s: Seg) { s.v + s.memsz + (PAGE - 1) < U64 }

  /** Entries that were empty and are not any more. */
  ghost function NewKeys(pages0: map<nat, UPage>, ts: seq<Part>): set<nat> {
    set k: nat | 0 <= k < KEYS && k !in pages0 && CoveredBy(ts, k)
  }

  ghost predicate Taken(pages0: map<nat, UPage>, ts: seq<Part>, k: nat) { k in pages0 || CoveredBy(ts, k) }

  ghost predicate MayWrite(pages0: map<nat, UPage>, ts: seq<Part>, k: nat) { (k in pages0 && pages0[k].w) || SomeW(ts, k) }
  ghost predicate MayRun(pages0: map<nat, UPage>, ts: seq<Part>, k: nat) { (k in pages0 && pages0[k].x) || SomeX(ts, k) }

  /**
   Page `p` of `s` goes through when `ts` has been laid over `pages0`: a frame is free; an entry that is taken does not become
   both writable and executable and its page is an address; the mapping of a new one is let through.
   */
  ghost predicate PageFine(pages0: map<nat, UPage>, free0: nat, lets: nat -> bool, ts: seq<Part>, s: Seg, p: nat) {
    && |NewKeys(pages0, ts)| < free0
    && if Taken(pages0, ts, Key(p))
       then Canonical(p) && !Both(MayWrite(pages0, ts, Key(p)) || s.w, MayRun(pages0, ts, Key(p)) || s.x)
       else lets(p)
  }

  /** Why it does not. */
  ghost predicate Blamed(r: Outcome, pages0: map<nat, UPage>, free0: nat, lets: nat -> bool, ts: seq<Part>, s: Seg, p: nat) {
    match r
    case Ok => false
    case Panic => Taken(pages0, ts, Key(p)) && !Canonical(p)
    case Err(OutOfMemory) => |NewKeys(pages0, ts)| >= free0
    case Err(WxSegment) =>
      Taken(pages0, ts, Key(p)) && Both(MayWrite(pages0, ts, Key(p)) || s.w, MayRun(pages0, ts, Key(p)) || s.x)
    case Err(MapFailed) => !Taken(pages0, ts, Key(p)) && !lets(p)
    case Err(_) => false
  }

  ghost predicate PagesFine(pages0: map<nat, UPage>, free0: nat, lets: nat -> bool, ts: seq<Part>, s: Seg) {
    forall p: nat :: Covers(Whole(s), p) ==> PageFine(pages0, free0, lets, Grow(ts, s, p * PAGE), s, p)
  }

  ghost predicate PageBlamed(r: Outcome, pages0: map<nat, UPage>, free0: nat, lets: nat -> bool, ts: seq<Part>, s: Seg) {
    exists p: nat :: Covers(Whole(s), p) && Blamed(r, pages0, free0, lets, Grow(ts, s, p * PAGE), s, p)
  }

  ghost predicate SegmentFine(pages0: map<nat, UPage>, free0: nat, lets: nat -> bool, ts: seq<Part>, s: Seg) {
    Fits(s) && PagesFine(pages0, free0, lets, ts, s)
  }

  ghost predicate SegmentBlamed(r: Outcome, pages0: map<nat, UPage>, free0: nat, lets: nat -> bool, ts: seq<Part>, s: Seg) {
    (r == Err(MapFailed) && !Fits(s)) || PageBlamed(r, pages0, free0, lets, ts, s)
  }

  /** Every page of every segment goes through, on top of everything before it. */
  ghost predicate AllFine(pages0: map<nat, UPage>, free0: nat, lets: nat -> bool, phdrs: seq<Phdr>, bias: nat) {
    forall i :: 0 <= i < |phdrs| && Loads(phdrs[i]) ==>
      SegmentFine(pages0, free0, lets, PartsOf(phdrs[..i], bias), At(phdrs[i], bias))
  }

  ghost predicate SomeBlamed(r: Outcome, pages0: map<nat, UPage>, free0: nat, lets: nat -> bool, phdrs: seq<Phdr>, bias: nat) {
    exists i :: 0 <= i < |phdrs| && Loads(phdrs[i])
                && SegmentBlamed(r, pages0, free0, lets, PartsOf(phdrs[..i], bias), At(phdrs[i], bias))
  }

  /** The same on the tables as they are. */
  predicate FineNow(pages: map<nat, UPage>, free: nat, lets: nat -> bool, s: Seg, p: nat) {
    && free > 0
    && if Key(p) in pages
       then Canonical(p) && !Both(pages[Key(p)].w || s.w, pages[Key(p)].x || s.x)
       else lets(p)
  }

  predicate BlamedNow(r: Outcome, pages: map<nat, UPage>, free: nat, lets: nat -> bool, s: Seg, p: nat) {
    match r
    case Ok => false
    case Panic => Key(p) in pages && !Canonical(p)
    case Err(OutOfMemory) => free == 0
    case Err(WxSegment) => Key(p) in pages && Both(pages[Key(p)].w || s.w, pages[Key(p)].x || s.x)
    case Err(MapFailed) => Key(p) !in pages && !lets(p)
    case Err(_) => false
  }

  lemma NewKeysCount(pages0: map<nat, UPage>, pages: map<nat, UPage>, ts: seq<Part>)
    requires Mapped(pages0, pages, ts)
    ensures |pages| == |pages0| + |NewKeys(pages0, ts)|
  {
    hide CoveredBy;
    forall k: nat | CoveredBy(ts, k) ensures k < KEYS { CoveredKey(ts, k); }
    assert pages.Keys == pages0.Keys + NewKeys(pages0, ts);
    assert |pages.Keys| == |pages| && |pages0.Keys| == |pages0|;
  }

  lemma CoveredKey(ts: seq<Part>, k: nat)
    requires CoveredBy(ts, k)
    ensures k < KEYS
  {
    hide Covers;
    var i :| 0 <= i < |ts| && CoversKey(ts[i], k);
    var p: nat :| Covers(ts[i], p) && Key(p) == k;
  }

  /** What the tables show is what the parts laid so far say. */
  lemma FineIs(pages0: map<nat, UPage>, free0: nat, pages: map<nat, UPage>, free: nat, lets: nat -> bool, ts: seq<Part>, s: Seg, p: nat, r: Outcome)
    requires Mapped(pages0, pages, ts) && Permitted(pages0, pages, ts) && free + |pages| == free0 + |pages0|
    ensures FineNow(pages, free, lets, s, p) <==> PageFine(pages0, free0, lets, ts, s, p)
    ensures BlamedNow(r, pages, free, lets, s, p) ==> Blamed(r, pages0, free0, lets, ts, s, p)
  {
    hide CoveredBy, SomeW, SomeX, NewKeys, Canonical, Key;
    NewKeysCount(pages0, pages, ts);
  }

  lemma StepFine(pages0: map<nat, UPage>, free0: nat, pages: map<nat, UPage>, free: nat, lets: nat -> bool,
                 data: seq<byte>, ts: seq<Part>, s: Seg, p: nat, r: Outcome)
    requires Exact(pages0, pages, data, Grow(ts, s, p * PAGE)) && free + |pages| == free0 + |pages0|
    requires (r == Ok <==> FineNow(pages, free, lets, s, p)) && (r != Ok ==> BlamedNow(r, pages, free, lets, s, p))
    ensures r == Ok <==> PageFine(pages0, free0, lets, Grow(ts, s, p * PAGE), s, p)
    ensures r != Ok ==> Blamed(r, pages0, free0, lets, Grow(ts, s, p * PAGE), s, p)
    ensures r == Panic ==> !Canonical(p)
  {
    hide Mapped, Permitted, Filled, Grow, Canonical, Key, FineNow, PageFine, Blamed;
    FineIs(pages0, free0, pages, free, lets, Grow(ts, s, p * PAGE), s, p, r);
  }

  lemma GrowWhole(ts: seq<Part>, s: Seg)
    ensures Grow(ts, s, PageUp(s.v + s.memsz)) == ts + [Whole(s)]
  {
  }

  lemma NothingYet(pages: map<nat, UPage>, added: seq<nat>, t: Part)
    ensures AddedOnly(added, added, t) && KeptOutside(pages, pages, [t])
  {
    hide CoveredBy;
  }

  lemma RangeCovers(s: Seg, first: nat, last: nat)
    requires first * PAGE == PageDown(s.v) && last * PAGE == PageUp(s.v + s.memsz)
    ensures forall p: nat :: Covers(Whole(s), p) ==> first <= p < last
  {
  }

  lemma LaidNew(data: seq<byte>, s: Seg, p: nat, pages: map<nat, UPage>, frame: Page)
    requires InFile(data, s) && Key(p) !in pages && !(s.w && s.x)
    requires forall o :: 0 <= o < PAGE ==> frame[o] == if HasFile(s, Addr(p, o)) then FileByte(data, s, Addr(p, o)) else 0
    ensures Laid(data, s, p, pages, UPage(frame, s.w, s.x))
  {
    hide HasFile, FileByte, InFile, Key;
  }

  lemma LaidOver(data: seq<byte>, s: Seg, p: nat, pages: map<nat, UPage>, bytes: Page)
    requires InFile(data, s) && Key(p) in pages && !Both(pages[Key(p)].w || s.w, pages[Key(p)].x || s.x)
    requires forall o :: 0 <= o < PAGE ==>
               bytes[o] == if HasFile(s, Addr(p, o)) then FileByte(data, s, Addr(p, o)) else pages[Key(p)].bytes[o]
    ensures Laid(data, s, p, pages, UPage(bytes, pages[Key(p)].w || s.w, pages[Key(p)].x || s.x))
  {
    hide HasFile, FileByte, InFile, Key;
  }

  class AddressSpace {
    /** What each entry of the tables maps. */
    var pages: map<nat, UPage>
    var free: nat
    /** The pages to undo on failure. */
    var added: seq<nat>

    /** One page of a segment: a new frame, or the page the entry has already. */
    method MapOne(data: seq<byte>, s: Seg, p: nat, lets: nat -> bool, ghost pages0: map<nat, UPage>) returns (r: Outcome)
      requires InFile(data, s) && !(s.w && s.x) && Undoable(pages0, pages, added)
      modifies this
      ensures Undoable(pages0, pages, added) && free + |added| == old(free + |added|)
      ensures forall k :: k != Key(p) ==> (k in pages <==> k in old(pages)) && (k in pages ==> pages[k] == old(pages)[k])
      ensures forall n :: |old(added)| <= n < |added| ==> added[n] == p
      ensures |added| >= |old(added)| && added[..|old(added)|] == old(added)
      ensures r == Ok ==> Key(p) in pages && pages == old(pages)[Key(p) := pages[Key(p)]] && Laid(data, s, p, old(pages), pages[Key(p)])
      ensures r == Ok <==> FineNow(old(pages), old(free), lets, s, p)
      ensures r != Ok ==> BlamedNow(r, old(pages), old(free), lets, s, p)
      ensures free + |pages| == old(free + |pages|)
    {
      hide HasFile, FileByte, InFile, Key, Canonical, Undoable, Laid;
      if free == 0 {
        return Err(OutOfMemory);
      }
      var frame := FillFrame(data, s, p);
      var key := Key(p);
      if key in pages {
        var was := pages[key];
        var bytes := Overlay(was.bytes, data, s, p);
        UndoOver(pages0, pages, added, key, was.(bytes := bytes));
        pages := pages[key := was.(bytes := bytes)];
        if (was.w || s.w) && (was.x || s.x) {
          return Err(WxSegment);
        }
        if !Canonical(p) {
          return Panic;
        }
        // The tables are there, so mapping again cannot fail.
        LaidOver(data, s, p, old(pages), bytes);
        UndoOver(pages0, pages, added, key, UPage(bytes, was.w || s.w, was.x || s.x));
        pages := pages[key := UPage(bytes, was.w || s.w, was.x || s.x)];
      } else {
        if !lets(p) {
          return Err(MapFailed);
        }
        LaidNew(data, s, p, pages, frame);
        UndoNew(pages0, pages, added, p, UPage(frame, s.w, s.x));
        pages := pages[key := UPage(frame, s.w, s.x)];
        added, free := added + [p], free - 1;
      }
      r := Ok;
    }

    /** The pages of a segment, one by one. */
    method MapPages(data: seq<byte>, s: Seg, lets: nat -> bool, ghost ts: seq<Part>, ghost pages0: map<nat, UPage>, ghost free0: nat)
      returns (r: Outcome)
      requires InFile(data, s) && s.memsz > 0 && !(s.w && s.x)
      requires Undoable(pages0, pages, added) && free + |pages| == free0 + |pages0| && Exact(pages0, pages, data, ts)
      modifies this
      ensures Undoable(pages0, pages, added) && free + |added| == old(free + |added|) && free + |pages| == free0 + |pages0|
      ensures AddedOnly(old(added), added, Whole(s)) && KeptOutside(old(pages), pages, [Whole(s)])
      ensures r == Ok ==> Exact(pages0, pages, data, ts + [Whole(s)])
      ensures r == Panic ==> exists p: nat :: Covers(Whole(s), p) && !Canonical(p)
      ensures r == Ok <==> PagesFine(pages0, free0, lets, ts, s)
      ensures r != Ok ==> PageBlamed(r, pages0, free0, lets, ts, s)
    {
      hide Exact, Laid, InFile, Key, Canonical, Undoable, PageFine, Blamed, FineNow, BlamedNow, Grow, Covers, PageUp, PageDown, KeptOutside, AddedOnly;
      ghost var t := Whole(s);
      var first, last := PageDown(s.v) / PAGE, PageUp(s.v + s.memsz) / PAGE;
      PageBounds(s);
      RangeCovers(s, first, last);
      StartSegment(pages0, pages, data, ts, s);
      NothingYet(pages, added, t);
      for p := first to last
        invariant Undoable(pages0, pages, added) && free + |added| == old(free + |added|)
        invariant AddedOnly(old(added), added, t) && KeptOutside(old(pages), pages, [t])
        invariant Exact(pages0, pages, data, Grow(ts, s, p * PAGE)) && free + |pages| == free0 + |pages0|
        invariant forall q: nat :: first <= q < p ==> PageFine(pages0, free0, lets, Grow(ts, s, q * PAGE), s, q)
      {
        ghost var before, had, left := pages, added, free;
        assert Covers(t, p);
        r := MapOne(data, s, p, lets, pages0);
        StepFine(pages0, free0, before, left, lets, data, ts, s, p, r);
        AddedMore(old(added), had, added, t, p);
        KeptStep(old(pages), before, pages, t, p);
        if r != Ok {
          return;
        }
        StepExact(pages0, before, data, ts, s, p, pages[Key(p)]);
      }
      GrowWhole(ts, s);
      return Ok;
    }

    /** `map_load_segment`. */
    method MapSegment(data: seq<byte>, ph: Phdr, bias: u64, lets: nat -> bool,
                      ghost ts: seq<Part>, ghost pages0: map<nat, UPage>, ghost free0: nat) returns (r: Outcome)
      requires ph.load && HeaderOk(|data|, ph) && Undoable(pages0, pages, added) && free + |pages| == free0 + |pages0|
      requires Exact(pages0, pages, data, ts) && (Loads(ph) ==> !(ph.w && ph.x))
      modifies this
      ensures Undoable(pages0, pages, added) && free + |added| == old(free + |added|) && free + |pages| == free0 + |pages0|
      ensures AddedOnly(old(added), added, Whole(At(ph, bias)))
      ensures KeptOutside(old(pages), pages, [Whole(At(ph, bias))])
      ensures r == Ok ==> Exact(pages0, pages, data, if ph.memsz > 0 then ts + [Whole(At(ph, bias))] else ts)
      ensures r == Panic ==> ph.memsz > 0 && exists p: nat :: Covers(Whole(At(ph, bias)), p) && !Canonical(p)
      ensures ph.memsz == 0 ==> pages == old(pages) && added == old(added)
      ensures r == Ok <==> ph.memsz == 0 || SegmentFine(pages0, free0, lets, ts, At(ph, bias))
      ensures r != Ok ==> SegmentBlamed(r, pages0, free0, lets, ts, At(ph, bias))
    {
      hide Exact, InFile, Canonical, Undoable, PagesFine, PageBlamed, Covers, Whole, KeptOutside, AddedOnly;
      var s := At(ph, bias);
      NothingYet(pages, added, Whole(s));
      if ph.memsz == 0 {
        return Ok;
      }
      if s.v >= U64 || s.v + s.memsz >= U64 || s.v + s.memsz + (PAGE - 1) >= U64 {
        return Err(MapFailed);
      }
      SegInFile(data, ph, bias);
      r := MapPages(data, s, lets, ts, pages0, free0);
    }

    /** `map_all_segments`. */
    method MapAll(data: seq<byte>, phdrs: seq<Phdr>, bias: u64, lets: nat -> bool) returns (r: Outcome)
      requires added == []
      requires forall i :: 0 <= i < |phdrs| ==> HeaderOk(|data|, phdrs[i])
      requires NoWx(phdrs, |phdrs|)
      modifies this
      ensures Undoable(old(pages), pages, added) && free + |added| == old(free)
      ensures KeptOutside(old(pages), pages, PartsOf(phdrs, bias)) && AddedBy(added, PartsOf(phdrs, bias))
      ensures r == Ok ==> Exact(old(pages), pages, data, PartsOf(phdrs, bias))
      ensures r == Panic ==> OddPage(PartsOf(phdrs, bias))
      ensures r == Ok <==> AllFine(old(pages), old(free), lets, phdrs, bias)
      ensures r != Ok ==> SomeBlamed(r, old(pages), old(free), lets, phdrs, bias)
    {
      hide Exact, PartsOf, Undoable, KeptOutside, OddPage, AddedBy, SegmentFine, SegmentBlamed;
      NothingLaid(pages, data);
      PartsNone(bias);
      StartAll(pages);
      for i := 0 to |phdrs|
        invariant Undoable(old(pages), pages, added) && free + |added| == old(free)
        invariant KeptOutside(old(pages), pages, PartsOf(phdrs[..i], bias)) && AddedBy(added, PartsOf(phdrs[..i], bias))
        invariant Exact(old(pages), pages, data, PartsOf(phdrs[..i], bias)) && free + |pages| == old(free + |pages|)
        invariant forall j :: 0 <= j < i && Loads(phdrs[j]) ==>
                    SegmentFine(old(pages), old(free), lets, PartsOf(phdrs[..j], bias), At(phdrs[j], bias))
      {
        PartsSnoc(phdrs, bias, i);
        if phdrs[i].load {
          ghost var before, had := pages, added;
          r := MapSegment(data, phdrs[i], bias, lets, PartsOf(phdrs[..i], bias), old(pages), old(free));
          KeptAll(old(pages), before, pages, had, added, phdrs, bias, i);
          if r != Ok {
            if r == Panic { OddLater(phdrs, bias, i); }
            return;
          }
        }
      }
      assert phdrs[..|phdrs|] == phdrs;
      return Ok;
    }

    /** `rollback`: what was mapped before is mapped as it is now, nothing else is, and every frame is back. */
    method Rollback(ghost pages0: map<nat, UPage>) returns (panic: bool)
      requires Undoable(pages0, pages, added)
      modifies this
      ensures panic ==> exists n :: 0 <= n < |old(added)| && !Canonical(old(added)[n])
      ensures !panic ==> pages.Keys == pages0.Keys && added == [] && free == old(free + |added|)
      ensures forall k :: k in pages0 ==> k in pages && pages[k] == old(pages)[k]
    {
      hide Canonical, Key;
      var n := 0;
      while n < |added|
        invariant 0 <= n <= |added| && added == old(added) && free == old(free) + n
        invariant forall k :: k in pages ==> k in old(pages) && pages[k] == old(pages)[k]
        invariant forall k :: k in pages0 ==> k in pages
        invariant forall k, m :: 0 <= m < n && Key(added[m]) == k ==> k !in pages
      {
        if Key(added[n]) in pages {
          if !Canonical(added[n]) {
            return true;
          }
          pages := pages - {Key(added[n])};
        }
        free, n := free + 1, n + 1;
      }
      added := [];
      assert pages.Keys == pages0.Keys;
      return false;
    }

    /** Check, map, and undo on failure. */
    method Load(data: seq<byte>, phdrs: seq<Phdr>, bias: u64, lets: nat -> bool) returns (r: Outcome)
      requires added == [] && |data| < U64
      modifies this
      ensures r == Ok ==> Exact(old(pages), pages, data, PartsOf(phdrs, bias)) && Accepted(data, phdrs)
      ensures r.Err? ==> pages.Keys == old(pages).Keys && free == old(free) && added == []
      ensures r.Err? ==> forall k :: k in pages && !CoveredBy(PartsOf(phdrs, bias), k) ==> pages[k] == old(pages)[k]
      ensures r == Panic ==> OddPage(PartsOf(phdrs, bias))
      ensures r == Ok <==>
                |data| <= MAX_ELF_SIZE && Accepted(data, phdrs) && AllFine(old(pages), old(free), lets, phdrs, bias)
      ensures r.Err? && |data| <= MAX_ELF_SIZE && Accepted(data, phdrs) ==>
                SomeBlamed(r, old(pages), old(free), lets, phdrs, bias)
    {
      hide Exact, PartsOf, Separate, NoWx, Undoable, OddPage, CoveredBy, AddedBy, SegmentFine, SegmentBlamed, AllFine, SomeBlamed;
      if |data| > MAX_ELF_SIZE {
        return Err(FileTooLarge);
      }
      r := Parse(|data|, phdrs);
      if r != Ok {
        return;
      }
      r := CheckOverlaps(phdrs);
      if r != Ok {
        return;
      }
      r := MapAll(data, phdrs, bias, lets);
      if r.Err? {
        ghost var had := added;
        var panic := Rollback(old(pages));
        if panic {
          OddAdded(had, PartsOf(phdrs, bias));
          r := Panic;
        }
      }
    }
  }

  /** Some page's address is no address to the processor. */
  ghost predicate OddPage(ts: seq<Part>) { exists i, p: nat :: 0 <= i < |ts| && Covers(ts[i], p) && !Canonical(p) }

  ghost predicate AddedOnly(had: seq<nat>, added: seq<nat>, t: Part) {
    && |added| >= |had| && added[..|had|] == had
    && forall n :: |had| <= n < |added| ==> Covers(t, added[n])
  }

  ghost predicate OnPage(ts: seq<Part>, p: nat) { exists i :: 0 <= i < |ts| && Covers(ts[i], p) }

  ghost predicate AddedBy(added: seq<nat>, ts: seq<Part>) { forall n :: 0 <= n < |added| ==> OnPage(ts, added[n]) }

  ghost predicate Accepted(data: seq<byte>, phdrs: seq<Phdr>) {
    && (forall i :: 0 <= i < |phdrs| ==> HeaderOk(|data|, phdrs[i])) && (exists i :: 0 <= i < |phdrs| && phdrs[i].load)
    && NoWx(phdrs, |phdrs|) && Separate(phdrs, |phdrs|)
  }

  lemma AddedMore(had0: seq<nat>, had: seq<nat>, added: seq<nat>, t: Part, p: nat)
    requires AddedOnly(had0, had, t) && Covers(t, p)
    requires |added| >= |had| && added[..|had|] == had && forall n :: |had| <= n < |added| ==> added[n] == p
    ensures AddedOnly(had0, added, t)
  {
    hide Covers;
    assert added[..|had0|] == added[..|had|][..|had0|];
    forall n | |had0| <= n < |added| ensures Covers(t, added[n]) {
      if n < |had| { assert added[n] == added[..|had|][n]; }
    }
  }

  lemma KeptStep(pages0: map<nat, UPage>, before: map<nat, UPage>, pages: map<nat, UPage>, t: Part, p: nat)
    requires KeptOutside(pages0, before, [t]) && Covers(t, p)
    requires forall k :: k != Key(p) ==> (k in pages <==> k in before) && (k in pages ==> pages[k] == before[k])
    ensures KeptOutside(pages0, pages, [t])
  {
    hide Covers, Key;
    assert CoversKey([t][0], Key(p));
    assert CoveredBy([t], Key(p));
    hide CoveredBy;
  }

  lemma StartAll(pages: map<nat, UPage>)
    ensures Undoable(pages, pages, []) && KeptOutside(pages, pages, []) && AddedBy([], [])
  {
  }

  lemma KeptAll(pages0: map<nat, UPage>, before: map<nat, UPage>, pages: map<nat, UPage>, had: seq<nat>, added: seq<nat>,
                phdrs: seq<Phdr>, bias: nat, i: nat)
    requires i < |phdrs| && phdrs[i].load && KeptOutside(pages0, before, PartsOf(phdrs[..i], bias)) && AddedBy(had, PartsOf(phdrs[..i], bias))
    requires AddedOnly(had, added, Whole(At(phdrs[i], bias))) && KeptOutside(before, pages, [Whole(At(phdrs[i], bias))])
    requires phdrs[i].memsz == 0 ==> pages == before && added == had
    ensures KeptOutside(pages0, pages, PartsOf(phdrs, bias)) && AddedBy(added, PartsOf(phdrs, bias))
    ensures KeptOutside(pages0, pages, PartsOf(phdrs[..i + 1], bias)) && AddedBy(added, PartsOf(phdrs[..i + 1], bias))
  {
    hide Whole, At, PartsOf;
    var ts, t, us := PartsOf(phdrs[..i], bias), Whole(At(phdrs[i], bias)), PartsOf(phdrs[..i + 1], bias);
    PartsSnoc(phdrs, bias, i);
    PartsPrefix(phdrs, bias, i + 1);
    KeptTwice(pages0, before, pages, ts, t, us);
    KeptMore(pages0, pages, us, PartsOf(phdrs, bias));
    AddedTwice(had, added, ts, t, us);
    AddedFurther(added, us, PartsOf(phdrs, bias));
  }

  lemma {:induction false} PartsPrefix(phdrs: seq<Phdr>, bias: nat, n: nat)
    requires n <= |phdrs|
    ensures forall i :: 0 <= i < |PartsOf(phdrs[..n], bias)| ==> PartsOf(phdrs[..n], bias)[i] in PartsOf(phdrs, bias)
    decreases |phdrs|
  {
    if n < |phdrs| {
      var front := phdrs[..|phdrs| - 1];
      assert front[..n] == phdrs[..n];
      PartsPrefix(front, bias, n);
    } else {
      assert phdrs[..n] == phdrs;
    }
  }

  lemma KeptTwice(pages0: map<nat, UPage>, before: map<nat, UPage>, pages: map<nat, UPage>, ts: seq<Part>, t: Part, us: seq<Part>)
    requires KeptOutside(pages0, before, ts) && (us == ts + [t] || (us == ts && pages == before)) && KeptOutside(before, pages, [t])
    ensures KeptOutside(pages0, pages, us)
  {
    hide CoveredBy;
    KeptMore(pages0, before, ts, us);
    if us == ts + [t] { KeptMore(before, pages, [t], us); }
  }

  lemma AddedTwice(had: seq<nat>, added: seq<nat>, ts: seq<Part>, t: Part, us: seq<Part>)
    requires AddedBy(had, ts) && (us == ts + [t] || (us == ts && added == had)) && AddedOnly(had, added, t)
    ensures AddedBy(added, us)
  {
    hide Covers;
    forall n | 0 <= n < |added| ensures OnPage(us, added[n]) {
      if n < |had| {
        assert added[n] == added[..|had|][n];
        var i :| 0 <= i < |ts| && Covers(ts[i], had[n]);
        assert us[i] == ts[i];
      } else {
        assert us[|us| - 1] == t;
      }
    }
  }

  lemma AddedFurther(added: seq<nat>, ts: seq<Part>, us: seq<Part>)
    requires AddedBy(added, ts) && forall i :: 0 <= i < |ts| ==> ts[i] in us
    ensures AddedBy(added, us)
  {
    hide Covers;
    forall n | 0 <= n < |added| ensures OnPage(us, added[n]) {
      var i :| 0 <= i < |ts| && Covers(ts[i], added[n]);
      var j :| 0 <= j < |us| && us[j] == ts[i];
    }
  }

  lemma OddLater(phdrs: seq<Phdr>, bias: nat, i: nat)
    requires i < |phdrs| && Loads(phdrs[i]) && exists p: nat :: Covers(Whole(At(phdrs[i], bias)), p) && !Canonical(p)
    ensures OddPage(PartsOf(phdrs, bias))
  {
    hide Covers, Canonical;
    var k := PartFor(phdrs, bias, i);
    var p: nat :| Covers(Whole(At(phdrs[i], bias)), p) && !Canonical(p);
    assert Covers(PartsOf(phdrs, bias)[k], p);
  }

  lemma OddAdded(added: seq<nat>, ts: seq<Part>)
    requires AddedBy(added, ts) && exists n :: 0 <= n < |added| && !Canonical(added[n])
    ensures OddPage(ts)
  {
    hide Covers, Canonical;
    var n :| 0 <= n < |added| && !Canonical(added[n]);
    var i :| 0 <= i < |ts| && Covers(ts[i], added[n]);
  }

  lemma PageBounds(s: Seg)
    requires s.memsz > 0
    ensures var first, last := PageDown(s.v) / PAGE, PageUp(s.v + s.memsz) / PAGE;
            && first < last && first * PAGE == PageDown(s.v) && last * PAGE == PageUp(s.v + s.memsz)
            && forall p :: first <= p < last ==> Covers(Whole(s), p)
  {
  }

  lemma SegInFile(data: seq<byte>, ph: Phdr, bias: nat)
    requires HeaderOk(|data|, ph)
    ensures InFile(data, At(ph, bias))
  {
  }

  // ---------------------------------------------------------------- what a loaded program sees

  predicate InSeg(s: Seg, a: nat) { s.v <= a < s.v + s.memsz }

  /** The program image: the file byte, or zero behind the file part. */
  function Intended(data: seq<byte>, s: Seg, a: nat): byte
    requires InFile(data, s)
  {
    if HasFile(s, a) then FileByte(data, s, a) else 0
  }

  predicate ReadsAs(pages: map<nat, UPage>, a: nat, b: byte) { Key(a / PAGE) in pages && pages[Key(a / PAGE)].bytes[a % PAGE] == b }

  /** Every byte of every segment reads as it should. */
  ghost predicate ImageRight(pages: map<nat, UPage>, data: seq<byte>, ts: seq<Part>)
    requires AllInFile(data, ts)
  {
    forall i, a: nat :: 0 <= i < |ts| && InSeg(ts[i].s, a) ==> ReadsAs(pages, a, Intended(data, ts[i].s, a))
  }

  /** Two addresses the tables cannot tell apart. */
  predicate Alias(a: nat, b: nat) { Key(a / PAGE) == Key(b / PAGE) && a % PAGE == b % PAGE }

  /** What lies behind one entry is asked to be the same byte by everyone who writes it... */
  ghost predicate WritersAgree(data: seq<byte>, ts: seq<Part>)
    requires AllInFile(data, ts)
  {
    forall i, a: nat, j, b: nat :: 0 <= i < |ts| && InSeg(ts[i].s, a) && 0 <= j < |ts| && HasFile(ts[j].s, b) && Alias(a, b) ==>
      FileByte(data, ts[j].s, b) == Intended(data, ts[i].s, a)
  }

  ghost predicate NobodyWrites(ts: seq<Part>, a: nat) { forall j, b: nat :: 0 <= j < |ts| && HasFile(ts[j].s, b) ==> !Alias(a, b) }

  /** ... and was zero before where nobody writes. */
  ghost predicate BlankWasZero(pages0: map<nat, UPage>, ts: seq<Part>) {
    forall i, a: nat :: 0 <= i < |ts| && InSeg(ts[i].s, a) && NobodyWrites(ts, a) ==> Base(pages0, Key(a / PAGE), a % PAGE) == 0
  }

  /** Every part reaches the end of its segment. */
  ghost predicate AllWhole(ts: seq<Part>) { forall i :: 0 <= i < |ts| ==> ts[i] == Whole(ts[i].s) }

  lemma PartsAreWhole(phdrs: seq<Phdr>, bias: nat)
    ensures AllWhole(PartsOf(phdrs, bias))
  {
    hide Whole;
    forall k | 0 <= k < |PartsOf(phdrs, bias)| ensures PartsOf(phdrs, bias)[k] == Whole(PartsOf(phdrs, bias)[k].s) {
      var i := PartFrom(phdrs, bias, k);
      WholeIs(At(phdrs[i], bias));
    }
  }

  lemma WholeIs(s: Seg)
    ensures Whole(s).s == s
  {
  }

  lemma InPart(s: Seg, a: nat)
    requires InSeg(s, a)
    ensures Covers(Whole(s), a / PAGE) && a < Whole(s).end && Addr(a / PAGE, a % PAGE) == a
  {
  }

  lemma WrittenFully(ts: seq<Part>, j: nat, b: nat, k: nat, o: nat)
    requires AllWhole(ts) && j < |ts| && HasFile(ts[j].s, b) && ts[j].s.filesz <= ts[j].s.memsz && Key(b / PAGE) == k && b % PAGE == o
    ensures Writer(ts, k, o, j, b / PAGE) && Addr(b / PAGE, o) == b
  {
    hide Key;
    InPart(ts[j].s, b);
  }

  lemma WriterIsFile(ts: seq<Part>, k: nat, o: nat, j: nat, p: nat)
    requires o < PAGE
    ensures Writer(ts, k, o, j, p) ==> HasFile(ts[j].s, Addr(p, o)) && Addr(p, o) / PAGE == p && Addr(p, o) % PAGE == o && Key(p) == k
  {
    hide Key;
  }

  lemma SegmentMapped(pages0: map<nat, UPage>, pages: map<nat, UPage>, ts: seq<Part>, i: nat, a: nat)
    requires Mapped(pages0, pages, ts) && AllWhole(ts) && i < |ts| && InSeg(ts[i].s, a)
    ensures Key(a / PAGE) in pages
  {
    hide Key;
    InPart(ts[i].s, a);
    hide Covers, Whole;
    assert CoversKey(ts[i], Key(a / PAGE));
  }

  /** If everyone agrees, every byte is right. */
  lemma AgreedIsRight(pages0: map<nat, UPage>, pages: map<nat, UPage>, data: seq<byte>, ts: seq<Part>, i: nat, a: nat)
    requires Exact(pages0, pages, data, ts) && AllWhole(ts) && WritersAgree(data, ts) && BlankWasZero(pages0, ts)
    requires i < |ts| && InSeg(ts[i].s, a)
    ensures ReadsAs(pages, a, Intended(data, ts[i].s, a))
  {
    hide Key, InFile, Permitted, Covers, Whole, CoveredBy;
    SegmentMapped(pages0, pages, ts, i, a);
    var k, o := Key(a / PAGE), a % PAGE;
    var b := pages[k].bytes[o];
    assert CellOk(pages0, data, ts, k, o, b);
    if NoWriter(ts, k, o) && b == Base(pages0, k, o) {
      forall j, c: nat | 0 <= j < |ts| && HasFile(ts[j].s, c) ensures !Alias(a, c) {
        if Alias(a, c) { WrittenHere(data, ts, j, c, k, o); }
      }
      assert NobodyWrites(ts, a);
      assert Alias(a, a);
    } else {
      var j: nat, p: nat :| Writer(ts, k, o, j, p) && FileByte(data, ts[j].s, Addr(p, o)) == b;
      WriterIsFile(ts, k, o, j, p);
      assert Alias(a, Addr(p, o));
    }
  }

  lemma WrittenHere(data: seq<byte>, ts: seq<Part>, j: nat, c: nat, k: nat, o: nat)
    requires AllInFile(data, ts) && AllWhole(ts) && j < |ts| && HasFile(ts[j].s, c) && Key(c / PAGE) == k && c % PAGE == o
    ensures !NoWriter(ts, k, o)
  {
    hide Key, Whole, Writer;
    WrittenFully(ts, j, c, k, o);
  }

  /** If every byte is right, everyone agreed. */
  lemma RightIsAgreed(pages0: map<nat, UPage>, pages: map<nat, UPage>, data: seq<byte>, ts: seq<Part>)
    requires Exact(pages0, pages, data, ts) && AllWhole(ts) && ImageRight(pages, data, ts)
    ensures WritersAgree(data, ts) && BlankWasZero(pages0, ts)
  {
    hide Key, Permitted, Covers, Whole, CoveredBy, Mapped;
    forall i, a: nat, j, b: nat | 0 <= i < |ts| && InSeg(ts[i].s, a) && 0 <= j < |ts| && HasFile(ts[j].s, b) && Alias(a, b)
      ensures FileByte(data, ts[j].s, b) == Intended(data, ts[i].s, a)
    {
      assert InSeg(ts[j].s, b);
      assert ReadsAs(pages, a, Intended(data, ts[i].s, a)) && ReadsAs(pages, b, Intended(data, ts[j].s, b));
    }
    forall i, a: nat | 0 <= i < |ts| && InSeg(ts[i].s, a) && NobodyWrites(ts, a) ensures Base(pages0, Key(a / PAGE), a % PAGE) == 0 {
      BlankIsBase(pages0, pages, data, ts, i, a);
    }
  }

  lemma BlankIsBase(pages0: map<nat, UPage>, pages: map<nat, UPage>, data: seq<byte>, ts: seq<Part>, i: nat, a: nat)
    requires Exact(pages0, pages, data, ts) && i < |ts| && InSeg(ts[i].s, a) && NobodyWrites(ts, a)
    requires ReadsAs(pages, a, Intended(data, ts[i].s, a))
    ensures Base(pages0, Key(a / PAGE), a % PAGE) == 0
  {
    hide Key, Permitted, Covers, CoveredBy, Mapped, InFile;
    var k, o := Key(a / PAGE), a % PAGE;
    assert CellOk(pages0, data, ts, k, o, pages[k].bytes[o]);
    assert Alias(a, a);
    forall j: nat, p: nat ensures !Writer(ts, k, o, j, p) {
      WriterIsFile(ts, k, o, j, p);
      assert Writer(ts, k, o, j, p) ==> Alias(a, Addr(p, o));
    }
  }

  /** The mapped image is the program's exactly when addresses the tables confuse ask for the same bytes and what was
      mapped before is zero where no file byte goes. */
  lemma ImageRightIff(pages0: map<nat, UPage>, pages: map<nat, UPage>, data: seq<byte>, phdrs: seq<Phdr>, bias: nat)
    requires Exact(pages0, pages, data, PartsOf(phdrs, bias))
    ensures ImageRight(pages, data, PartsOf(phdrs, bias)) <==>
            WritersAgree(data, PartsOf(phdrs, bias)) && BlankWasZero(pages0, PartsOf(phdrs, bias))
  {
    hide Mapped, Filled, Permitted, PartsOf, WritersAgree, BlankWasZero, InSeg;
    var ts := PartsOf(phdrs, bias);
    PartsAreWhole(phdrs, bias);
    if WritersAgree(data, ts) && BlankWasZero(pages0, ts) {
      forall i, a: nat | 0 <= i < |ts| && InSeg(ts[i].s, a) ensures ReadsAs(pages, a, Intended(data, ts[i].s, a)) {
        AgreedIsRight(pages0, pages, data, ts, i, a);
      }
    }
    if ImageRight(pages, data, ts) { RightIsAgreed(pages0, pages, data, ts); }
  }

  /** No two addresses of the image are confused, and no page of it was mapped before. */
  ghost predicate OwnPages(pages0: map<nat, UPage>, ts: seq<Part>) {
    && (forall i, p: nat :: 0 <= i < |ts| && Covers(ts[i], p) ==> Key(p) !in pages0)
    && (forall i, p: nat, j, q: nat :: 0 <= i < |ts| && Covers(ts[i], p) && 0 <= j < |ts| && Covers(ts[j], q) && Key(p) == Key(q) ==> p == q)
  }

  ghost predicate SegsApart(ts: seq<Part>) {
    forall i, j, a: nat :: 0 <= i < |ts| && 0 <= j < |ts| && InSeg(ts[i].s, a) && InSeg(ts[j].s, a) ==> ts[i].s == ts[j].s
  }

  lemma SeparateApart(phdrs: seq<Phdr>, bias: nat, i: nat, j: nat, a: nat)
    requires Separate(phdrs, |phdrs|) && i < |phdrs| && j < |phdrs| && Loads(phdrs[i]) && Loads(phdrs[j])
    ensures InSeg(At(phdrs[i], bias), a) && InSeg(At(phdrs[j], bias), a) ==> i == j
  {
    assert i < j ==> Apart(phdrs[i], phdrs[j]);
    assert j < i ==> Apart(phdrs[j], phdrs[i]);
  }

  lemma PartsApart(phdrs: seq<Phdr>, bias: nat)
    requires Separate(phdrs, |phdrs|)
    ensures SegsApart(PartsOf(phdrs, bias))
  {
    hide Whole, Separate, InSeg, At;
    var ts := PartsOf(phdrs, bias);
    forall i, j, a: nat | 0 <= i < |ts| && 0 <= j < |ts| && InSeg(ts[i].s, a) && InSeg(ts[j].s, a) ensures ts[i].s == ts[j].s {
      var k := PartFrom(phdrs, bias, i);
      var l := PartFrom(phdrs, bias, j);
      WholeIs(At(phdrs[k], bias));
      WholeIs(At(phdrs[l], bias));
      SeparateApart(phdrs, bias, k, l, a);
    }
  }

  lemma OwnAgree(pages0: map<nat, UPage>, data: seq<byte>, ts: seq<Part>)
    requires AllInFile(data, ts) && AllWhole(ts) && SegsApart(ts) && OwnPages(pages0, ts)
    ensures WritersAgree(data, ts) && BlankWasZero(pages0, ts)
  {
    hide Key, Covers, Whole;
    forall i, a: nat, j, b: nat | 0 <= i < |ts| && InSeg(ts[i].s, a) && 0 <= j < |ts| && HasFile(ts[j].s, b) && Alias(a, b)
      ensures FileByte(data, ts[j].s, b) == Intended(data, ts[i].s, a)
    {
      assert InSeg(ts[j].s, b);
      InPart(ts[i].s, a);
      InPart(ts[j].s, b);
      assert Covers(ts[i], a / PAGE) && Covers(ts[j], b / PAGE);
    }
    forall i, a: nat | 0 <= i < |ts| && InSeg(ts[i].s, a) ensures Base(pages0, Key(a / PAGE), a % PAGE) == 0 {
      InPart(ts[i].s, a);
      assert Covers(ts[i], a / PAGE);
    }
  }

  /** Accepted files whose pages are their own load right: file bytes, then zeros, also where segments share a page. */
  lemma LoadedImage(pages0: map<nat, UPage>, pages: map<nat, UPage>, data: seq<byte>, phdrs: seq<Phdr>, bias: nat)
    requires Exact(pages0, pages, data, PartsOf(phdrs, bias)) && Separate(phdrs, |phdrs|)
    requires OwnPages(pages0, PartsOf(phdrs, bias))
    ensures ImageRight(pages, data, PartsOf(phdrs, bias))
  {
    hide Mapped, Filled, Permitted, PartsOf, WritersAgree, BlankWasZero, ImageRight, SegsApart, OwnPages, AllWhole, Separate;
    PartsAreWhole(phdrs, bias);
    PartsApart(phdrs, bias);
    OwnAgree(pages0, data, PartsOf(phdrs, bias));
    ImageRightIff(pages0, pages, data, phdrs, bias);
  }

  /** No page a segment lies on may be both written and executed, whatever was mapped before. */
  lemma NeverBoth(pages0: map<nat, UPage>, pages: map<nat, UPage>, data: seq<byte>, phdrs: seq<Phdr>, bias: nat, i: nat, a: nat)
    requires Exact(pages0, pages, data, PartsOf(phdrs, bias)) && i < |phdrs| && Loads(phdrs[i]) && InSeg(At(phdrs[i], bias), a)
    ensures var k := Key(a / PAGE); k in pages && !(pages[k].w && pages[k].x)
  {
    hide Key, Covers, Whole, PartsOf, CellOk;
    var j := PartFor(phdrs, bias, i);
    InPart(At(phdrs[i], bias), a);
    assert CoversKey(PartsOf(phdrs, bias)[j], Key(a / PAGE));
    assert CoveredBy(PartsOf(phdrs, bias), Key(a / PAGE));
  }

  /** Every byte of every loadable segment is in the user half. */
  ghost predicate InUserHalf(phdrs: seq<Phdr>, bias: nat) {
    forall i :: 0 <= i < |phdrs| && Loads(phdrs[i]) ==> phdrs[i].vaddr + bias + phdrs[i].memsz <= USER_PAGES * PAGE
  }

  lemma UserPage(s: Seg, p: nat)
    requires s.v + s.memsz <= USER_PAGES * PAGE && Covers(Whole(s), p)
    ensures p < USER_PAGES && Key(p) == p && Canonical(p)
  {
  }

  /** In a space whose user half is empty, images in that half have pages of their own and cannot panic. */
  lemma UserHalfIsOwn(pages0: map<nat, UPage>, phdrs: seq<Phdr>, bias: nat)
    requires (forall k :: k in pages0 ==> k >= USER_PAGES) && InUserHalf(phdrs, bias)
    ensures OwnPages(pages0, PartsOf(phdrs, bias)) && !OddPage(PartsOf(phdrs, bias))
  {
    hide Key, Covers, Canonical, Whole;
    var ts := PartsOf(phdrs, bias);
    forall i, p: nat | 0 <= i < |ts| && Covers(ts[i], p) ensures p < USER_PAGES && Key(p) == p && Canonical(p) {
      var k := PartFrom(phdrs, bias, i);
      UserPage(At(phdrs[k], bias), p);
    }
  }

  // ---------------------------------------------------------------- images that load

  /** What was laid before page `p` of segment `i` is part of the whole. */
  lemma BeforeIsPart(phdrs: seq<Phdr>, bias: nat, i: nat, p: nat, k: nat)
    requires i < |phdrs| && Loads(phdrs[i]) && Covers(Whole(At(phdrs[i], bias)), p)
    ensures var ts, s := PartsOf(phdrs, bias), At(phdrs[i], bias);
            var before := Grow(PartsOf(phdrs[..i], bias), s, p * PAGE);
            && (CoveredBy(before, k) ==> CoveredBy(ts, k))
            && (SomeW(before, k) || (s.w && k == Key(p)) ==> SomeW(ts, k)) && (SomeX(before, k) || (s.x && k == Key(p)) ==> SomeX(ts, k))
  {
    hide PartsOf, Key, Covers, Whole, At;
    var ts, s := PartsOf(phdrs, bias), At(phdrs[i], bias);
    var ts0 := PartsOf(phdrs[..i], bias);
    var before := Grow(ts0, s, p * PAGE);
    PartsPrefix(phdrs, bias, i);
    var j := PartFor(phdrs, bias, i);
    WholeIs(s);
    assert Covers(ts[j], p);
    assert CoversKey(ts[j], Key(p));
    forall n | 0 <= n < |before| && CoversKey(before[n], k) ensures exists m :: 0 <= m < |ts| && CoversKey(ts[m], k) && ts[m].s == before[n].s {
      if n < |ts0| {
        assert ts0[n] in ts;
        var m :| 0 <= m < |ts| && ts[m] == ts0[n];
        assert CoversKey(ts[m], k) && ts[m].s == before[n].s;
      } else {
        ShorterCovers(s, p, k);
        assert CoversKey(ts[j], k) && ts[j].s == before[n].s;
      }
    }
  }

  lemma ShorterCovers(s: Seg, p: nat, k: nat)
    requires Covers(Whole(s), p) && CoversKey(Part(s, p * PAGE), k)
    ensures CoversKey(Whole(s), k)
  {
    hide Key;
    var q: nat :| Covers(Part(s, p * PAGE), q) && Key(q) == k;
    assert Covers(Whole(s), q);
  }

  /** In a space whose user half is empty, an image in that half loads whenever no page is asked to be both writable and
      executable, mappings are let through, and one frame more is free than the pages it needs. */
  lemma UserImageLoads(pages0: map<nat, UPage>, free0: nat, lets: nat -> bool, phdrs: seq<Phdr>, bias: nat)
    requires (forall k :: k in pages0 ==> k >= USER_PAGES) && InUserHalf(phdrs, bias) && forall p: nat :: lets(p)
    requires |NewKeys(pages0, PartsOf(phdrs, bias))| < free0
    requires forall k: nat :: !(SomeW(PartsOf(phdrs, bias), k) && SomeX(PartsOf(phdrs, bias), k))
    ensures AllFine(pages0, free0, lets, phdrs, bias)
  {
    hide PartsOf, Covers, Whole, SomeW, SomeX, CoveredBy, Key, Canonical, Grow, At, NewKeys;
    var ts := PartsOf(phdrs, bias);
    forall i, p: nat | 0 <= i < |phdrs| && Loads(phdrs[i]) && Covers(Whole(At(phdrs[i], bias)), p)
      ensures PageFine(pages0, free0, lets, Grow(PartsOf(phdrs[..i], bias), At(phdrs[i], bias), p * PAGE), At(phdrs[i], bias), p)
    {
      var before := Grow(PartsOf(phdrs[..i], bias), At(phdrs[i], bias), p * PAGE);
      BoundOf(phdrs[i], bias);
      UserPage(At(phdrs[i], bias), p);
      forall k: nat ensures CoveredBy(before, k) ==> CoveredBy(ts, k) { BeforeIsPart(phdrs, bias, i, p, k); }
      FewerNew(pages0, before, ts);
      BeforeIsPart(phdrs, bias, i, p, Key(p));
    }
    forall i | 0 <= i < |phdrs| && Loads(phdrs[i]) ensures Fits(At(phdrs[i], bias)) { BoundOf(phdrs[i], bias); }
  }

  lemma BoundOf(ph: Phdr, bias: nat)
    requires ph.vaddr + bias + ph.memsz <= USER_PAGES * PAGE
    ensures At(ph, bias).v + At(ph, bias).memsz <= USER_PAGES * PAGE && Fits(At(ph, bias))
  {
  }

  lemma FewerNew(pages0: map<nat, UPage>, ts: seq<Part>, us: seq<Part>)
    requires forall k: nat :: CoveredBy(ts, k) ==> CoveredBy(us, k)
    ensures |NewKeys(pages0, ts)| <= |NewKeys(pages0, us)|
  {
    hide CoveredBy;
    var a, b := NewKeys(pages0, ts), NewKeys(pages0, us);
    assert b == a + (b - a);
  }

  /** Two segments on one page, with frames to spare: accepted, and every page goes through. */
  lemma SharedPageLoads(lets: nat -> bool)
    requires forall p: nat :: lets(p)
    ensures var phdrs := [Phdr(true, false, false, 0, 0x40_0000, 0, 0x1100), Phdr(true, false, false, 0, 0x40_1100, 0, 0x100)];
            && Accepted([], phdrs) && AllFine(map[], 16, lets, phdrs, 0)
            && Covers(Whole(At(phdrs[0], 0)), 0x401) && Covers(Whole(At(phdrs[1], 0)), 0x401)
  {
    hide AllFine, PartsOf;
    var phdrs := [Phdr(true, false, false, 0, 0x40_0000, 0, 0x1100), Phdr(true, false, false, 0, 0x40_1100, 0, 0x100)];
    var ts := PartsOf(phdrs, 0);
    TwoParts(phdrs, 0);
    assert ts == [Whole(At(phdrs[0], 0)), Whole(At(phdrs[1], 0))];
    assert phdrs[0].load;
    var keys := NewKeys(map[], ts);
    forall k | k in keys ensures k in {0x400, 0x401} {
      var i :| 0 <= i < |ts| && CoversKey(ts[i], k);
      TwoPages(ts[i], k);
    }
    hide Covers, Whole, CoversKey;
    FewKeys(keys);
    UserImageLoads(map[], 16, lets, phdrs, 0);
  }

  lemma TwoPages(t: Part, k: nat)
    requires CoversKey(t, k) && 0x40_0000 <= t.s.v < 0x40_2000 && t.end <= 0x40_2000
    ensures k == 0x400 || k == 0x401
  {
    var p: nat :| Covers(t, p) && Key(p) == k;
  }

  lemma FewKeys(keys: set<nat>)
    requires keys <= {0x400, 0x401}
    ensures |keys| < 16
  {
    assert {0x400, 0x401} == keys + ({0x400, 0x401} - keys);
  }

  // ---------------------------------------------------------------- images that load wrong

  function OneByte(offset: u64, vaddr: u64, memsz: u64): Phdr { Phdr(true, false, false, offset, vaddr, 1, memsz) }

  /** A segment inside one page, laid. */
  lemma OnePageMore(pages0: map<nat, UPage>, pages: map<nat, UPage>, data: seq<byte>, ts: seq<Part>, s: Seg, p: nat, pg: UPage)
    requires Exact(pages0, pages, data, ts) && InFile(data, s) && s.v == p * PAGE && 0 < s.memsz <= PAGE && Laid(data, s, p, pages, pg)
    ensures Exact(pages0, pages[Key(p) := pg], data, ts + [Whole(s)])
  {
    hide Exact, Laid, Key;
    StartSegment(pages0, pages, data, ts, s);
    assert PageDown(s.v) == p * PAGE && PageUp(s.v + s.memsz) == (p + 1) * PAGE;
    StepExact(pages0, pages, data, ts, s, p, pg);
  }

  /** Two accepted segments 2^48 apart, the upper one first: the lower one is laid over it. */
  lemma AliasedSegments(pages0: map<nat, UPage>, pages: map<nat, UPage>)
    ensures var phdrs, data := [OneByte(0, KEYS * PAGE, 1), OneByte(1, 0, 1)], [1, 2];
            && Accepted(data, phdrs)
            && (Exact(pages0, pages, data, PartsOf(phdrs, 0)) ==> !ImageRight(pages, data, PartsOf(phdrs, 0)))
  {
    var phdrs, data: seq<byte> := [OneByte(0, KEYS * PAGE, 1), OneByte(1, 0, 1)], [1, 2];
    var ts := PartsOf(phdrs, 0);
    assert phdrs[..1] == [phdrs[0]];
    assert PartsOf(phdrs[..1], 0) == [] + [Whole(At(phdrs[0], 0))];
    assert ts == [Whole(At(phdrs[0], 0)), Whole(At(phdrs[1], 0))];
    if Exact(pages0, pages, data, ts) {
      ImageRightIff(pages0, pages, data, phdrs, 0);
      assert InSeg(ts[0].s, KEYS * PAGE) && HasFile(ts[1].s, 0) && Alias(KEYS * PAGE, 0);
    }
  }

  /** A segment on a page that was mapped before: behind its file part it shows what the page held. */
  lemma SegmentOverOldPage(pages0: map<nat, UPage>, pages: map<nat, UPage>, p: nat)
    requires p < ALL_PAGES && Key(p) in pages0 && pages0[Key(p)].bytes[1] != 0
    ensures var phdrs, data := [OneByte(0, p * PAGE, 2)], [1];
            && Accepted(data, phdrs)
            && (Exact(pages0, pages, data, PartsOf(phdrs, 0)) ==> !ImageRight(pages, data, PartsOf(phdrs, 0)))
  {
    hide Key, Mapped, Filled, Permitted, PartsOf, WritersAgree, Whole;
    var phdrs, data: seq<byte> := [OneByte(0, p * PAGE, 2)], [1];
    var ts, s := PartsOf(phdrs, 0), At(phdrs[0], 0);
    OnePart(phdrs, 0);
    WholeIs(s);
    if Exact(pages0, pages, data, ts) {
      ImageRightIff(pages0, pages, data, phdrs, 0);
      var a := p * PAGE + 1;
      assert a / PAGE == p && a % PAGE == 1;
      assert InSeg(ts[0].s, a);
      BehindByte(ts, p);
    }
  }

  lemma BehindByte(ts: seq<Part>, p: nat)
    requires |ts| == 1 && ts[0].s.v == p * PAGE && ts[0].s.filesz == 1
    ensures NobodyWrites(ts, p * PAGE + 1)
  {
  }

  lemma OnePart(phdrs: seq<Phdr>, bias: nat)
    requires |phdrs| == 1 && Loads(phdrs[0])
    ensures PartsOf(phdrs, bias) == [] + [Whole(At(phdrs[0], bias))]
  {
    PartsNone(bias);
    assert phdrs[..0] == [] && phdrs[..1] == phdrs;
    PartsSnoc(phdrs, bias, 0);
  }

  function Starting(b: byte, rest: Page): Page { [b] + rest[1..] }

  const BLANK: Page := seq(4096, _ => 0)

  /** Both cases happen: the tables a successful load leaves. */
  lemma AliasedLoads()
    ensures var phdrs, data := [OneByte(0, KEYS * PAGE, 1), OneByte(1, 0, 1)], [1, 2];
            Exact(map[], map[0 := UPage(Starting(2, BLANK), false, false)], data, PartsOf(phdrs, 0))
  {
    hide Exact, PartsOf;
    var phdrs, data: seq<byte> := [OneByte(0, KEYS * PAGE, 1), OneByte(1, 0, 1)], [1, 2];
    var s0, s1 := At(phdrs[0], 0), At(phdrs[1], 0);
    var p0, p1 := UPage(Starting(1, BLANK), false, false), UPage(Starting(2, BLANK), false, false);
    var before: map<nat, UPage> := map[];
    var between := before[0 := p0];
    NothingLaid(before, data);
    assert Key(KEYS) == 0 && Key(0) == 0;
    OnePageMore(before, before, data, [], s0, KEYS, p0);
    assert [] + [Whole(s0)] == [Whole(s0)];
    OnePageMore(before, between, data, [Whole(s0)], s1, 0, p1);
    assert between[0 := p1] == map[0 := p1];
    TwoParts(phdrs, 0);
  }

  lemma TwoParts(phdrs: seq<Phdr>, bias: nat)
    requires |phdrs| == 2 && Loads(phdrs[0]) && Loads(phdrs[1])
    ensures PartsOf(phdrs, bias) == [] + [Whole(At(phdrs[0], bias))] + [Whole(At(phdrs[1], bias))]
  {
    PartsNone(bias);
    assert phdrs[..0] == [] && phdrs[..2] == phdrs;
    PartsSnoc(phdrs, bias, 0);
    PartsSnoc(phdrs, bias, 1);
  }

  lemma OldPageLoads(pages0: map<nat, UPage>, p: nat)
    requires p < ALL_PAGES && Key(p) in pages0 && !(pages0[Key(p)].w && pages0[Key(p)].x)
    ensures var phdrs, data := [OneByte(0, p * PAGE, 2)], [1];
            var was := pages0[Key(p)];
            Exact(pages0, pages0[Key(p) := was.(bytes := Starting(1, was.bytes))], data, PartsOf(phdrs, 0))
  {
    hide Exact, PartsOf, Key;
    var phdrs, data: seq<byte> := [OneByte(0, p * PAGE, 2)], [1];
    var was := pages0[Key(p)];
    NothingLaid(pages0, data);
    OnePageMore(pages0, pages0, data, [], At(phdrs[0], 0), p, was.(bytes := Starting(1, was.bytes)));
    OnePart(phdrs, 0);
  }
}
