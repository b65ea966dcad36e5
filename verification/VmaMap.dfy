/**
 The table of virtual memory areas: areas keyed by their start, split and
 merged as ranges come and go, against a plain map from addresses to what is
 mapped there.
 */
module VmaMap {
  import opened Common

  const MMAP_BASE: nat := 0x0000_0001_0000_0000
  const MMAP_LIMIT: nat := 0x0000_7F00_0000_0000

  datatype Backing = Backing(vnode: nat, off: nat, size: nat, shared: bool)
  datatype Vma = Vma(start: nat, end: nat, prot: nat, backing: Option<Backing>)

  /** What one address is mapped to: protection, and the byte of the file behind it (offsets are 64 bits). */
  datatype Cell = Cell(prot: nat, backing: Option<Backing>)

  function Shift(b: Option<Backing>, n: nat): Option<Backing> {
    match b
    case None => None
    case Some(f) => Some(f.(off := (f.off + n) % U64))
  }

  /** What the page-fault handler finds behind an address: the file at the offset of the area plus the distance from its start. */
  function CellOf(v: Vma, a: nat): Cell
    requires v.start <= a
  {
    match v.backing
    case None => Cell(v.prot, None)
    case Some(f) => Cell(v.prot, Some(Backing(f.vnode, (f.off + (a - v.start)) % U64, f.size, f.shared)))
  }

  type Table = map<nat, Vma>

  /** Keyed by start, not empty, not overlapping. */
  ghost predicate Wf(t: Table) {
    && (forall k :: k in t ==> t[k].start == k < t[k].end)
    && (forall k, l :: k in t && l in t && k < l ==> t[k].end <= l)
  }

  predicate Covers(t: Table, k: nat, a: nat) { k in t && t[k].start <= a < t[k].end }

  ghost predicate Mapped(t: Table, a: nat) { exists k :: Covers(t, k, a) }

  /** If the last area starting at or before an address ends before it, no area holds it. */
  lemma NoneCovers(t: Table, r: Option<nat>, a: nat)
    requires Wf(t) && (r.None? ==> forall k :: k in t ==> k > a)
    requires r.Some? ==> r.value in t && r.value <= a && t[r.value].end <= a && forall k :: k in t && k <= a ==> k <= r.value
    ensures !Mapped(t, a)
  {
    forall l | l in t ensures !Covers(t, l, a) {
      assert r.Some? && l <= a && l != r.value ==> l < r.value && t[l].end <= r.value;
    }
  }

  ghost function CellAt(t: Table, a: nat): Cell
    requires Mapped(t, a)
  {
    var k :| Covers(t, k, a);
    CellOf(t[k], a)
  }

  /** Every address and what it is mapped to. */
  ghost function Cells(t: Table): imap<nat, Cell> { imap a | Mapped(t, a) :: CellAt(t, a) }

  lemma CellIs(t: Table, k: nat, a: nat)
    requires Wf(t) && Covers(t, k, a)
    ensures Mapped(t, a) && CellAt(t, a) == CellOf(t[k], a)
  {
    var l: nat :| Covers(t, l, a) && CellAt(t, a) == CellOf(t[l], a);
  }

  /** Address `a` of an area shows the byte of the file that lies as far behind the area's offset. */
  lemma CellMeans(v: Vma, a: nat)
    requires v.start <= a
    ensures CellOf(v, a).prot == v.prot && (CellOf(v, a).backing.Some? <==> v.backing.Some?)
    ensures v.backing.Some? ==>
              var f, g := v.backing.value, CellOf(v, a).backing.value;
              && g.vnode == f.vnode && g.size == f.size && g.shared == f.shared
              && (f.off + (a - v.start) < U64 ==> g.off - f.off == a - v.start)
              && (f.off < U64 <= f.off + (a - v.start) < 2 * U64 ==> g.off - f.off == a - v.start - U64)
  {
  }

  /** The right-hand piece of an area shows the same file bytes at the same addresses. */
  lemma PieceCell(v: Vma, e: nat, a: nat)
    requires v.start <= e <= a
    ensures CellOf(Vma(e, v.end, v.prot, Shift(v.backing, e - v.start)), a) == CellOf(v, a)
  {
    if v.backing.Some? {
      var x, m, n := v.backing.value.off, e - v.start, a - e;
      assert ((x + m) % U64 + n) % U64 == (x + m + n) % U64;
    }
  }

  // ---------------------------------------------------------------- cutting a range out

  predicate Overlaps(v: Vma, s: nat, e: nat) { v.start < e && v.end > s }

  /** One area cut down to what lies outside [s, e). */
  function Cut(t: Table, k: nat, s: nat, e: nat): Table
    requires k in t && t[k].start <= e
  {
    var v := t[k];
    var t1 := t - {k};
    var t2 := if v.start < s then t1[v.start := Vma(v.start, s, v.prot, v.backing)] else t1;
    if v.end > e then t2[e := Vma(e, v.end, v.prot, Shift(v.backing, e - v.start))] else t2
  }

  lemma CutEffect(t: Table, k: nat, s: nat, e: nat)
    requires Wf(t) && k in t && Overlaps(t[k], s, e) && s <= e
    ensures var t', v := Cut(t, k, s, e), t[k];
            && (forall l :: l in t' <==> (l in t && l != k) || (l == k && v.start < s) || (l == e && v.end > e))
            && (v.end > e ==> e !in t && t'[e] == Vma(e, v.end, v.prot, Shift(v.backing, e - v.start)))
            && (v.start < s ==> t'[k] == Vma(k, s, v.prot, v.backing))
            && (forall l :: l in t && l != k ==> t'[l] == t[l])
  {
  }

  lemma CutWf(t: Table, k: nat, s: nat, e: nat)
    requires Wf(t) && k in t && Overlaps(t[k], s, e) && s <= e
    ensures var t' := Cut(t, k, s, e);
            && Wf(t') && (forall l :: l in t && l != k ==> l in t' && t'[l] == t[l])
            && (forall l :: l in t' && Overlaps(t'[l], s, e) ==> l != k && l in t && t'[l] == t[l])
  {
    hide Cut, Shift;
    CutEffect(t, k, s, e);
  }

  lemma CutKeeps(t: Table, k: nat, s: nat, e: nat, a: nat, l: nat)
    requires Wf(t) && k in t && Overlaps(t[k], s, e) && s <= e && !(s <= a < e) && Covers(t, l, a)
    ensures Mapped(Cut(t, k, s, e), a) && CellAt(Cut(t, k, s, e), a) == CellAt(t, a)
  {
    hide Cut, Shift, CellAt;
    var t' := Cut(t, k, s, e);
    CutWf(t, k, s, e);
    CutEffect(t, k, s, e);
    CellIs(t, l, a);
    if l != k {
      CellIs(t', l, a);
    } else if a < s {
      CellIs(t', k, a);
    } else {
      PieceCell(t[k], e, a);
      CellIs(t', e, a);
    }
  }

  lemma CutAddsNone(t: Table, k: nat, s: nat, e: nat, a: nat, l: nat)
    requires Wf(t) && k in t && Overlaps(t[k], s, e) && s <= e && Covers(Cut(t, k, s, e), l, a)
    ensures Mapped(t, a)
  {
    hide Cut, Shift;
    CutEffect(t, k, s, e);
    if l in t && l != k {
      assert Covers(t, l, a);
    } else {
      assert Covers(t, k, a);
    }
  }

  /** Outside the range nothing changes. */
  lemma CutCell(t: Table, k: nat, s: nat, e: nat, a: nat)
    requires Wf(t) && k in t && Overlaps(t[k], s, e) && s <= e && !(s <= a < e)
    ensures Mapped(Cut(t, k, s, e), a) <==> Mapped(t, a)
    ensures Mapped(t, a) ==> CellAt(Cut(t, k, s, e), a) == CellAt(t, a)
  {
    hide Cut, CellAt, Covers, Wf;
    var t' := Cut(t, k, s, e);
    if Mapped(t, a) {
      var l: nat :| Covers(t, l, a);
      CutKeeps(t, k, s, e, a, l);
    }
    if Mapped(t', a) {
      var l: nat :| Covers(t', l, a);
      CutAddsNone(t, k, s, e, a, l);
    }
  }

  // ---------------------------------------------------------------- the object

  class VmaMap {
    /** A tree map in the source: only its order of keys is used. */
    var vmas: Table

    ghost predicate Valid()
      reads this
    {
      Wf(vmas)
    }

    ghost function View(): imap<nat, Cell>
      reads this
    {
      Cells(vmas)
    }

    constructor ()
      ensures Valid() && View() == imap[]
    {
      vmas := map[];
    }

    method CutOne(k: nat, s: nat, e: nat)
      requires k in vmas && vmas[k].start <= e
      modifies this
      ensures vmas == Cut(old(vmas), k, s, e)
    {
      var v := vmas[k];
      vmas := vmas - {k};
      if v.start < s {
        // the left fragment keeps its offset
        vmas := vmas[v.start := Vma(v.start, s, v.prot, v.backing)];
      }
      if v.end > e {
        // the right fragment's offset advances by the bytes skipped
        vmas := vmas[e := Vma(e, v.end, v.prot, Shift(v.backing, e - v.start))];
      }
    }

    /** `remove_range`: the range is unmapped, every other address keeps protection and file offset. */
    method RemoveRange(s: nat, e: nat)
      requires Valid() && s <= e
      modifies this
      ensures Valid()
      ensures View() == imap a | a in old(View()) && !(s <= a < e) :: old(View())[a]
    {
      hide Cut, CellAt, Mapped, Wf, Covers;
      ghost var t := vmas;
      var todo: set<nat> := set k | k in vmas && Overlaps(vmas[k], s, e);
      KeysAreStarts(vmas);
      while todo != {}
        invariant Wf(vmas) && (forall k :: k in vmas ==> vmas[k].start == k)
        invariant forall k :: k in vmas ==> (k in todo <==> Overlaps(vmas[k], s, e))
        invariant forall k :: k in todo ==> k in vmas
        invariant SameOutside(t, vmas, s, e)
        decreases |todo|
      {
        var k :| k in todo;
        CutWf(vmas, k, s, e);
        CutSame(t, vmas, k, s, e);
        CutOne(k, s, e);
        KeysAreStarts(vmas);
        todo := todo - {k};
      }
      NoneInside(vmas, s, e);
      OutsideCells(t, vmas, s, e);
    }

    /** The last area starting at or before `a`, as the tree map's range finds it. */
    method Floor(a: nat) returns (r: Option<nat>)
      ensures r.None? ==> forall k :: k in vmas ==> k > a
      ensures r.Some? ==> r.value in vmas && r.value <= a && forall k :: k in vmas && k <= a ==> k <= r.value
    {
      var todo: set<nat> := vmas.Keys;
      r := None;
      while todo != {}
        invariant todo <= vmas.Keys
        invariant r.None? ==> forall k :: k in vmas && k !in todo ==> k > a
        invariant r.Some? ==> r.value in vmas && r.value <= a && forall k :: k in vmas && k !in todo && k <= a ==> k <= r.value
        decreases |todo|
      {
        var k: nat :| k in todo;
        if k <= a && (r.None? || r.value < k) {
          r := Some(k);
        }
        todo := todo - {k};
      }
    }

    /** The first area starting at or after `a`. */
    method Ceiling(a: nat) returns (r: Option<nat>)
      ensures r.None? ==> forall k :: k in vmas ==> k < a
      ensures r.Some? ==> r.value in vmas && r.value >= a && forall k :: k in vmas && k >= a ==> k >= r.value
    {
      var todo: set<nat> := vmas.Keys;
      r := None;
      while todo != {}
        invariant todo <= vmas.Keys
        invariant r.None? ==> forall k :: k in vmas && k !in todo ==> k < a
        invariant r.Some? ==> r.value in vmas && r.value >= a && forall k :: k in vmas && k !in todo && k >= a ==> k >= r.value
        decreases |todo|
      {
        var k: nat :| k in todo;
        if k >= a && (r.None? || r.value > k) {
          r := Some(k);
        }
        todo := todo - {k};
      }
    }

    /** `find`, and the protection and file offset the fault and writeback paths derive from it. */
    method Find(a: nat) returns (r: Option<Vma>, c: Option<Cell>)
      requires Valid()
      ensures r.None? <==> a !in View()
      ensures r.Some? ==> r.value.start <= a < r.value.end && c == Some(CellOf(r.value, a)) == Some(View()[a])
      ensures c.Some? <==> r.Some?
    {
      var k := Floor(a);
      if k.Some? && vmas[k.value].end > a {
        assert Covers(vmas, k.value, a);
        CellIs(vmas, k.value, a);
        return Some(vmas[k.value]), Some(CellOf(vmas[k.value], a));
      }
      NoneCovers(vmas, k, a);
      return None, None;
    }

    /** `insert_merged`: anonymous neighbours of the same protection become one area; nothing else changes. */
    method InsertMerged(vma0: Vma)
      requires Valid() && vma0.start < vma0.end
      requires forall a: nat :: vma0.start <= a < vma0.end ==> a !in Cells(vmas)
      modifies this
      ensures Valid()
      ensures View() == Added(old(View()), vma0)
    {
      hide CellAt, Wf, Clear, Cells, Added;
      ClearOf(vmas, vma0);
      var vma := vma0;
      if vma.backing.None? {
        if vma.start > 0 {
          var prev := Floor(vma.start - 1);
          if prev.Some? && vmas[prev.value].end == vma.start && vmas[prev.value].prot == vma.prot && vmas[prev.value].backing.None? {
            Absorb(vmas, prev.value, vma, vma.(start := prev.value));
            vma := vma.(start := prev.value);
            vmas := vmas - {prev.value};
          }
        }
        if vma.end in vmas && vmas[vma.end].prot == vma.prot && vmas[vma.end].backing.None? {
          var next := vma.end;
          Absorb(vmas, next, vma, vma.(end := vmas[next].end));
          vma := vma.(end := vmas[next].end);
          vmas := vmas - {next};
        }
      }
      InsertCells(vmas, vma);
      vmas := vmas[vma.start := vma];
    }

    /** `find_free`: the lowest gap that fits, and none only if there is none. */
    method FindFree(size: nat) returns (r: Option<nat>)
      requires Valid() && size < U64
      ensures r.Some? ==> Fits(vmas, r.value, size) && forall c: nat :: c < r.value ==> !Fits(vmas, c, size)
      ensures r.None? ==> forall c: nat :: !Fits(vmas, c, size)
    {
      if size == 0 {
        return None;
      }
      var cursor: nat := MMAP_BASE;
      var first := Floor(MMAP_BASE);
      if first.Some? && vmas[first.value].end > MMAP_BASE {
        cursor := vmas[first.value].end;
      }
      var from: nat := cursor;
      while true
        invariant cursor >= MMAP_BASE
        invariant forall k :: k in vmas && k < from ==> vmas[k].end <= cursor || vmas[k].end <= MMAP_BASE
        invariant forall c: nat :: c < cursor ==> !Fits(vmas, c, size)
        decreases Rest(vmas, from)
      {
        var k := Ceiling(from);
        if k.None? || k.value >= MMAP_LIMIT {
          break;
        }
        var v := vmas[k.value];
        if cursor + size >= U64 {
          return None;
        }
        if cursor + size <= v.start {
          return Some(cursor);
        }
        if v.end > cursor {
          cursor := v.end;
        }
        assert k.value in Rest(vmas, from) && k.value !in Rest(vmas, k.value + 1);
        assert Rest(vmas, k.value + 1) <= Rest(vmas, from);
        from := k.value + 1;
      }
      if cursor + size < U64 && cursor + size <= MMAP_LIMIT {
        return Some(cursor);
      }
      return None;
    }

    /** `find_and_insert` and `find_and_insert_file`. */
    method MapAnywhere(size: nat, prot: nat, backing: Option<Backing>) returns (r: Option<nat>)
      requires Valid() && size < U64
      modifies this
      ensures Valid()
      ensures r.None? ==> View() == old(View()) && forall c: nat :: !Fits(old(vmas), c, size)
      ensures r.Some? ==> Fits(old(vmas), r.value, size) && forall c: nat :: c < r.value ==> !Fits(old(vmas), c, size)
      ensures r.Some? ==> View() == Added(old(View()), Vma(r.value, r.value + size, prot, backing))
    {
      hide Cells, Added, CellAt;
      r := FindFree(size);
      if r.Some? {
        FitsClear(vmas, r.value, size);
        InsertMerged(Vma(r.value, r.value + size, prot, backing));
      }
    }

    /** A fixed mapping: what was there goes first. */
    method MapFixed(addr: nat, size: nat, prot: nat, backing: Option<Backing>)
      requires Valid() && size > 0
      modifies this
      ensures Valid() && View() == Added(old(View()), Vma(addr, addr + size, prot, backing))
    {
      hide Cells, CellAt;
      ghost var cells := View();
      RemoveRange(addr, addr + size);
      assert forall a: nat :: addr <= a < addr + size ==> a !in Cells(vmas);
      InsertMerged(Vma(addr, addr + size, prot, backing));
    }

    /** Any sequence of mappings and unmappings: each is answered as the address map decides, and the table is that map. */
    method Serve(qs: seq<Request>) returns (log: seq<Event>, ghost cs: seq<imap<nat, Cell>>)
      requires Valid()
      modifies this
      ensures Valid() && |log| == |qs| && |cs| == |qs| + 1
      ensures cs[0] == old(View()) && cs[|qs|] == View()
      ensures forall n :: 0 <= n < |qs| ==> Answers(cs[n], qs[n], log[n]) && Happens(cs[n], log[n], cs[n + 1])
    {
      hide Cells, Added, CellAt, Wf, Fits, IsFree;
      log, cs := [], [View()];
      for n := 0 to |qs|
        invariant Valid() && |log| == n && |cs| == n + 1 && cs[0] == old(View()) && cs[n] == View()
        invariant forall k :: 0 <= k < n ==> Answers(cs[k], qs[k], log[k]) && Happens(cs[k], log[k], cs[k + 1])
      {
        var e := Refused;
        match qs[n] {
          case Anywhere(size, prot, backing) =>
            GapsAre(vmas, size);
            if size < U64 {
              var r := MapAnywhere(size, prot, backing);
              if r.Some? { e := Mapping(Vma(r.value, r.value + size, prot, backing)); }
            }
          case Fixed(addr, size, prot, backing) =>
            if size > 0 {
              MapFixed(addr, size, prot, backing);
              e := Mapping(Vma(addr, addr + size, prot, backing));
            }
          case Unmap(addr, size) =>
            RemoveRange(addr, addr + size);
            e := Unmapping(addr, addr + size);
        }
        log, cs := log + [e], cs + [View()];
      }
    }
  }

  datatype Request =
    | Anywhere(size: nat, prot: nat, backing: Option<Backing>)
    | Fixed(addr: nat, size: nat, prot: nat, backing: Option<Backing>)
    | Unmap(addr: nat, size: nat)

  datatype Event = Refused | Mapping(v: Vma) | Unmapping(s: nat, e: nat)

  /** Room for `size` bytes at `c`: inside the window, and nothing mapped there. */
  ghost predicate IsFree(cells: imap<nat, Cell>, c: nat, size: nat) {
    && size > 0 && MMAP_BASE <= c && c + size <= MMAP_LIMIT
    && forall a: nat :: c <= a < c + size ==> a !in cells
  }

  /** What a request is answered: a mapping anywhere gets the lowest gap and is refused only if there is none. */
  ghost predicate Answers(cells: imap<nat, Cell>, q: Request, e: Event) {
    match q
    case Anywhere(size, prot, backing) =>
      || (e == Refused && forall c: nat :: !IsFree(cells, c, size))
      || (e.Mapping? && e.v == Vma(e.v.start, e.v.start + size, prot, backing) && IsFree(cells, e.v.start, size)
          && forall c: nat :: c < e.v.start ==> !IsFree(cells, c, size))
    case Fixed(addr, size, prot, backing) => e == if size > 0 then Mapping(Vma(addr, addr + size, prot, backing)) else Refused
    case Unmap(addr, size) => e == Unmapping(addr, addr + size)
  }

  /** The gaps between areas are the gaps of the address map. */
  lemma GapsAre(t: Table, size: nat)
    requires Wf(t)
    ensures forall c: nat :: Fits(t, c, size) <==> IsFree(Cells(t), c, size)
    ensures size >= U64 ==> forall c: nat :: !IsFree(Cells(t), c, size)
  {
    hide CellAt;
    forall c: nat ensures Fits(t, c, size) <==> IsFree(Cells(t), c, size) {
      if Fits(t, c, size) { FitsClear(t, c, size); }
      if IsFree(Cells(t), c, size) {
        forall k | k in t ensures !Overlaps(t[k], c, c + size) {
          GapClear(t, k, c, size);
        }
      }
    }
  }

  lemma GapClear(t: Table, k: nat, c: nat, size: nat)
    requires Wf(t) && k in t && IsFree(Cells(t), c, size)
    ensures !Overlaps(t[k], c, c + size)
  {
    hide CellAt;
    var a := if c < t[k].start then t[k].start else c;
    assert c <= a < c + size ==> a !in Cells(t);
    assert Covers(t, k, a) ==> Mapped(t, a);
  }

  /** The same events on a plain map from addresses. */
  ghost predicate Happens(c: imap<nat, Cell>, e: Event, c': imap<nat, Cell>) {
    match e
    case Refused => c' == c
    case Mapping(v) => c' == Added(c, v)
    case Unmapping(s, t) => c' == imap a | a in c && !(s <= a < t) :: c[a]
  }

  lemma FitsClear(t: Table, c: nat, size: nat)
    requires Wf(t) && Fits(t, c, size)
    ensures forall a: nat :: c <= a < c + size ==> a !in Cells(t)
  {
    forall a: nat | c <= a < c + size ensures !Mapped(t, a) {
      forall k | k in t ensures !Covers(t, k, a) {
        assert !Overlaps(t[k], c, c + size);
      }
    }
  }

  function Rest(t: Table, from: nat): set<nat> { set k | k in t && k >= from }

  /** Room for `size` bytes at `c`, inside the window and clear of every area. */
  ghost predicate Fits(t: Table, c: nat, size: nat) {
    && size > 0 && MMAP_BASE <= c && c + size <= MMAP_LIMIT
    && forall k :: k in t ==> !Overlaps(t[k], c, c + size)
  }

  ghost predicate SameOutside(t: Table, t': Table, s: nat, e: nat) {
    forall a: nat :: !(s <= a < e) ==> (Mapped(t', a) <==> Mapped(t, a)) && (Mapped(t, a) ==> CellAt(t', a) == CellAt(t, a))
  }

  // ---------------------------------------------------------------- putting an area in

  ghost function Added(cells: imap<nat, Cell>, v: Vma): imap<nat, Cell> {
    imap a: nat | a in cells || v.start <= a < v.end :: if v.start <= a < v.end then CellOf(v, a) else cells[a]
  }

  ghost predicate Clear(t: Table, v: Vma) { forall k :: k in t ==> !Overlaps(t[k], v.start, v.end) }

  lemma ClearOf(t: Table, v: Vma)
    requires Wf(t) && v.start < v.end && forall a: nat :: v.start <= a < v.end ==> a !in Cells(t)
    ensures Clear(t, v)
  {
    forall k | k in t ensures !Overlaps(t[k], v.start, v.end) {
      var a := if t[k].start < v.start then v.start else t[k].start;
      assert Overlaps(t[k], v.start, v.end) ==> v.start <= a < v.end && Covers(t, k, a) && Mapped(t, a);
      assert Overlaps(t[k], v.start, v.end) ==> a in Cells(t);
    }
  }

  lemma InsertCells(t: Table, v: Vma)
    requires Wf(t) && v.start < v.end && Clear(t, v)
    ensures Wf(t[v.start := v]) && Cells(t[v.start := v]) == Added(Cells(t), v)
  {
    hide CellAt;
    var t' := t[v.start := v];
    assert v.start !in t;
    assert Wf(t');
    forall a: nat
      ensures Mapped(t', a) <==> Mapped(t, a) || v.start <= a < v.end
      ensures v.start <= a < v.end ==> Mapped(t', a) && CellAt(t', a) == CellOf(v, a)
      ensures Mapped(t, a) && !(v.start <= a < v.end) ==> Mapped(t', a) && CellAt(t', a) == CellAt(t, a)
    {
      if v.start <= a < v.end {
        CellIs(t', v.start, a);
      } else if Mapped(t, a) {
        var k: nat :| Covers(t, k, a);
        CellIs(t, k, a);
        CellIs(t', k, a);
      } else {
        assert forall k :: Covers(t', k, a) ==> Covers(t, k, a);
      }
    }
    hide Mapped;
  }

  lemma RemoveCells(t: Table, k: nat)
    requires Wf(t) && k in t
    ensures Wf(t - {k}) && Cells(t - {k}) == imap a | a in Cells(t) && !(k <= a < t[k].end) :: Cells(t)[a]
  {
    hide CellAt;
    var t' := t - {k};
    assert Wf(t');
    forall a: nat
      ensures Mapped(t', a) <==> Mapped(t, a) && !(k <= a < t[k].end)
      ensures Mapped(t', a) ==> CellAt(t', a) == CellAt(t, a)
    {
      if Mapped(t', a) {
        var l: nat :| Covers(t', l, a);
        CellIs(t', l, a);
        CellIs(t, l, a);
        assert !(k <= a < t[k].end);
      } else {
        assert forall l :: Covers(t, l, a) && l != k ==> Covers(t', l, a);
      }
    }
    hide Mapped;
  }

  /** Taking a like anonymous neighbour into the new area moves no cell. */
  lemma Absorb(t: Table, k: nat, v: Vma, v': Vma)
    requires Wf(t) && k in t && v.start < v.end && Clear(t, v)
    requires t[k].prot == v.prot && t[k].backing.None? && v.backing.None?
    requires (t[k].end == v.start && v' == v.(start := k)) || (k == v.end && v' == v.(end := t[k].end))
    ensures v'.start < v'.end && Wf(t - {k}) && Clear(t - {k}, v')
    ensures Added(Cells(t - {k}), v') == Added(Cells(t), v)
  {
    hide CellAt, Mapped, Cells, Added;
    RemoveCells(t, k);
    assert k < t[k].end;
    forall a: nat | k <= a < t[k].end ensures a in Cells(t) && Cells(t)[a] == Cell(v.prot, None) {
      CellsAt(t, k, a);
    }
    AbsorbCells(Cells(t), Cells(t - {k}), k, t[k].end, v, v');
  }

  lemma AbsorbCells(c: imap<nat, Cell>, c': imap<nat, Cell>, lo: nat, hi: nat, v: Vma, v': Vma)
    requires v.start < v.end && lo < hi && v.backing.None? && c' == imap a | a in c && !(lo <= a < hi) :: c[a]
    requires forall a: nat :: lo <= a < hi ==> a in c && c[a] == Cell(v.prot, None)
    requires (hi == v.start && v' == v.(start := lo)) || (lo == v.end && v' == v.(end := hi))
    ensures Added(c', v') == Added(c, v)
  {
  }

  lemma CellsAt(t: Table, k: nat, a: nat)
    requires Wf(t) && k in t && k <= a < t[k].end
    ensures a in Cells(t) && Cells(t)[a] == CellOf(t[k], a)
  {
    CellIs(t, k, a);
  }

  lemma KeysAreStarts(t: Table)
    requires Wf(t)
    ensures forall k :: k in t ==> t[k].start == k
  {
  }

  lemma CutSame(t0: Table, t: Table, k: nat, s: nat, e: nat)
    requires Wf(t) && k in t && Overlaps(t[k], s, e) && s <= e && SameOutside(t0, t, s, e)
    ensures SameOutside(t0, Cut(t, k, s, e), s, e)
  {
    hide Cut, CellAt, Mapped, Wf;
    forall a: nat | !(s <= a < e)
      ensures Mapped(Cut(t, k, s, e), a) <==> Mapped(t, a)
      ensures Mapped(t, a) ==> CellAt(Cut(t, k, s, e), a) == CellAt(t, a)
    {
      CutCell(t, k, s, e, a);
    }
  }

  lemma NoneInside(t: Table, s: nat, e: nat)
    requires forall k :: k in t ==> !Overlaps(t[k], s, e)
    ensures forall a: nat :: s <= a < e ==> !Mapped(t, a)
  {
  }

  lemma OutsideCells(t: Table, t': Table, s: nat, e: nat)
    requires SameOutside(t, t', s, e) && forall a: nat :: s <= a < e ==> !Mapped(t', a)
    ensures Cells(t') == imap a | a in Cells(t) && !(s <= a < e) :: Cells(t)[a]
  {
    hide Mapped, CellAt;
  }
}
