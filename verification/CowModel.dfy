/**
 Copy-on-write address spaces as values: frames with contents, page tables,
 the reference counts of shared frames and the pins of the reverse map, with
 the single steps the address-space code is made of and the invariant every
 one of them keeps.

 A page is named by its four page-table indices. A space owns the frames of its
 intermediate tables, named by path, so a walk can run out of memory at any of
 them. Entries that are not present are absent; nothing is swapped out.
 */
module CowModel {
  import opened Common

  type Frame = nat
  type Cr3 = Frame
  datatype VPage = VPage(i: nat, j: nat, k: nat, m: nat)
  datatype Key = At(c: Cr3, v: VPage)
  type Page = p: seq<byte> | |p| == 4096 witness seq(4096, _ => 0)

  const ZERO_PAGE: Page := seq(4096, _ => 0)
  const U16_MAX := 65535
  const MAX_TRACKED := 65536
  /** Frames of the first four megabytes are pinned when they are mapped. */
  const LOW_FRAMES := 1024

  /** A present entry: its frame, the bits this code touches, and the bits it carries along. */
  datatype Pte = Pte(frame: Frame, writable: bool, cow: bool, rest: nat)

  /** The frames of the third-, second- and first-level tables. */
  datatype Tabs = Tabs(p3: map<nat, Frame>, p2: map<(nat, nat), Frame>, p1: map<(nat, nat, nat), Frame>)

  /** `refs` holds only frames mapped twice or more; `track` says whether a tracked frame is pinned. */
  datatype Mm = Mm(
    all: set<Frame>, free: set<Frame>, mem: map<Frame, Page>,
    tabs: map<Cr3, Tabs>, ptes: map<Key, Pte>,
    refs: map<Frame, nat>, track: map<Frame, bool>)

  // ---------------------------------------------------------------- reference counts

  function RefOf(refs: map<Frame, nat>, f: Frame): nat { if f in refs then refs[f] else 1 }

  /** `ref_inc`: absent means one, sixteen bits, saturating. */
  function RefInc(refs: map<Frame, nat>, f: Frame): map<Frame, nat> {
    var n := RefOf(refs, f);
    refs[f := if n + 1 > U16_MAX then U16_MAX else n + 1]
  }

  /** `ref_dec` and the free path: an entry that falls to one or zero is removed. */
  function RefDec(refs: map<Frame, nat>, f: Frame): map<Frame, nat> {
    if f !in refs then refs
    else if refs[f] <= 2 then refs - {f}
    else refs[f := refs[f] - 1]
  }

  /** Counting is exact up to the width of the counter, and wrong from there on. */
  lemma RefIncExact(refs: map<Frame, nat>, f: Frame)
    requires RefOf(refs, f) <= U16_MAX
    ensures RefOf(RefInc(refs, f), f) == RefOf(refs, f) + 1 <==> RefOf(refs, f) < U16_MAX
  {
  }

  // ---------------------------------------------------------------- who holds what

  function Mappers(ptes: map<Key, Pte>, f: Frame): set<Key> {
    set k | k in ptes && ptes[k].frame == f
  }

  function TableFrames(c: Cr3, t: Tabs): set<Frame> {
    {c} + t.p3.Values + t.p2.Values + t.p1.Values
  }

  ghost predicate IsMapped(ptes: map<Key, Pte>, f: Frame) {
    exists k :: k in ptes && ptes[k].frame == f
  }

  ghost predicate IsTable(tabs: map<Cr3, Tabs>, f: Frame) {
    exists c :: c in tabs && f in TableFrames(c, tabs[c])
  }

  predicate TabsWf(t: Tabs) {
    && (forall q :: q in t.p1 ==> q.2 < 512 && (q.0, q.1) in t.p2)
    && (forall q :: q in t.p2 ==> q.1 < 512 && q.0 in t.p3)
    && (forall i :: i in t.p3 ==> i < 256)
  }

  predicate HasTable(tabs: map<Cr3, Tabs>, c: Cr3, v: VPage) {
    c in tabs && (v.i, v.j, v.k) in tabs[c].p1 && v.m < 512
  }

  predicate PteWf(tabs: map<Cr3, Tabs>, k: Key, p: Pte) {
    && HasTable(tabs, k.c, k.v)
    && (p.writable ==> !p.cow)
  }

  ghost predicate Shape(m: Mm) {
    && (forall c :: c in m.tabs ==> TabsWf(m.tabs[c]))
    && (forall k :: k in m.ptes ==> PteWf(m.tabs, k, m.ptes[k]))
    && m.free <= m.all && m.mem.Keys == m.all
  }

  /** No space maps a frame twice. */
  ghost predicate Injective(m: Mm) {
    forall k, l :: k in m.ptes && l in m.ptes && k != l && k.c == l.c ==> m.ptes[k].frame != m.ptes[l].frame
  }

  /** Every frame is free, a table of one space, or mapped, and only one of these. */
  ghost predicate Owned(m: Mm) {
    && (forall c, d, f :: c in m.tabs && d in m.tabs && f in TableFrames(c, m.tabs[c]) && f in TableFrames(d, m.tabs[d]) ==> c == d)
    && (forall f :: IsTable(m.tabs, f) ==> f in m.all && f !in m.free)
    && (forall k :: k in m.ptes ==>
          var f := m.ptes[k].frame; f in m.all && f !in m.free && !IsTable(m.tabs, f))
  }

  /** Nothing is lost: a frame that nobody holds is free. */
  ghost predicate NoLeak(m: Mm) {
    forall f :: f in m.all && f !in m.free && !IsTable(m.tabs, f) ==> IsMapped(m.ptes, f)
  }

  ghost predicate Counted(m: Mm) {
    && (forall k :: k in m.ptes ==> RefOf(m.refs, m.ptes[k].frame) == |Mappers(m.ptes, m.ptes[k].frame)|)
    && (forall f :: f in m.refs ==> m.refs[f] >= 2 && IsMapped(m.ptes, f))
  }

  /** A page not marked copy-on-write is the only user of its frame. */
  ghost predicate Exclusive(m: Mm) {
    forall k, l :: k in m.ptes && l in m.ptes && k != l && m.ptes[k].frame == m.ptes[l].frame ==> m.ptes[k].cow
  }

  /** The tracked frames are the mapped ones in reach of the table; above low memory, pinned and shared are the same. */
  ghost predicate Pinned(m: Mm) {
    && (forall f: Frame :: f in m.track <==> f < MAX_TRACKED && IsMapped(m.ptes, f))
    && (forall f :: f in m.track && RefOf(m.refs, f) >= 2 ==> m.track[f])
    && (forall f :: f in m.track && f >= LOW_FRAMES && RefOf(m.refs, f) == 1 ==> !m.track[f])
  }

  ghost predicate Inv(m: Mm) {
    Shape(m) && Injective(m) && Owned(m) && NoLeak(m) && Counted(m) && Exclusive(m) && Pinned(m)
  }

  // ---------------------------------------------------------------- what the spaces read

  /** The contents every space sees. */
  function Reads(m: Mm): map<Key, Page> {
    map k | k in m.ptes && m.ptes[k].frame in m.mem :: m.mem[m.ptes[k].frame]
  }

  /** Whether a write is let through, directly or after the fault. */
  function MayWrite(p: Pte): bool { p.writable || p.cow }

  // ---------------------------------------------------------------- single steps

  function Cow(p: Pte): Pte { p.(writable := false, cow := true) }

  /** `q` is `p` with its writability traded for the mark. */
  predicate Marked(p: Pte, q: Pte) { q.frame == p.frame && q.rest == p.rest && q.cow && !q.writable }

  lemma CowMarks(p: Pte)
    ensures Marked(p, Cow(p))
  {
  }

  function Pin(track: map<Frame, bool>, f: Frame, on: bool): map<Frame, bool> {
    if f in track then track[f := on] else track
  }

  function Track(track: map<Frame, bool>, f: Frame, pinned: bool): map<Frame, bool> {
    if f < MAX_TRACKED then track[f := pinned] else track
  }

  /** One page of the clone walk. */
  function Share(m: Mm, src: Cr3, dst: Cr3, v: VPage): Mm
    requires At(src, v) in m.ptes
  {
    var q := Cow(m.ptes[At(src, v)]);
    m.(ptes := m.ptes[At(src, v) := q][At(dst, v) := q],
       refs := RefInc(m.refs, q.frame),
       track := Pin(m.track, q.frame, true))
  }

  /** A fresh frame `f` with contents `page` becomes page `k`. */
  function MapFrame(m: Mm, k: Key, p: Pte, page: Page, pinned: bool): Mm {
    m.(free := m.free - {p.frame}, mem := m.mem[p.frame := page], ptes := m.ptes[k := p],
       track := Track(m.track, p.frame, pinned))
  }

  /** Write fault on a shared page: a private copy in frame `f`. */
  function BreakShared(m: Mm, k: Key, f: Frame): Mm
    requires k in m.ptes && m.ptes[k].frame in m.mem
  {
    var p := m.ptes[k];
    var refs := RefDec(m.refs, p.frame);
    m.(free := m.free - {f}, mem := m.mem[f := m.mem[p.frame]],
       ptes := m.ptes[k := p.(frame := f, writable := true, cow := false)],
       refs := refs,
       track := Track(if p.frame !in refs then Pin(m.track, p.frame, false) else m.track, f, false))
  }

  /** Write fault on a page nobody else maps any more. */
  function BreakLast(m: Mm, k: Key): Mm
    requires k in m.ptes
  {
    var p := m.ptes[k];
    m.(ptes := m.ptes[k := p.(writable := true, cow := false)], track := Pin(m.track, p.frame, false))
  }

  /** `free_frame_cow_swap` on one page of a dying space. */
  function DropPage(m: Mm, k: Key): Mm
    requires k in m.ptes
  {
    var f := m.ptes[k].frame;
    var refs := RefDec(m.refs, f);
    var ptes := m.ptes - {k};
    if f !in m.refs || m.refs[f] <= 1 then
      m.(ptes := ptes, refs := refs, track := m.track - {f}, free := m.free + {f})
    else
      m.(ptes := ptes, refs := refs, track := if f !in refs then Pin(m.track, f, false) else m.track)
  }

  // ---------------------------------------------------------------- sets of mappers

  lemma MappersAdd(ptes: map<Key, Pte>, k: Key, p: Pte, f: Frame)
    requires k !in ptes
    ensures Mappers(ptes[k := p], f) == if f == p.frame then Mappers(ptes, f) + {k} else Mappers(ptes, f)
    ensures |Mappers(ptes[k := p], f)| == |Mappers(ptes, f)| + if f == p.frame then 1 else 0
  {
  }

  lemma MappersSame(ptes: map<Key, Pte>, k: Key, p: Pte, f: Frame)
    requires k in ptes && ptes[k].frame == p.frame
    ensures Mappers(ptes[k := p], f) == Mappers(ptes, f)
  {
  }

  lemma MappersDel(ptes: map<Key, Pte>, k: Key, f: Frame)
    requires k in ptes
    ensures Mappers(ptes - {k}, f) == if f == ptes[k].frame then Mappers(ptes, f) - {k} else Mappers(ptes, f)
    ensures |Mappers(ptes - {k}, f)| == |Mappers(ptes, f)| - if f == ptes[k].frame then 1 else 0
  {
    if f == ptes[k].frame {
      assert k in Mappers(ptes, f);
    }
  }

  /** No space maps a frame twice, so a frame has at most one mapper per space. */
  lemma {:induction false} MappersAtMost(keys: set<Key>, spaces: set<Cr3>)
    requires forall k :: k in keys ==> k.c in spaces
    requires forall k, l :: k in keys && l in keys && k != l ==> k.c != l.c
    ensures |keys| <= |spaces|
    decreases keys
  {
    if k :| k in keys {
      MappersAtMost(keys - {k}, spaces - {k.c});
    }
  }

  // ---------------------------------------------------------------- each step keeps the invariant

  /** `dst` so far maps only frames that `src` maps at the same page. */
  ghost predicate Follows(m: Mm, src: Cr3, dst: Cr3) {
    forall w :: At(dst, w) in m.ptes ==> At(src, w) in m.ptes && m.ptes[At(src, w)].frame == m.ptes[At(dst, w)].frame
  }

  /** What sharing adds: the same frame at the same page of `dst`, both marked. */
  lemma ShareEffect(m: Mm, src: Cr3, dst: Cr3, v: VPage)
    requires At(src, v) in m.ptes && At(dst, v) !in m.ptes
    ensures var m', f := Share(m, src, dst, v), m.ptes[At(src, v)].frame;
            && m'.ptes.Keys == m.ptes.Keys + {At(dst, v)}
            && (forall k :: k in m.ptes ==> m'.ptes[k].frame == m.ptes[k].frame && (m.ptes[k].cow ==> m'.ptes[k].cow))
            && (forall k :: k in m.ptes && k != At(src, v) ==> m'.ptes[k] == m.ptes[k])
            && Marked(m.ptes[At(src, v)], m'.ptes[At(src, v)]) && Marked(m.ptes[At(src, v)], m'.ptes[At(dst, v)])
            && (forall g :: |Mappers(m'.ptes, g)| == |Mappers(m.ptes, g)| + if g == f then 1 else 0)
            && (forall g :: IsMapped(m'.ptes, g) <==> IsMapped(m.ptes, g))
  {
    var m', q := Share(m, src, dst, v), Cow(m.ptes[At(src, v)]);
    var ptes1 := m.ptes[At(src, v) := q];
    forall g ensures |Mappers(m'.ptes, g)| == |Mappers(m.ptes, g)| + if g == q.frame then 1 else 0 {
      MappersSame(m.ptes, At(src, v), q, g);
      MappersAdd(ptes1, At(dst, v), q, g);
    }
    forall g ensures IsMapped(m'.ptes, g) <==> IsMapped(m.ptes, g) {
      if IsMapped(m.ptes, g) {
        var k :| k in m.ptes && m.ptes[k].frame == g;
        assert k in m'.ptes && m'.ptes[k].frame == g;
      }
      if IsMapped(m'.ptes, g) {
        var k :| k in m'.ptes && m'.ptes[k].frame == g;
        assert k == At(dst, v) ==> m.ptes[At(src, v)].frame == g;
      }
    }
  }

  lemma ShareShape(m: Mm, src: Cr3, dst: Cr3, v: VPage)
    requires Shape(m) && At(src, v) in m.ptes && HasTable(m.tabs, dst, v)
    ensures Shape(Share(m, src, dst, v))
  {
    hide RefInc, Pin, TabsWf;
    var m' := Share(m, src, dst, v);
    forall k | k in m'.ptes ensures PteWf(m.tabs, k, m'.ptes[k]) {
      assert PteWf(m.tabs, At(src, v), m.ptes[At(src, v)]);
    }
  }

  lemma ShareInjective(m: Mm, src: Cr3, dst: Cr3, v: VPage)
    requires Injective(m) && At(src, v) in m.ptes && At(dst, v) !in m.ptes && src != dst && Follows(m, src, dst)
    ensures Injective(Share(m, src, dst, v)) && Follows(Share(m, src, dst, v), src, dst)
  {
    hide RefInc, Pin;
    var m' := Share(m, src, dst, v);
    forall k, l | k in m'.ptes && l in m'.ptes && k != l && k.c == l.c
      ensures m'.ptes[k].frame != m'.ptes[l].frame
    {
      if k == At(dst, v) {
        assert m.ptes[At(src, v)].frame != m.ptes[At(src, l.v)].frame;
      } else if l == At(dst, v) {
        assert m.ptes[At(src, v)].frame != m.ptes[At(src, k.v)].frame;
      }
    }
  }

  /** The counter has room for one more mapper of every page of the space. */
  predicate RoomFor(m: Mm, src: Cr3) { forall k :: k in m.ptes && k.c == src ==> RefOf(m.refs, m.ptes[k].frame) < U16_MAX }

  /** Fewer spaces than the counter can count leave room everywhere. */
  lemma FewSpacesLeaveRoom(m: Mm, src: Cr3)
    requires Inv(m) && |m.tabs| < U16_MAX
    ensures RoomFor(m, src)
  {
    hide IsMapped, TabsWf, Shape, Owned, NoLeak, Exclusive, Pinned;
    forall k | k in m.ptes && k.c == src ensures RefOf(m.refs, m.ptes[k].frame) < U16_MAX {
      var keys := Mappers(m.ptes, m.ptes[k].frame);
      forall l | l in keys ensures l.c in m.tabs.Keys {
        SpaceOf(m, l);
      }
      MappersAtMost(keys, m.tabs.Keys);
      assert |m.tabs.Keys| == |m.tabs|;
    }
  }

  lemma SpaceOf(m: Mm, k: Key)
    requires Shape(m) && k in m.ptes
    ensures k.c in m.tabs
  {
    hide TabsWf;
    assert PteWf(m.tabs, k, m.ptes[k]);
  }

  lemma ShareOwned(m: Mm, src: Cr3, dst: Cr3, v: VPage)
    requires Owned(m) && NoLeak(m) && At(src, v) in m.ptes && At(dst, v) !in m.ptes
    ensures Owned(Share(m, src, dst, v)) && NoLeak(Share(m, src, dst, v))
  {
    ShareEffect(m, src, dst, v);
    hide RefInc, Pin, IsTable, TableFrames, IsMapped, Mappers;
  }

  lemma ShareCounted(m: Mm, src: Cr3, dst: Cr3, v: VPage)
    requires Counted(m) && At(src, v) in m.ptes && At(dst, v) !in m.ptes
    requires RefOf(m.refs, m.ptes[At(src, v)].frame) < U16_MAX
    ensures Counted(Share(m, src, dst, v))
  {
    hide IsMapped, Mappers, Pin, Cow;
    ShareEffect(m, src, dst, v);
    var m', f := Share(m, src, dst, v), m.ptes[At(src, v)].frame;
    MappedIntro(m.ptes, At(src, v));
    forall k | k in m'.ptes ensures RefOf(m'.refs, m'.ptes[k].frame) == |Mappers(m'.ptes, m'.ptes[k].frame)| {
      var g := m'.ptes[k].frame;
      var k0 := if k == At(dst, v) then At(src, v) else k;
      assert k0 in m.ptes && m.ptes[k0].frame == g;
      assert |Mappers(m'.ptes, g)| == |Mappers(m.ptes, g)| + if g == f then 1 else 0;
    }
  }

  /** Sharing keeps the counts exactly when the counter has room: one more mapper than it can hold is lost. */
  lemma ShareCountedIff(m: Mm, src: Cr3, dst: Cr3, v: VPage)
    requires Counted(m) && At(src, v) in m.ptes && At(dst, v) !in m.ptes
    requires RefOf(m.refs, m.ptes[At(src, v)].frame) <= U16_MAX
    ensures Counted(Share(m, src, dst, v)) <==> RefOf(m.refs, m.ptes[At(src, v)].frame) < U16_MAX
  {
    hide IsMapped, Mappers, Pin, Cow;
    var m', f := Share(m, src, dst, v), m.ptes[At(src, v)].frame;
    ShareEffect(m, src, dst, v);
    if RefOf(m.refs, f) < U16_MAX {
      ShareCounted(m, src, dst, v);
    } else {
      assert RefOf(m'.refs, f) == RefOf(m.refs, f) && |Mappers(m'.ptes, f)| == |Mappers(m.ptes, f)| + 1;
      assert At(src, v) in m'.ptes && m'.ptes[At(src, v)].frame == f;
    }
  }

  lemma SharePinned(m: Mm, src: Cr3, dst: Cr3, v: VPage)
    requires Pinned(m) && Counted(m) && At(src, v) in m.ptes && At(dst, v) !in m.ptes
    ensures Pinned(Share(m, src, dst, v))
  {
    hide IsMapped, Mappers, Cow;
    ShareEffect(m, src, dst, v);
    MappedIntro(m.ptes, At(src, v));
    MappedCount(m.ptes, m.ptes[At(src, v)].frame);
    PinnedAgain(m, Share(m, src, dst, v), m.ptes[At(src, v)].frame);
  }

  /** One more mapper, and pinned. */
  lemma PinnedAgain(m: Mm, m': Mm, f: Frame)
    requires Pinned(m) && RefOf(m.refs, f) >= 1 && m'.refs == RefInc(m.refs, f) && m'.track == Pin(m.track, f, true)
    requires forall g :: IsMapped(m'.ptes, g) <==> IsMapped(m.ptes, g)
    ensures Pinned(m')
  {
    hide IsMapped;
  }

  lemma MappedIntro(ptes: map<Key, Pte>, k: Key)
    requires k in ptes
    ensures IsMapped(ptes, ptes[k].frame)
  {
  }

  lemma ShareExclusive(m: Mm, src: Cr3, dst: Cr3, v: VPage)
    requires Exclusive(m) && At(src, v) in m.ptes && At(dst, v) !in m.ptes
    ensures Exclusive(Share(m, src, dst, v))
  {
    hide RefInc, Pin;
    var m' := Share(m, src, dst, v);
    forall k, l | k in m'.ptes && l in m'.ptes && k != l && m'.ptes[k].frame == m'.ptes[l].frame
      ensures m'.ptes[k].cow
    {
      if k != At(src, v) && k != At(dst, v) {
        var l' := if l == At(dst, v) then At(src, v) else l;
        assert m.ptes[k].frame == m.ptes[l'].frame;
      }
    }
  }

  lemma ShareKeeps(m: Mm, src: Cr3, dst: Cr3, v: VPage)
    requires Inv(m) && At(src, v) in m.ptes && At(dst, v) !in m.ptes && src != dst
    requires HasTable(m.tabs, dst, v) && Follows(m, src, dst) && RefOf(m.refs, m.ptes[At(src, v)].frame) < U16_MAX
    ensures Inv(Share(m, src, dst, v)) && Follows(Share(m, src, dst, v), src, dst)
  {
    hide Shape, Injective, Owned, NoLeak, Counted, Exclusive, Pinned, Share, Follows;
    ShareShape(m, src, dst, v);
    ShareInjective(m, src, dst, v);
    ShareOwned(m, src, dst, v);
    ShareCounted(m, src, dst, v);
    SharePinned(m, src, dst, v);
    ShareExclusive(m, src, dst, v);
  }

  // ------------------------------------------------ a fresh frame

  lemma MapEffect(m: Mm, k: Key, p: Pte, page: Page, pinned: bool)
    requires k !in m.ptes
    ensures var m' := MapFrame(m, k, p, page, pinned);
            && (forall g :: |Mappers(m'.ptes, g)| == |Mappers(m.ptes, g)| + if g == p.frame then 1 else 0)
            && (forall g :: IsMapped(m'.ptes, g) <==> IsMapped(m.ptes, g) || g == p.frame)
  {
    var m' := MapFrame(m, k, p, page, pinned);
    forall g
      ensures |Mappers(m'.ptes, g)| == |Mappers(m.ptes, g)| + if g == p.frame then 1 else 0
      ensures IsMapped(m'.ptes, g) <==> IsMapped(m.ptes, g) || g == p.frame
    {
      MappersAdd(m.ptes, k, p, g);
      if IsMapped(m.ptes, g) {
        var l :| l in m.ptes && m.ptes[l].frame == g;
        assert l in m'.ptes && m'.ptes[l].frame == g;
      }
      assert m'.ptes[k].frame == p.frame;
    }
  }

  lemma MapOwned(m: Mm, k: Key, p: Pte, page: Page, pinned: bool)
    requires Owned(m) && NoLeak(m) && k !in m.ptes && p.frame in m.free && m.free <= m.all
    ensures Owned(MapFrame(m, k, p, page, pinned)) && NoLeak(MapFrame(m, k, p, page, pinned))
  {
    MapEffect(m, k, p, page, pinned);
    hide IsMapped, Mappers, IsTable, Track;
  }

  /** A free frame is in nobody's page table. */
  lemma FreeUnmapped(m: Mm, f: Frame)
    requires Owned(m) && f in m.free
    ensures !IsMapped(m.ptes, f) && Mappers(m.ptes, f) == {}
  {
    hide IsTable;
  }

  lemma MapCounted(m: Mm, k: Key, p: Pte, page: Page, pinned: bool)
    requires Owned(m) && Counted(m) && k !in m.ptes && p.frame in m.free
    ensures Counted(MapFrame(m, k, p, page, pinned))
  {
    var m' := MapFrame(m, k, p, page, pinned);
    FreeUnmapped(m, p.frame);
    MapEffect(m, k, p, page, pinned);
    hide IsMapped, Mappers, IsTable, Track;
    forall l | l in m'.ptes ensures RefOf(m'.refs, m'.ptes[l].frame) == |Mappers(m'.ptes, m'.ptes[l].frame)| {
      if l != k {
        assert m.ptes[l].frame != p.frame;
      }
    }
  }

  lemma MapPinned(m: Mm, k: Key, p: Pte, page: Page, pinned: bool)
    requires Owned(m) && Counted(m) && Pinned(m) && k !in m.ptes && p.frame in m.free && (pinned ==> p.frame < LOW_FRAMES)
    ensures Pinned(MapFrame(m, k, p, page, pinned))
  {
    hide IsMapped, Mappers, IsTable;
    FreeUnmapped(m, p.frame);
    MapEffect(m, k, p, page, pinned);
    hide Owned, Track;
    PinnedNew(m, MapFrame(m, k, p, page, pinned), p.frame, pinned);
  }

  /** A frame of its own, not counted yet. */
  lemma PinnedNew(m: Mm, m': Mm, f: Frame, pinned: bool)
    requires Pinned(m) && f !in m.refs && (pinned ==> f < LOW_FRAMES) && m'.refs == m.refs && m'.track == Track(m.track, f, pinned)
    requires forall g :: IsMapped(m'.ptes, g) <==> IsMapped(m.ptes, g) || g == f
    ensures Pinned(m')
  {
    hide IsMapped;
  }

  lemma MapAlone(m: Mm, k: Key, p: Pte, page: Page, pinned: bool)
    requires Owned(m) && Exclusive(m) && Injective(m) && k !in m.ptes && p.frame in m.free
    ensures Exclusive(MapFrame(m, k, p, page, pinned)) && Injective(MapFrame(m, k, p, page, pinned))
  {
    hide Track, IsTable;
    assert forall l :: l in m.ptes ==> m.ptes[l].frame != p.frame;
  }

  lemma MapShape(m: Mm, k: Key, p: Pte, page: Page, pinned: bool)
    requires Shape(m) && PteWf(m.tabs, k, p) && p.frame in m.all
    ensures Shape(MapFrame(m, k, p, page, pinned))
  {
    hide Track, TabsWf;
  }

  lemma MapKeeps(m: Mm, k: Key, p: Pte, page: Page, pinned: bool)
    requires Inv(m) && k !in m.ptes && p.frame in m.free && PteWf(m.tabs, k, p) && (pinned ==> p.frame < LOW_FRAMES)
    ensures Inv(MapFrame(m, k, p, page, pinned))
  {
    assert p.frame in m.all && m.free <= m.all by { hide TabsWf, PteWf; }
    hide Shape, Injective, Owned, NoLeak, Counted, Exclusive, Pinned, MapFrame, PteWf;
    MapShape(m, k, p, page, pinned);
    MapOwned(m, k, p, page, pinned);
    MapCounted(m, k, p, page, pinned);
    MapPinned(m, k, p, page, pinned);
    MapAlone(m, k, p, page, pinned);
  }

  // ------------------------------------------------ dropping a page

  lemma DropEffect(m: Mm, k: Key)
    requires k in m.ptes && Counted(m)
    ensures var f := m.ptes[k].frame;
            && (forall g :: |Mappers(m.ptes - {k}, g)| == |Mappers(m.ptes, g)| - if g == f then 1 else 0)
            && (forall g :: g != f ==> (IsMapped(m.ptes - {k}, g) <==> IsMapped(m.ptes, g)))
            && (IsMapped(m.ptes - {k}, f) <==> f in m.refs)
  {
    var f := m.ptes[k].frame;
    forall g ensures |Mappers(m.ptes - {k}, g)| == |Mappers(m.ptes, g)| - if g == f then 1 else 0 {
      MappersDel(m.ptes, k, g);
    }
    MappedCount(m.ptes - {k}, f);
    assert RefOf(m.refs, f) == |Mappers(m.ptes, f)|;
    forall g | g != f ensures IsMapped(m.ptes - {k}, g) <==> IsMapped(m.ptes, g) {
      MappedElsewhere(m.ptes, k, g);
    }
  }

  lemma MappedElsewhere(ptes: map<Key, Pte>, k: Key, g: Frame)
    requires k in ptes && g != ptes[k].frame
    ensures IsMapped(ptes - {k}, g) <==> IsMapped(ptes, g)
  {
    if IsMapped(ptes, g) {
      var l :| l in ptes && ptes[l].frame == g;
      assert l in ptes - {k} && (ptes - {k})[l].frame == g;
    }
  }

  lemma MappedCount(ptes: map<Key, Pte>, f: Frame)
    ensures IsMapped(ptes, f) <==> |Mappers(ptes, f)| > 0
  {
    if IsMapped(ptes, f) {
      var k :| k in ptes && ptes[k].frame == f;
      assert k in Mappers(ptes, f);
    }
    if |Mappers(ptes, f)| > 0 {
      var k :| k in Mappers(ptes, f);
      assert k in ptes && ptes[k].frame == f;
    }
  }

  lemma RefDecFacts(refs: map<Frame, nat>, f: Frame)
    requires forall g :: g in refs ==> refs[g] >= 2
    ensures forall g :: RefOf(RefDec(refs, f), g) == RefOf(refs, g) - if g == f && f in refs then 1 else 0
    ensures forall g :: g in RefDec(refs, f) ==> g in refs && RefDec(refs, f)[g] >= 2
    ensures f in RefDec(refs, f) <==> f in refs && refs[f] > 2
  {
  }

  lemma DropCounted(m: Mm, k: Key)
    requires k in m.ptes && Counted(m)
    ensures Counted(DropPage(m, k))
  {
    var m', f := DropPage(m, k), m.ptes[k].frame;
    RefDecFacts(m.refs, f);
    assert m'.ptes == m.ptes - {k} && m'.refs == RefDec(m.refs, f);
    hide DropPage, RefDec;
    DropEffect(m, k);
    hide RefOf, Mappers;
    forall l | l in m'.ptes ensures RefOf(m'.refs, m'.ptes[l].frame) == |Mappers(m'.ptes, m'.ptes[l].frame)| {
      MappedIntro(m'.ptes, l);
      var g := m'.ptes[l].frame;
      assert l in m.ptes && RefOf(m.refs, g) == |Mappers(m.ptes, g)|;
    }
    hide IsMapped;
    forall g | g in m'.refs ensures m'.refs[g] >= 2 && IsMapped(m'.ptes, g) {
      assert g in m.refs && IsMapped(m.ptes, g);
    }
  }

  lemma DropFree(m: Mm, k: Key)
    requires k in m.ptes && Counted(m)
    ensures var m', f := DropPage(m, k), m.ptes[k].frame;
            && m'.free == (if f in m.refs then m.free else m.free + {f})
            && (f !in m.refs ==> forall l :: l in m'.ptes ==> m'.ptes[l].frame != f)
  {
    var m', f := DropPage(m, k), m.ptes[k].frame;
    DropEffect(m, k);
    forall l | l in m'.ptes && f !in m.refs ensures m'.ptes[l].frame != f {
      MappedIntro(m'.ptes, l);
    }
  }

  lemma DropOwned(m: Mm, k: Key)
    requires k in m.ptes && Counted(m) && Owned(m)
    ensures Owned(DropPage(m, k))
  {
    hide Mappers, Pin, IsTable, TableFrames, Counted, RefDec;
    DropFree(m, k);
  }

  lemma DropNoLeak(m: Mm, k: Key)
    requires k in m.ptes && Counted(m) && NoLeak(m)
    ensures NoLeak(DropPage(m, k))
  {
    hide Mappers, Pin, IsTable, Counted, RefDec, IsMapped;
    DropFree(m, k);
    DropEffect(m, k);
  }

  lemma DropPinned(m: Mm, k: Key)
    requires k in m.ptes && Counted(m) && Pinned(m)
    ensures Pinned(DropPage(m, k))
  {
    hide IsMapped, Mappers;
    DropEffect(m, k);
  }

  lemma DropRest(m: Mm, k: Key)
    requires k in m.ptes && Shape(m) && Exclusive(m) && Injective(m) && m.ptes[k].frame in m.all
    ensures Shape(DropPage(m, k)) && Exclusive(DropPage(m, k)) && Injective(DropPage(m, k))
  {
    hide Pin, RefDec, TabsWf, PteWf;
  }

  lemma DropKeeps(m: Mm, k: Key)
    requires Inv(m) && k in m.ptes
    ensures Inv(DropPage(m, k))
  {
    assert m.ptes[k].frame in m.all by { hide IsTable; }
    hide Shape, Injective, Owned, NoLeak, Counted, Exclusive, Pinned, DropPage;
    DropCounted(m, k);
    DropOwned(m, k);
    DropNoLeak(m, k);
    DropPinned(m, k);
    DropRest(m, k);
  }

  // ------------------------------------------------ the write fault

  /** Giving a shared page a private copy is dropping it and mapping the copy. */
  lemma BreakSharedIsDropThenMap(m: Mm, k: Key, f: Frame)
    requires k in m.ptes && m.ptes[k].frame in m.mem && m.ptes[k].frame in m.refs && m.refs[m.ptes[k].frame] >= 2
    ensures BreakShared(m, k, f) ==
            MapFrame(DropPage(m, k), k, m.ptes[k].(frame := f, writable := true, cow := false), m.mem[m.ptes[k].frame], false)
  {
    assert (m.ptes - {k})[k := m.ptes[k].(frame := f, writable := true, cow := false)]
        == m.ptes[k := m.ptes[k].(frame := f, writable := true, cow := false)];
  }

  /** What the invariant says about one entry. */
  lemma PteFacts(m: Mm, k: Key)
    requires Inv(m) && k in m.ptes
    ensures m.ptes[k].frame in m.all && m.ptes[k].frame in m.mem && m.ptes[k].frame !in m.free
    ensures PteWf(m.tabs, k, m.ptes[k])
    ensures m.ptes[k].frame in m.refs ==> m.refs[m.ptes[k].frame] >= 2
  {
    hide Injective, NoLeak, Exclusive, Pinned, IsTable, TabsWf, PteWf, Mappers, IsMapped;
  }

  lemma BreakSharedKeeps(m: Mm, k: Key, f: Frame)
    requires Inv(m) && k in m.ptes && RefOf(m.refs, m.ptes[k].frame) > 1 && f in m.free
    ensures m.ptes[k].frame in m.mem && Inv(BreakShared(m, k, f))
  {
    hide Inv, BreakShared, MapFrame;
    PteFacts(m, k);
    BreakSharedIsDropThenMap(m, k, f);
    DropKeeps(m, k);
    var p := m.ptes[k].(frame := f, writable := true, cow := false);
    MapKeeps(DropPage(m, k), k, p, m.mem[m.ptes[k].frame], false);
  }

  lemma BreakLastEffect(m: Mm, k: Key)
    requires k in m.ptes
    ensures var m' := BreakLast(m, k);
            && (forall g :: Mappers(m'.ptes, g) == Mappers(m.ptes, g))
            && (forall g :: IsMapped(m'.ptes, g) <==> IsMapped(m.ptes, g))
            && (forall l :: l in m.ptes ==> m'.ptes[l].frame == m.ptes[l].frame)
  {
    var m' := BreakLast(m, k);
    forall g ensures IsMapped(m'.ptes, g) <==> IsMapped(m.ptes, g) {
      MappersSame(m.ptes, k, m'.ptes[k], g);
      MappedCount(m.ptes, g);
      MappedCount(m'.ptes, g);
    }
  }

  /** A frame counted once has one mapper. */
  lemma SoleMapper(m: Mm, k: Key, l: Key)
    requires Counted(m) && k in m.ptes && l in m.ptes && m.ptes[k].frame == m.ptes[l].frame
    requires RefOf(m.refs, m.ptes[k].frame) == 1
    ensures k == l
  {
    var s := Mappers(m.ptes, m.ptes[k].frame);
    assert k in s && l in s && |s| == 1;
    assert |s - {k}| == 0;
  }

  lemma BreakLastKeeps(m: Mm, k: Key)
    requires Inv(m) && k in m.ptes && RefOf(m.refs, m.ptes[k].frame) == 1
    ensures Inv(BreakLast(m, k))
  {
    hide Exclusive, Shape, Injective, Pinned, Counted, Owned, NoLeak, BreakLast;
    BreakLastExclusive(m, k);
    BreakLastShape(m, k);
    BreakLastPinned(m, k);
    BreakLastOwned(m, k);
    BreakLastCounted(m, k);
  }

  lemma BreakLastOwned(m: Mm, k: Key)
    requires Owned(m) && NoLeak(m) && k in m.ptes
    ensures Owned(BreakLast(m, k)) && NoLeak(BreakLast(m, k))
  {
    BreakLastEffect(m, k);
    hide Mappers, IsMapped, IsTable, TableFrames, Pin;
  }

  lemma BreakLastCounted(m: Mm, k: Key)
    requires Counted(m) && k in m.ptes
    ensures Counted(BreakLast(m, k))
  {
    BreakLastEffect(m, k);
    hide Mappers, IsMapped, Pin;
  }

  lemma BreakLastExclusive(m: Mm, k: Key)
    requires Counted(m) && Exclusive(m) && k in m.ptes && RefOf(m.refs, m.ptes[k].frame) == 1
    ensures Exclusive(BreakLast(m, k))
  {
    forall l | l in m.ptes && m.ptes[k].frame == m.ptes[l].frame ensures k == l {
      SoleMapper(m, k, l);
    }
    hide Counted, Pin, RefOf;
  }

  lemma BreakLastShape(m: Mm, k: Key)
    requires Shape(m) && Injective(m) && k in m.ptes
    ensures Shape(BreakLast(m, k)) && Injective(BreakLast(m, k))
  {
    hide Pin, TabsWf;
  }

  lemma BreakLastPinned(m: Mm, k: Key)
    requires Pinned(m) && k in m.ptes && RefOf(m.refs, m.ptes[k].frame) == 1
    ensures Pinned(BreakLast(m, k))
  {
    BreakLastEffect(m, k);
    hide IsMapped, Mappers;
  }

  // ------------------------------------------------ page tables

  /** Space `c` gets tables `t`, which take one free frame `f` more than before. */
  function GrowTabs(m: Mm, c: Cr3, t: Tabs, f: Frame): Mm {
    m.(free := m.free - {f}, tabs := m.tabs[c := t])
  }

  ghost predicate GrowsBy(m: Mm, c: Cr3, t: Tabs, f: Frame) {
    && f in m.free && TabsWf(t)
    && TableFrames(c, t) == (if c in m.tabs then TableFrames(c, m.tabs[c]) else {}) + {f}
    && (c in m.tabs ==> m.tabs[c].p1.Keys <= t.p1.Keys)
  }

  lemma GrowTabsTable(m: Mm, c: Cr3, t: Tabs, f: Frame)
    requires GrowsBy(m, c, t, f)
    ensures forall g :: IsTable(m.tabs[c := t], g) <==> IsTable(m.tabs, g) || g == f
  {
    var tabs' := m.tabs[c := t];
    forall g ensures IsTable(tabs', g) <==> IsTable(m.tabs, g) || g == f {
      if IsTable(m.tabs, g) {
        var d :| d in m.tabs && g in TableFrames(d, m.tabs[d]);
        assert d in tabs' && g in TableFrames(d, tabs'[d]);
      }
      assert c in tabs' && f in TableFrames(c, tabs'[c]);
    }
  }

  lemma GrowTabsOwned(m: Mm, c: Cr3, t: Tabs, f: Frame)
    requires Owned(m) && GrowsBy(m, c, t, f) && m.free <= m.all
    ensures Owned(GrowTabs(m, c, t, f))
  {
    var m' := GrowTabs(m, c, t, f);
    GrowTabsTable(m, c, t, f);
    GrowTabsDisjoint(m, c, t, f);
    hide IsTable, IsMapped, TableFrames, GrowsBy;
    assert f in m.free by { GrowsByFree(m, c, t, f); }
  }

  lemma GrowsByFree(m: Mm, c: Cr3, t: Tabs, f: Frame)
    requires GrowsBy(m, c, t, f)
    ensures f in m.free
  {
  }

  lemma GrowTabsDisjoint(m: Mm, c: Cr3, t: Tabs, f: Frame)
    requires Owned(m) && GrowsBy(m, c, t, f)
    ensures var tabs := m.tabs[c := t];
            forall d, e, g :: d in tabs && e in tabs && g in TableFrames(d, tabs[d]) && g in TableFrames(e, tabs[e]) ==> d == e
  {
    var tabs := m.tabs[c := t];
    assert !IsTable(m.tabs, f);
    hide TableFrames;
    forall d, e, g | d in tabs && e in tabs && g in TableFrames(d, tabs[d]) && g in TableFrames(e, tabs[e]) ensures d == e {
      assert d != c ==> g in TableFrames(d, m.tabs[d]);
      assert e != c ==> g in TableFrames(e, m.tabs[e]);
    }
  }

  lemma GrowTabsNoLeak(m: Mm, c: Cr3, t: Tabs, f: Frame)
    requires NoLeak(m) && GrowsBy(m, c, t, f)
    ensures NoLeak(GrowTabs(m, c, t, f))
  {
    GrowTabsTable(m, c, t, f);
    hide IsTable, IsMapped, TableFrames, GrowsBy;
  }

  lemma GrowTabsShape(m: Mm, c: Cr3, t: Tabs, f: Frame)
    requires Shape(m) && GrowsBy(m, c, t, f)
    ensures Shape(GrowTabs(m, c, t, f))
  {
    hide TableFrames, TabsWf;
  }

  lemma GrowTabsKeeps(m: Mm, c: Cr3, t: Tabs, f: Frame)
    requires Inv(m) && GrowsBy(m, c, t, f)
    ensures Inv(GrowTabs(m, c, t, f))
  {
    hide Shape, Owned, NoLeak, Counted, Exclusive, Pinned, Injective, GrowsBy;
    FreeKnown(m);
    GrowTabsShape(m, c, t, f);
    GrowTabsOwned(m, c, t, f);
    GrowTabsNoLeak(m, c, t, f);
    TablesIrrelevant(m, m.free - {f}, m.tabs[c := t]);
  }

  lemma FreeKnown(m: Mm)
    requires Shape(m)
    ensures m.free <= m.all
  {
    hide TabsWf, PteWf;
  }

  lemma TablesIrrelevant(m: Mm, free: set<Frame>, tabs: map<Cr3, Tabs>)
    ensures Counted(m) ==> Counted(m.(free := free, tabs := tabs))
    ensures Pinned(m) ==> Pinned(m.(free := free, tabs := tabs))
    ensures Exclusive(m) && Injective(m) ==> Exclusive(m.(free := free, tabs := tabs)) && Injective(m.(free := free, tabs := tabs))
  {
    hide IsMapped, Mappers, RefOf;
  }

  lemma ValuesUpdate<X>(m: map<X, Frame>, x: X, f: Frame)
    requires x !in m
    ensures m[x := f].Values == m.Values + {f}
  {
    var m' := m[x := f];
    assert m'[x] == f;
    forall g | g in m.Values ensures g in m'.Values {
      var y :| y in m && m[y] == g;
      assert m'[y] == g;
    }
  }

  /** A space without pages gives all its table frames back. */
  function DropSpace(m: Mm, c: Cr3): Mm
    requires c in m.tabs
  {
    m.(free := m.free + TableFrames(c, m.tabs[c]), tabs := m.tabs - {c})
  }

  lemma DropSpaceOwned(m: Mm, c: Cr3)
    requires Owned(m) && NoLeak(m) && c in m.tabs
    ensures Owned(DropSpace(m, c)) && NoLeak(DropSpace(m, c))
  {
    var m' := DropSpace(m, c);
    forall g
      ensures IsTable(m'.tabs, g) ==> IsTable(m.tabs, g) && g !in TableFrames(c, m.tabs[c])
      ensures IsTable(m.tabs, g) ==> IsTable(m'.tabs, g) || g in TableFrames(c, m.tabs[c])
    {
      if IsTable(m'.tabs, g) {
        var d :| d in m'.tabs && g in TableFrames(d, m'.tabs[d]);
        assert d in m.tabs && g in TableFrames(d, m.tabs[d]) && d != c;
      }
      if IsTable(m.tabs, g) {
        var d :| d in m.tabs && g in TableFrames(d, m.tabs[d]);
        assert d != c ==> d in m'.tabs && g in TableFrames(d, m'.tabs[d]);
      }
    }
    forall g | g in TableFrames(c, m.tabs[c]) ensures IsTable(m.tabs, g) {
    }
    hide IsTable, IsMapped, TableFrames;
  }

  lemma DropSpaceShape(m: Mm, c: Cr3)
    requires Shape(m) && c in m.tabs && TableFrames(c, m.tabs[c]) <= m.all
    requires forall k :: k in m.ptes ==> k.c != c
    ensures Shape(DropSpace(m, c))
  {
    hide TabsWf, TableFrames;
  }

  lemma DropSpaceKeeps(m: Mm, c: Cr3)
    requires Inv(m) && c in m.tabs
    requires forall k :: k in m.ptes ==> k.c != c
    ensures Inv(DropSpace(m, c))
  {
    hide Owned, NoLeak, Shape, TableFrames, IsMapped, Mappers, RefOf;
    SpaceTablesKnown(m, c);
    DropSpaceOwned(m, c);
    DropSpaceShape(m, c);
  }

  lemma SpaceTablesKnown(m: Mm, c: Cr3)
    requires Owned(m) && c in m.tabs
    ensures TableFrames(c, m.tabs[c]) <= m.all
  {
    hide TableFrames;
    forall g | g in TableFrames(c, m.tabs[c]) ensures g in m.all {
      assert IsTable(m.tabs, g);
    }
  }

  // ------------------------------------------------ user stores

  function Store(m: Mm, k: Key, page: Page): Mm
    requires k in m.ptes
  {
    m.(mem := m.mem[m.ptes[k].frame := page])
  }

  lemma StoreShape(m: Mm, k: Key, page: Page)
    requires Shape(m) && k in m.ptes && m.ptes[k].frame in m.all
    ensures Shape(Store(m, k, page))
  {
    hide TabsWf, PteWf;
    assert Store(m, k, page).mem.Keys == m.mem.Keys + {m.ptes[k].frame};
  }

  /** Apart from the shape of memory, the invariant does not look at contents. */
  lemma ContentsIrrelevant(m: Mm, mem: map<Frame, Page>)
    ensures Owned(m) ==> Owned(m.(mem := mem))
    ensures NoLeak(m) ==> NoLeak(m.(mem := mem))
    ensures Counted(m) ==> Counted(m.(mem := mem))
    ensures Pinned(m) ==> Pinned(m.(mem := mem))
    ensures Exclusive(m) && Injective(m) ==> Exclusive(m.(mem := mem)) && Injective(m.(mem := mem))
  {
    hide IsMapped, Mappers, RefOf, IsTable, TableFrames;
  }

  lemma StoreKeeps(m: Mm, k: Key, page: Page)
    requires Inv(m) && k in m.ptes
    ensures Inv(Store(m, k, page))
  {
    PteFacts(m, k);
    hide Shape, Owned, NoLeak, Counted, Pinned, Exclusive, Injective;
    StoreShape(m, k, page);
    ContentsIrrelevant(m, m.mem[m.ptes[k].frame := page]);
  }

  // ---------------------------------------------------------------- what every step does to the reads

  ghost predicate Readable(m: Mm) { forall k :: k in m.ptes ==> m.ptes[k].frame in m.mem && m.ptes[k].frame !in m.free }

  lemma InvReadable(m: Mm)
    requires Inv(m)
    ensures Readable(m) && Reads(m).Keys == m.ptes.Keys
  {
    hide Inv, PteWf;
    forall k | k in m.ptes ensures m.ptes[k].frame in m.mem && m.ptes[k].frame !in m.free {
      PteFacts(m, k);
    }
  }

  lemma MapReads(m: Mm, k: Key, p: Pte, page: Page, pinned: bool)
    requires Readable(m) && p.frame in m.free
    ensures Reads(MapFrame(m, k, p, page, pinned)) == Reads(m)[k := page]
  {
    hide Track;
  }

  /** Neither way of breaking the sharing changes what anyone reads. */
  lemma BreakSharedReads(m: Mm, k: Key, f: Frame)
    requires Readable(m) && k in m.ptes && f in m.free
    ensures m.ptes[k].frame in m.mem && Reads(BreakShared(m, k, f)) == Reads(m)
  {
    hide RefDec, Track, Pin;
  }

  lemma BreakLastReads(m: Mm, k: Key)
    requires k in m.ptes
    ensures Reads(BreakLast(m, k)) == Reads(m)
  {
    hide Pin;
  }

  /** A store through a writable entry is seen by that page alone. */
  lemma StoreReads(m: Mm, k: Key, page: Page)
    requires Inv(m) && k in m.ptes && m.ptes[k].writable
    ensures Reads(Store(m, k, page)) == Reads(m)[k := page]
  {
    hide Inv, Reads, Store;
    InvReadable(m);
    WritableAlone(m, k);
    StoreAlone(m, k, page);
  }

  lemma StoreAlone(m: Mm, k: Key, page: Page)
    requires Readable(m) && k in m.ptes
    requires forall l :: l in m.ptes && l != k ==> m.ptes[l].frame != m.ptes[k].frame
    ensures Reads(Store(m, k, page)) == Reads(m)[k := page]
  {
  }

  lemma WritableAlone(m: Mm, k: Key)
    requires Inv(m) && k in m.ptes && m.ptes[k].writable
    ensures forall l :: l in m.ptes && l != k ==> m.ptes[l].frame != m.ptes[k].frame
  {
    PteFacts(m, k);
    hide Counted, Pinned, NoLeak, Owned, Injective, Shape;
  }
}
