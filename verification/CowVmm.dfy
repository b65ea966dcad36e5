/**
 The address-space object: fresh pages, copy-on-write fork, the write fault and
 teardown, proved against what eagerly copied spaces would read.
 */
module CowVmm {
  import opened Common
  import opened CowModel
  import opened CowWalk

  // ---------------------------------------------------------------- tables

  function WithTable(t: Tabs, x: Item, f: Frame): Tabs {
    match x
    case T3(i) => t.(p3 := t.p3[i := f])
    case T2(i, j) => t.(p2 := t.p2[(i, j) := f])
    case T1(i, j, k) => t.(p1 := t.p1[(i, j, k) := f])
    case Pg(_) => t
  }

  function TableCount(t: Tabs): nat { |t.p3| + |t.p2| + |t.p1| }

  predicate HasItem(t: Tabs, x: Item) { InTree(t, {}, x) }

  /** An absent table whose parent is there. */
  predicate CanGrow(t: Tabs, x: Item) {
    && !x.Pg? && !HasItem(t, x)
    && match x
       case T3(i) => i < 256
       case T2(i, j) => j < 512 && i in t.p3
       case T1(i, j, k) => k < 512 && (i, j) in t.p2
  }

  lemma WithTableFacts(t: Tabs, x: Item, f: Frame)
    requires CanGrow(t, x)
    ensures forall y :: HasItem(WithTable(t, x, f), y) <==> HasItem(t, y) || y == x
    ensures TableCount(WithTable(t, x, f)) == TableCount(t) + 1
    ensures TabsWf(t) ==> TabsWf(WithTable(t, x, f))
  {
  }

  lemma WithTableFrames(t: Tabs, c: Cr3, x: Item, f: Frame)
    requires CanGrow(t, x)
    ensures TableFrames(c, WithTable(t, x, f)) == TableFrames(c, t) + {f}
  {
    match x
    case T3(i) => ValuesUpdate(t.p3, i, f);
    case T2(i, j) => ValuesUpdate(t.p2, (i, j), f);
    case T1(i, j, k) => ValuesUpdate(t.p1, (i, j, k), f);
  }

  lemma Grows(m: Mm, c: Cr3, x: Item, f: Frame)
    requires Inv(m) && c in m.tabs && CanGrow(m.tabs[c], x) && f in m.free
    ensures GrowsBy(m, c, WithTable(m.tabs[c], x, f), f)
  {
    assert TabsWf(m.tabs[c]) by { hide Owned, NoLeak, Counted, Exclusive, Pinned, Injective, CanGrow, TabsWf; }
    hide Inv;
    WithTableFacts(m.tabs[c], x, f);
    WithTableFrames(m.tabs[c], c, x, f);
    hide TabsWf, TableFrames;
  }

  lemma NewSpaceGrows(m: Mm, c: Cr3)
    requires Inv(m) && c in m.free
    ensures c !in m.tabs && GrowsBy(m, c, Tabs(map[], map[], map[]), c)
    ensures forall k :: k in m.ptes ==> k.c != c
  {
    var t := Tabs(map[], map[], map[]);
    assert c !in m.tabs by {
      hide Shape, NoLeak, Counted, Exclusive, Pinned, Injective;
      assert c in m.tabs ==> c in TableFrames(c, m.tabs[c]);
    }
    assert TableFrames(c, t) == {c};
    forall k | k in m.ptes ensures k.c != c {
      PteFacts(m, k);
    }
    hide Inv;
  }

  lemma NewSpaceKeeps(m: Mm, c: Cr3)
    requires Inv(m) && c in m.free
    ensures c !in m.tabs && Inv(GrowTabs(m, c, Tabs(map[], map[], map[]), c))
    ensures forall k :: k in m.ptes ==> k.c != c
  {
    hide Inv, GrowsBy;
    NewSpaceGrows(m, c);
    GrowTabsKeeps(m, c, Tabs(map[], map[], map[]), c);
  }

  // ---------------------------------------------------------------- a clone under way

  /** The items of a space, as the walk sees them. */
  function PagesOf(ptes: map<Key, Pte>, c: Cr3): set<VPage> { set k | k in ptes && k.c == c :: k.v }

  lemma PagesOfKey(ptes: map<Key, Pte>, c: Cr3, v: VPage)
    ensures v in PagesOf(ptes, c) <==> At(c, v) in ptes
  {
    if v in PagesOf(ptes, c) {
      var k :| k in ptes && k.c == c && k.v == v;
      assert k == At(c, v);
    }
    if At(c, v) in ptes {
      assert At(c, v).v == v;
    }
  }

  lemma SpaceWf(m: Mm, c: Cr3)
    requires Inv(m) && c in m.tabs
    ensures TreeWf(m.tabs[c], PagesOf(m.ptes, c))
  {
    assert TabsWf(m.tabs[c]) by { hide Owned, NoLeak, Counted, Exclusive, Pinned, Injective, TabsWf; }
    forall v | v in PagesOf(m.ptes, c) ensures (v.i, v.j, v.k) in m.tabs[c].p1 && v.m < 512 {
      PagesOfKey(m.ptes, c, v);
      PteFacts(m, At(c, v));
    }
  }

  /** `dst` has the tables met so far. */
  ghost predicate TablesCloned(tabs0: map<Cr3, Tabs>, tabs: map<Cr3, Tabs>, dst: Cr3, done: set<Item>) {
    && dst !in tabs0 && dst in tabs && tabs == tabs0[dst := tabs[dst]]
    && forall x: Item :: !x.Pg? ==> (HasItem(tabs[dst], x) <==> x in done)
  }

  /** `dst` has the pages met so far; they are marked in both spaces and nothing else changed. */
  ghost predicate PagesCloned(ptes0: map<Key, Pte>, ptes: map<Key, Pte>, src: Cr3, dst: Cr3, done: set<Item>) {
    && (forall k :: k in ptes0 ==> k.c != dst)
    && (forall v :: Pg(v) in done ==> At(src, v) in ptes0)
    && (forall k :: k in ptes <==> k in ptes0 || (k.c == dst && Pg(k.v) in done))
    && (forall k :: k in ptes0 ==> if k.c == src && Pg(k.v) in done then Marked(ptes0[k], ptes[k]) else ptes[k] == ptes0[k])
    && (forall v :: Pg(v) in done ==> Marked(ptes0[At(src, v)], ptes[At(dst, v)]))
  }

  ghost predicate Cloning(m0: Mm, m: Mm, src: Cr3, dst: Cr3, done: set<Item>) {
    && src != dst && m.mem == m0.mem && m.all == m0.all
    && TablesCloned(m0.tabs, m.tabs, dst, done)
    && PagesCloned(m0.ptes, m.ptes, src, dst, done)
    && |m.free| + 1 + TableCount(m.tabs[dst]) == |m0.free|
  }

  lemma CloneStart(m0: Mm, src: Cr3, dst: Cr3)
    requires src in m0.tabs && dst !in m0.tabs && dst in m0.free
    requires forall k :: k in m0.ptes ==> k.c != dst
    ensures Cloning(m0, GrowTabs(m0, dst, Tabs(map[], map[], map[]), dst), src, dst, {})
  {
    hide Marked;
  }

  lemma CloneTable(m0: Mm, m: Mm, src: Cr3, dst: Cr3, done: set<Item>, x: Item, f: Frame)
    requires Cloning(m0, m, src, dst, done) && CanGrow(m.tabs[dst], x) && f in m.free
    ensures Cloning(m0, GrowTabs(m, dst, WithTable(m.tabs[dst], x, f), f), src, dst, done + {x})
  {
    hide WithTable, TableCount, HasItem, CanGrow, PagesCloned;
    WithTableFacts(m.tabs[dst], x, f);
    CanGrowTable(m.tabs[dst], x);
    PagesTable(m0.ptes, m.ptes, src, dst, done, x);
  }

  /** A table is no page. */
  lemma PagesTable(ptes0: map<Key, Pte>, ptes: map<Key, Pte>, src: Cr3, dst: Cr3, done: set<Item>, x: Item)
    requires PagesCloned(ptes0, ptes, src, dst, done) && !x.Pg?
    ensures PagesCloned(ptes0, ptes, src, dst, done + {x})
  {
    hide Marked;
  }

  lemma CanGrowTable(t: Tabs, x: Item)
    requires CanGrow(t, x)
    ensures !x.Pg?
  {
  }

  lemma ClonePage(m0: Mm, m: Mm, src: Cr3, dst: Cr3, done: set<Item>, v: VPage)
    requires Cloning(m0, m, src, dst, done) && Pg(v) !in done && At(src, v) in m0.ptes
    ensures At(src, v) in m.ptes && Cloning(m0, Share(m, src, dst, v), src, dst, done + {Pg(v)})
  {
    hide RefInc, Pin, TableCount, HasItem, Cow, Marked, TablesCloned;
    CowMarks(m.ptes[At(src, v)]);
    assert TablesCloned(m0.tabs, m.tabs, dst, done + {Pg(v)}) by { TablesPage(m0.tabs, m.tabs, dst, done, v); }
  }

  /** A page is no table. */
  lemma TablesPage(tabs0: map<Cr3, Tabs>, tabs: map<Cr3, Tabs>, dst: Cr3, done: set<Item>, v: VPage)
    requires TablesCloned(tabs0, tabs, dst, done)
    ensures TablesCloned(tabs0, tabs, dst, done + {Pg(v)})
  {
    hide HasItem;
  }

  /** A page not met yet has the mappers it had. */
  lemma CloneRoom(m0: Mm, m: Mm, src: Cr3, dst: Cr3, done: set<Item>, v: VPage)
    requires Inv(m0) && Inv(m) && RoomFor(m0, src) && Cloning(m0, m, src, dst, done) && Pg(v) !in done && At(src, v) in m0.ptes
    ensures At(src, v) in m.ptes && RefOf(m.refs, m.ptes[At(src, v)].frame) < U16_MAX
  {
    hide Shape, Owned, NoLeak, Exclusive, Pinned, TablesCloned, IsMapped, Mappers;
    CloneMappers(m0, m, src, dst, done, v);
  }

  lemma CloneMappers(m0: Mm, m: Mm, src: Cr3, dst: Cr3, done: set<Item>, v: VPage)
    requires Injective(m0) && PagesCloned(m0.ptes, m.ptes, src, dst, done) && Pg(v) !in done && At(src, v) in m0.ptes
    ensures At(src, v) in m.ptes && m.ptes[At(src, v)].frame == m0.ptes[At(src, v)].frame
    ensures Mappers(m.ptes, m0.ptes[At(src, v)].frame) == Mappers(m0.ptes, m0.ptes[At(src, v)].frame)
  {
    var f := m0.ptes[At(src, v)].frame;
    forall k ensures k in m.ptes && m.ptes[k].frame == f <==> k in m0.ptes && m0.ptes[k].frame == f {
      assert k.c == dst && Pg(k.v) in done ==> m0.ptes[At(src, k.v)].frame != f;
    }
  }

  lemma CloneFollows(m0: Mm, m: Mm, src: Cr3, dst: Cr3, done: set<Item>)
    requires Cloning(m0, m, src, dst, done)
    ensures Follows(m, src, dst)
  {
  }

  predicate ParentDone(x: Item, done: set<Item>) {
    match x
    case T3(i) => i < 256
    case T2(i, j) => j < 512 && T3(i) in done
    case T1(i, j, k) => k < 512 && T2(i, j) in done
    case Pg(v) => v.m < 512 && T1(v.i, v.j, v.k) in done
  }

  lemma CloneHasTable(m0: Mm, m: Mm, src: Cr3, dst: Cr3, done: set<Item>, v: VPage)
    requires Cloning(m0, m, src, dst, done) && ParentDone(Pg(v), done)
    ensures HasTable(m.tabs, dst, v)
  {
    hide PagesCloned, TableCount;
  }

  /** Nothing below a table was met before it, and its own table was. */
  lemma CloneCanGrow(m0: Mm, m: Mm, src: Cr3, dst: Cr3, done: set<Item>, x: Item)
    requires Cloning(m0, m, src, dst, done) && !x.Pg? && x !in done && ParentDone(x, done)
    ensures CanGrow(m.tabs[dst], x)
  {
    hide PagesCloned, TableCount;
  }

  // ---------------------------------------------------------------- what an eager copy reads

  /** Fork by copying every page of `src` into the child. */
  ghost predicate EagerFork<X(!new)>(r: map<Key, X>, r': map<Key, X>, src: Cr3, dst: Cr3) {
    && (forall k :: k in r ==> k.c != dst)
    && (forall k :: k in r' <==> k in r || (k.c == dst && At(src, k.v) in r))
    && (forall k :: k in r ==> r'[k] == r[k])
    && (forall v :: At(src, v) in r ==> r'[At(dst, v)] == r[At(src, v)])
  }

  /** Every page of `src` is in both spaces with its frame and the bits it carries, its writability lost to the mark. */
  ghost predicate AllMarked(ptes0: map<Key, Pte>, ptes: map<Key, Pte>, src: Cr3, dst: Cr3) {
    && (forall k :: k in ptes0 ==> k.c != dst)
    && (forall k :: k in ptes <==> k in ptes0 || (k.c == dst && At(src, k.v) in ptes0))
    && (forall k :: k in ptes0 && k.c != src ==> ptes[k] == ptes0[k])
    && (forall v :: At(src, v) in ptes0 ==>
          Marked(ptes0[At(src, v)], ptes[At(src, v)]) && Marked(ptes0[At(src, v)], ptes[At(dst, v)]))
  }

  /** A clone given up leaves every entry as it was, but for the mark on pages of `src` it had met. */
  ghost predicate SomeMarked(ptes0: map<Key, Pte>, ptes: map<Key, Pte>, src: Cr3) {
    && ptes.Keys == ptes0.Keys
    && forall k :: k in ptes ==> ptes[k] == ptes0[k] || (k.c == src && Marked(ptes0[k], ptes[k]))
  }

  ghost predicate AllDone(m0: Mm, src: Cr3, done: set<Item>)
    requires src in m0.tabs
  {
    && (forall x: Item :: !x.Pg? ==> (x in done <==> HasItem(m0.tabs[src], x)))
    && (forall v :: Pg(v) in done <==> At(src, v) in m0.ptes)
  }

  lemma CloneEnd(m0: Mm, m: Mm, src: Cr3, dst: Cr3, done: set<Item>)
    requires Cloning(m0, m, src, dst, done) && src in m0.tabs && AllDone(m0, src, done) && Readable(m0)
    ensures AllMarked(m0.ptes, m.ptes, src, dst)
    ensures EagerFork(Reads(m0), Reads(m), src, dst)
    ensures forall x :: HasItem(m.tabs[dst], x) <==> HasItem(m0.tabs[src], x)
    ensures TableCount(m.tabs[dst]) == TableCount(m0.tabs[src])
  {
    assert AllMarked(m0.ptes, m.ptes, src, dst) by { hide Cow; }
    assert forall k :: k in m0.ptes ==> k.c != dst;
    assert m.mem == m0.mem;
    assert forall x :: HasItem(m.tabs[dst], x) <==> HasItem(m0.tabs[src], x) by {
      forall x ensures HasItem(m.tabs[dst], x) <==> HasItem(m0.tabs[src], x) {
        if x.Pg? {
        }
      }
    }
    SameItemsSameCount(m.tabs[dst], m0.tabs[src]);
    hide Cloning, AllDone, HasItem, TableCount;
    MarkedReads(m0, m, src, dst);
  }

  lemma MarkedReads(m0: Mm, m: Mm, src: Cr3, dst: Cr3)
    requires AllMarked(m0.ptes, m.ptes, src, dst) && m.mem == m0.mem && Readable(m0)
    requires forall k :: k in m0.ptes ==> k.c != dst
    ensures EagerFork(Reads(m0), Reads(m), src, dst)
  {
    forall k | k in m.ptes
      ensures k in m0.ptes ==> m.ptes[k].frame == m0.ptes[k].frame
      ensures k !in m0.ptes ==> k.c == dst && At(src, k.v) in m0.ptes && m.ptes[k].frame == m0.ptes[At(src, k.v)].frame
    {
      if k in m0.ptes && k.c == src {
        assert k == At(src, k.v);
      }
      if k !in m0.ptes {
        assert k == At(dst, k.v);
      }
    }
    hide Cow;
  }

  lemma SubsetCard<X>(a: set<X>, b: set<X>)
    requires a <= b
    ensures |a| <= |b| && (a != b ==> |a| < |b|)
  {
    assert b == a + (b - a);
    assert a != b ==> b - a != {};
  }

  lemma SameItemsSameCount(t: Tabs, u: Tabs)
    requires forall x :: HasItem(t, x) <==> HasItem(u, x)
    ensures TableCount(t) == TableCount(u)
  {
    FewerItems(t, u);
    FewerItems(u, t);
  }

  lemma FewerItems(t: Tabs, u: Tabs)
    requires forall x :: HasItem(t, x) ==> HasItem(u, x)
    ensures TableCount(t) <= TableCount(u)
    ensures forall x :: HasItem(u, x) && !HasItem(t, x) ==> TableCount(t) < TableCount(u)
  {
    forall i | i in t.p3 ensures i in u.p3 { assert HasItem(t, T3(i)); }
    forall q | q in t.p2 ensures q in u.p2 { assert HasItem(t, T2(q.0, q.1)); }
    forall q | q in t.p1 ensures q in u.p1 { assert HasItem(t, T1(q.0, q.1, q.2)); }
    SubsetCard(t.p3.Keys, u.p3.Keys);
    SubsetCard(t.p2.Keys, u.p2.Keys);
    SubsetCard(t.p1.Keys, u.p1.Keys);
  }

  /** Counts and the free set are functions of who maps what. */
  lemma Canonical(m: Mm, n: Mm)
    requires Inv(m) && Inv(n) && m.all == n.all && m.tabs == n.tabs && m.ptes.Keys == n.ptes.Keys
    requires forall k :: k in m.ptes ==> m.ptes[k].frame == n.ptes[k].frame
    ensures m.free == n.free && m.refs == n.refs
  {
    hide Mappers, IsMapped, Shape, Owned, NoLeak, Counted, Exclusive, Pinned, Injective;
    SameMappers(m.ptes, n.ptes);
    FreeKnown(m);
    FreeKnown(n);
    CanonicalRefs(m, n);
    CanonicalRefs(n, m);
    CanonicalFree(m, n);
    CanonicalFree(n, m);
  }

  lemma SameMappers(p: map<Key, Pte>, q: map<Key, Pte>)
    requires p.Keys == q.Keys && forall k :: k in p ==> p[k].frame == q[k].frame
    ensures forall f :: Mappers(p, f) == Mappers(q, f) && (IsMapped(p, f) <==> IsMapped(q, f))
  {
    forall f ensures Mappers(p, f) == Mappers(q, f) && (IsMapped(p, f) <==> IsMapped(q, f)) {
      MappedCount(p, f);
      MappedCount(q, f);
    }
  }

  lemma CanonicalRefs(m: Mm, n: Mm)
    requires Counted(m) && Counted(n)
    requires forall k :: k in m.ptes <==> k in n.ptes
    requires forall k :: k in m.ptes ==> m.ptes[k].frame == n.ptes[k].frame
    requires forall f :: Mappers(m.ptes, f) == Mappers(n.ptes, f)
    ensures forall f :: f in m.refs ==> f in n.refs && m.refs[f] == n.refs[f]
  {
    forall f | f in m.refs ensures f in n.refs && m.refs[f] == n.refs[f] {
      assert IsMapped(m.ptes, f);
      var k :| k in m.ptes && m.ptes[k].frame == f;
      assert RefOf(m.refs, f) == |Mappers(m.ptes, f)| == RefOf(n.refs, f);
    }
  }

  lemma CanonicalFree(m: Mm, n: Mm)
    requires Owned(m) && NoLeak(n) && m.free <= m.all && m.all == n.all && m.tabs == n.tabs
    requires forall f :: IsMapped(m.ptes, f) <==> IsMapped(n.ptes, f)
    ensures m.free <= n.free
  {
    forall f | f in m.free ensures f in n.free {
      FreeUnmapped(m, f);
    }
  }

  // ---------------------------------------------------------------- teardown

  ghost predicate Dropped(ptes0: map<Key, Pte>, ptes: map<Key, Pte>, c: Cr3, done: seq<Item>) {
    && (forall k :: k in ptes <==> k in ptes0 && !(k.c == c && Pg(k.v) in done))
    && (forall k :: k in ptes ==> ptes[k] == ptes0[k])
  }

  /** Failure is running out, and changes nothing; success is a root nobody had. */
  ghost predicate SpaceMade(m0: Mm, r: Option<Cr3>, m: Mm) {
    match r
    case None => m0.free == {} && m == m0
    case Some(c) =>
      && c in m0.free && c !in m0.tabs && (forall k :: k in m0.ptes ==> k.c != c)
      && m == GrowTabs(m0, c, Tabs(map[], map[], map[]), c)
  }

  lemma AllDropped(ptes0: map<Key, Pte>, ptes: map<Key, Pte>, c: Cr3, done: seq<Item>)
    requires Dropped(ptes0, ptes, c, done) && forall v :: Pg(v) in done <==> At(c, v) in ptes0
    ensures forall k :: k in ptes <==> k in ptes0 && k.c != c
  {
    forall k ensures k in ptes <==> k in ptes0 && k.c != c {
      if k.c == c {
        assert k == At(c, k.v);
      }
    }
  }

  lemma PagesMet(m: Mm, c: Cr3, items: seq<Item>)
    requires c in m.tabs && forall x :: x in items <==> InTree(m.tabs[c], PagesOf(m.ptes, c), x)
    ensures forall v :: Pg(v) in items <==> At(c, v) in m.ptes
  {
    forall v ensures Pg(v) in items <==> At(c, v) in m.ptes { PagesOfKey(m.ptes, c, v); }
  }

  lemma ItemsDistinct(t: Tabs, pages: set<VPage>, items: seq<Item>, n: nat)
    requires n < |items| && Ordered(items)
    ensures items[n] !in items[..n]
  {
  }

  lemma FewerTables(tabs: map<Cr3, Tabs>, c: Cr3, f: Frame)
    ensures IsTable(tabs - {c}, f) ==> IsTable(tabs, f)
  {
    if IsTable(tabs - {c}, f) {
      var d :| d in tabs - {c} && f in TableFrames(d, (tabs - {c})[d]);
      assert d in tabs && f in TableFrames(d, tabs[d]);
    }
  }

  /** A frame the space mapped: free now if no other space has it. */
  lemma FreedExactly(m0: Mm, m: Mm, k: Key, c: Cr3)
    requires Inv(m0) && Inv(m) && m.all == m0.all && k in m0.ptes && m.tabs == m0.tabs - {c}
    ensures var f := m0.ptes[k].frame; f in m.free <==> forall l :: l in m.ptes ==> m.ptes[l].frame != f
  {
    var f := m0.ptes[k].frame;
    assert f in m.all && !IsTable(m.tabs, f) by {
      hide Shape, NoLeak, Counted, Exclusive, Pinned, Injective;
      FewerTables(m0.tabs, c, f);
    }
    hide Shape, Counted, Exclusive, Pinned, Injective, IsTable;
  }

  // ---------------------------------------------------------------- what the operations promise

  /** Fork: both spaces read what an eager copy gives; failure leaves every count and frame as it was. */
  ghost predicate Forked(m0: Mm, src: Cr3, r: Option<Cr3>, m: Mm)
    requires src in m0.tabs
  {
    match r
    case None =>
      && |m0.free| <= TableCount(m0.tabs[src]) && SomeMarked(m0.ptes, m.ptes, src)
      && Reads(m) == Reads(m0) && m.mem == m0.mem && m.free == m0.free && m.refs == m0.refs && m.tabs == m0.tabs
    case Some(dst) =>
      && |m0.free| > TableCount(m0.tabs[src])
      && dst !in m0.tabs && dst in m.tabs && m.tabs == m0.tabs[dst := m.tabs[dst]]
      && (forall x :: HasItem(m.tabs[dst], x) <==> HasItem(m0.tabs[src], x))
      && EagerFork(Reads(m0), Reads(m), src, dst)
      && AllMarked(m0.ptes, m.ptes, src, dst)
  }

  /** A clone given up half way: the frames everybody else maps are the ones they had. */
  lemma CloneUndone(m0: Mm, m1: Mm, m: Mm, src: Cr3, dst: Cr3, done: set<Item>)
    requires Inv(m0) && Inv(m) && Cloning(m0, m1, src, dst, done)
    requires m.all == m1.all && m.mem == m1.mem && m.tabs == m1.tabs - {dst}
    requires forall k :: k in m.ptes <==> k in m1.ptes && k.c != dst
    requires forall k :: k in m.ptes ==> m.ptes[k] == m1.ptes[k]
    ensures SomeMarked(m0.ptes, m.ptes, src)
    ensures Reads(m) == Reads(m0) && m.mem == m0.mem && m.free == m0.free && m.refs == m0.refs && m.tabs == m0.tabs
  {
    hide Inv, TableCount, HasItem, Reads;
    assert m.tabs == m0.tabs;
    forall k ensures k in m.ptes <==> k in m0.ptes
      ensures k in m.ptes ==> m.ptes[k].frame == m0.ptes[k].frame
    {
    }
    assert m.ptes.Keys == m0.ptes.Keys;
    Canonical(m, m0);
    SameReads(m, m0);
  }

  lemma SameReads(m: Mm, n: Mm)
    requires m.mem == n.mem && m.ptes.Keys == n.ptes.Keys
    requires forall k :: k in m.ptes ==> m.ptes[k].frame == n.ptes[k].frame
    ensures Reads(m) == Reads(n)
  {
    assert forall k :: k in m.ptes <==> k in n.ptes;
  }

  /** Not enough frames for the tables that are left. */
  lemma CloneShort(m0: Mm, m: Mm, src: Cr3, dst: Cr3, done: set<Item>, x: Item)
    requires Cloning(m0, m, src, dst, done) && src in m0.tabs && m.free == {}
    requires HasItem(m0.tabs[src], x) && !x.Pg? && x !in done
    requires forall y: Item :: y in done && !y.Pg? ==> HasItem(m0.tabs[src], y)
    ensures |m0.free| <= TableCount(m0.tabs[src])
  {
    hide PagesCloned, TableCount;
    forall y | HasItem(m.tabs[dst], y) ensures HasItem(m0.tabs[src], y) {
      assert !y.Pg?;
    }
    FewerItems(m.tabs[dst], m0.tabs[src]);
  }

  lemma TreeItems(m: Mm, c: Cr3, items: seq<Item>)
    requires c in m.tabs && forall x :: x in items <==> InTree(m.tabs[c], PagesOf(m.ptes, c), x)
    ensures forall x: Item :: !x.Pg? ==> (x in items <==> HasItem(m.tabs[c], x))
  {
  }

  lemma CloneCounts(m0: Mm, m: Mm, src: Cr3, dst: Cr3, done: set<Item>)
    requires Cloning(m0, m, src, dst, done)
    ensures dst in m.tabs && dst !in m0.tabs && m.tabs == m0.tabs[dst := m.tabs[dst]] && |m.tabs| == |m0.tabs| + 1 && src != dst
    ensures |m0.free| == |m.free| + 1 + TableCount(m.tabs[dst])
    ensures forall v :: Pg(v) !in done ==> At(dst, v) !in m.ptes
  {
    hide HasItem, TableCount;
    assert m.tabs.Keys == m0.tabs.Keys + {dst};
  }

  lemma ParentFirstDone(t: Tabs, pages: set<VPage>, items: seq<Item>, n: nat, done: set<Item>)
    requires TreeWf(t, pages) && n < |items| && Ordered(items)
    requires forall x :: x in items <==> InTree(t, pages, x)
    requires done == set x | x in items[..n]
    ensures items[n] !in done && ParentDone(items[n], done)
  {
    hide TreeWf, Ordered, InTree;
    ParentFirst(t, pages, items, n);
  }

  // ---------------------------------------------------------------- mapping

  ghost predicate Ensured(m0: Mm, c: Cr3, x: Item, ok: bool, m: Mm)
    requires c in m0.tabs
  {
    && c in m.tabs && m.tabs == m0.tabs[c := m.tabs[c]]
    && m.ptes == m0.ptes && m.mem == m0.mem && m.refs == m0.refs && m.all == m0.all && m.track == m0.track
    && (ok <==> HasItem(m0.tabs[c], x) || |m0.free| > 1)
    && (!ok ==> m == m0)
    && (ok ==> HasItem(m.tabs[c], x) && |m.free| == |m0.free| - if HasItem(m0.tabs[c], x) then 0 else 1)
    && (forall y :: y != x ==> (HasItem(m.tabs[c], y) <==> HasItem(m0.tabs[c], y)))
  }

  lemma OnlyOne(free: set<Frame>, f: Frame)
    requires f in free
    ensures free <= {f} <==> |free| <= 1
  {
    assert free <= {f} ==> free == {f};
    assert |free - {f}| == |free| - 1;
  }

  lemma WithTableAny(t: Tabs, x: Item)
    requires CanGrow(t, x)
    ensures forall f, y :: HasItem(WithTable(t, x, f), y) <==> HasItem(t, y) || y == x
  {
    forall f, y ensures HasItem(WithTable(t, x, f), y) <==> HasItem(t, y) || y == x { WithTableFacts(t, x, f); }
  }

  /** The tables a page still needs. */
  function Missing(t: Tabs, v: VPage): nat {
    (if HasItem(t, T3(v.i)) then 0 else 1) + (if HasItem(t, T2(v.i, v.j)) then 0 else 1)
    + (if HasItem(t, T1(v.i, v.j, v.k)) then 0 else 1)
  }

  lemma GrowableTables(t: Tabs, v: VPage)
    requires v.i < 256 && v.j < 512 && v.k < 512
    ensures HasItem(t, T3(v.i)) || CanGrow(t, T3(v.i))
    ensures HasItem(t, T3(v.i)) ==> HasItem(t, T2(v.i, v.j)) || CanGrow(t, T2(v.i, v.j))
    ensures HasItem(t, T2(v.i, v.j)) ==> HasItem(t, T1(v.i, v.j, v.k)) || CanGrow(t, T1(v.i, v.j, v.k))
  {
  }

  lemma HasTableOf(tabs: map<Cr3, Tabs>, c: Cr3, v: VPage, p: Pte)
    requires c in tabs && HasItem(tabs[c], T1(v.i, v.j, v.k)) && v.m < 512 && !p.cow
    ensures PteWf(tabs, At(c, v), p)
  {
  }

  /** A new page reads what was put in it and changes no other; it fails exactly when the frames do not last. */
  ghost predicate FreshMapped(m0: Mm, c: Cr3, v: VPage, page: Page, writable: bool, rest: nat, ok: bool, m: Mm)
    requires c in m0.tabs
  {
    && c in m.tabs && m.tabs == m0.tabs[c := m.tabs[c]] && m.refs == m0.refs
    && (ok <==> |m0.free| > Missing(m0.tabs[c], v))
    && (!ok ==> m.ptes == m0.ptes && m.mem == m0.mem && m.track == m0.track)
    && (ok ==> At(c, v) in m.ptes && m.ptes == m0.ptes[At(c, v) := m.ptes[At(c, v)]]
               && m.ptes[At(c, v)].writable == writable && !m.ptes[At(c, v)].cow && m.ptes[At(c, v)].rest == rest
               && m.ptes[At(c, v)].frame in m0.free - m.free
               && m.track == Track(m0.track, m.ptes[At(c, v)].frame, m.ptes[At(c, v)].frame < LOW_FRAMES))
    && Reads(m) == if ok then Reads(m0)[At(c, v) := page] else Reads(m0)
  }

  // ---------------------------------------------------------------- writing

  lemma CountPositive(m: Mm, k: Key)
    requires Inv(m) && k in m.ptes
    ensures RefOf(m.refs, m.ptes[k].frame) >= 1
  {
    PteFacts(m, k);
    hide Inv;
  }

  /** Breaking changes nobody's contents; it fails exactly on a shared page without a frame for the copy. */
  ghost predicate Unshared(m0: Mm, k: Key, ok: bool, m: Mm) {
    && Reads(m) == Reads(m0) && m.tabs == m0.tabs
    && (k !in m0.ptes ==> m == m0 && ok == HasTable(m0.tabs, k.c, k.v))
    && (k in m0.ptes && !m0.ptes[k].cow ==> m == m0 && ok)
    && (k in m0.ptes && m0.ptes[k].cow ==>
          && (ok <==> RefOf(m0.refs, m0.ptes[k].frame) == 1 || m0.free != {})
          && (!ok ==> m == m0)
          && (ok ==> k in m.ptes && m.ptes == m0.ptes[k := m.ptes[k]] && m.ptes[k].writable && !m.ptes[k].cow
                     && m.ptes[k].rest == m0.ptes[k].rest
                     && if RefOf(m0.refs, m0.ptes[k].frame) == 1 then m.ptes[k].frame == m0.ptes[k].frame && m.free == m0.free
                        else m.ptes[k].frame in m0.free && m.free == m0.free - {m.ptes[k].frame}))
  }

  /** The page may be written, and there is a frame for the copy if one is needed. */
  ghost predicate StoreAllowed(m: Mm, k: Key) {
    && k in m.ptes && MayWrite(m.ptes[k])
    && (m.ptes[k].writable || RefOf(m.refs, m.ptes[k].frame) == 1 || m.free != {})
  }

  /** A store that is let through is seen at that page of that space alone. */
  ghost predicate Stored(m0: Mm, k: Key, off: nat, b: byte, ok: bool, m: Mm)
    requires off < 4096
  {
    && m.tabs == m0.tabs
    && (ok <==> StoreAllowed(m0, k))
    && (ok ==> k in Reads(m0)) && Bits(m) == Bits(m0)
    && Reads(m) == if ok then Reads(m0)[k := Reads(m0)[k][off := b]] else Reads(m0)
  }

  /** The bits of every entry that this code only carries along. */
  function Bits(m: Mm): map<Key, nat> { map k | k in m.ptes :: m.ptes[k].rest }

  lemma SameBits(m0: Mm, m: Mm)
    requires m.ptes.Keys == m0.ptes.Keys && forall k :: k in m.ptes ==> m.ptes[k].rest == m0.ptes[k].rest
    ensures Bits(m) == Bits(m0)
  {
    assert forall k :: k in m.ptes <==> k in m0.ptes;
  }

  lemma MarkedBits(m0: Mm, m: Mm, src: Cr3, dst: Cr3)
    requires AllMarked(m0.ptes, m.ptes, src, dst)
    ensures EagerFork(Bits(m0), Bits(m), src, dst)
  {
    forall k | k in m0.ptes ensures m.ptes[k].rest == m0.ptes[k].rest {
      assert k.c == src ==> k == At(src, k.v);
    }
  }

  lemma ForkedBits(m0: Mm, src: Cr3, r: Option<Cr3>, m: Mm)
    requires src in m0.tabs && Forked(m0, src, r, m)
    ensures if r.Some? then EagerFork(Bits(m0), Bits(m), src, r.value) else Bits(m) == Bits(m0)
  {
    hide HasItem, TableCount, Reads, EagerFork, AllMarked;
    if r.Some? {
      MarkedBits(m0, m, src, r.value);
    } else {
      SameBits(m0, m);
    }
  }

  lemma MappedBits(m0: Mm, c: Cr3, v: VPage, page: Page, writable: bool, rest: nat, ok: bool, m: Mm)
    requires c in m0.tabs && FreshMapped(m0, c, v, page, writable, rest, ok, m)
    ensures Bits(m) == if ok then Bits(m0)[At(c, v) := rest] else Bits(m0)
  {
    hide Missing, Reads, Track;
  }

  lemma ExitBits(m0: Mm, m: Mm, c: Cr3)
    requires forall k :: k in m.ptes <==> k in m0.ptes && k.c != c
    requires forall k :: k in m.ptes ==> m.ptes[k] == m0.ptes[k]
    ensures Bits(m) == map k | k in Bits(m0) && k.c != c :: Bits(m0)[k]
  {
  }

  lemma ReadsAt(m: Mm, k: Key)
    requires k in m.ptes && m.ptes[k].frame in m.mem
    ensures k in Reads(m) && Reads(m)[k] == m.mem[m.ptes[k].frame]
  {
  }

  lemma ExitReads(m0: Mm, m: Mm, c: Cr3)
    requires m.mem == m0.mem
    requires forall k :: k in m.ptes <==> k in m0.ptes && k.c != c
    requires forall k :: k in m.ptes ==> m.ptes[k] == m0.ptes[k]
    ensures Reads(m) == map k | k in Reads(m0) && k.c != c :: Reads(m0)[k]
  {
  }

  // ---------------------------------------------------------------- histories

  datatype Request =
    | Create | Map(c: Cr3, v: VPage, page: Page, writable: bool, rest: nat) | Clone(src: Cr3)
    | Write(c: Cr3, v: VPage, off: nat, b: byte) | End(c: Cr3)

  datatype Event =
    | Refused | Created(c: Cr3) | Mapped(c: Cr3, v: VPage, page: Page, rest: nat) | Cloned(src: Cr3, dst: Cr3)
    | Wrote(c: Cr3, v: VPage, off: nat, b: byte) | Ended(c: Cr3)

  /** What an event does to spaces that own their pages outright. */
  ghost predicate Eager(r: map<Key, Page>, e: Event, r': map<Key, Page>) {
    match e
    case Refused => r' == r
    case Created(_) => r' == r
    case Mapped(c, v, page, _) => r' == r[At(c, v) := page]
    case Cloned(src, dst) => EagerFork(r, r', src, dst)
    case Wrote(c, v, off, b) => off < 4096 && At(c, v) in r && r' == r[At(c, v) := r[At(c, v)][off := b]]
    case Ended(c) => r' == map k | k in r && k.c != c :: r[k]
  }

  /** What it does to the bits the entries carry: a child gets its parent's, and no store or fault touches them. */
  ghost predicate EagerBits(b: map<Key, nat>, e: Event, b': map<Key, nat>) {
    match e
    case Mapped(c, v, _, rest) => b' == b[At(c, v) := rest]
    case Cloned(src, dst) => EagerFork(b, b', src, dst)
    case Ended(c) => b' == map k | k in b && k.c != c :: b[k]
    case _ => b' == b
  }

  /** What each request is answered: refused exactly when the space is not there, the page is taken or out of range,
      the store is not allowed, or frames do not last. */
  ghost predicate Answers(m: Mm, q: Request, e: Event) {
    match q
    case Create => if m.free == {} then e == Refused else e.Created? && e.c !in m.tabs
    case Map(c, v, page, writable, rest) =>
      if c in m.tabs && At(c, v) !in m.ptes && InRange(v) && |m.free| > Missing(m.tabs[c], v)
      then e == Mapped(c, v, page, rest)
      else e == Refused
    case Clone(src) =>
      if src in m.tabs && |m.free| > TableCount(m.tabs[src])
      then e.Cloned? && e.src == src && e.dst !in m.tabs
      else e == Refused
    case Write(c, v, off, b) => e == if off < 4096 && StoreAllowed(m, At(c, v)) then Wrote(c, v, off, b) else Refused
    case End(c) => e == if c in m.tabs then Ended(c) else Refused
  }

  /** A fork finds room in the counter of every page it shares. */
  predicate Countable(m: Mm, q: Request) { q.Clone? && q.src in m.tabs ==> RoomFor(m, q.src) }

  /** The spaces there are after an event. */
  ghost predicate SpacesAfter(m0: Mm, e: Event, m: Mm) {
    m.tabs.Keys ==
    match e
    case Created(c) => m0.tabs.Keys + {c}
    case Cloned(_, dst) => m0.tabs.Keys + {dst}
    case Ended(c) => m0.tabs.Keys - {c}
    case _ => m0.tabs.Keys
  }

  predicate InRange(v: VPage) { v.i < 256 && v.j < 512 && v.k < 512 && v.m < 512 }

  ghost predicate EagerRun(rs: seq<map<Key, Page>>, log: seq<Event>) {
    |rs| == |log| + 1 && forall n :: 0 <= n < |log| ==> Eager(rs[n], log[n], rs[n + 1])
  }

  /** The space an event is allowed to change. */
  predicate Touches(e: Event, k: Key) {
    match e
    case Mapped(c, v, _, _) => k == At(c, v)
    case Wrote(c, v, _, _) => k == At(c, v)
    case Ended(c) => k.c == c
    case _ => false
  }

  /** Whatever parents, children and strangers do, a page keeps its contents until its own space changes it. */
  lemma {:induction false} PagesArePrivate(rs: seq<map<Key, Page>>, log: seq<Event>, k: Key)
    requires EagerRun(rs, log) && k in rs[0]
    requires forall n :: 0 <= n < |log| ==> !Touches(log[n], k)
    ensures k in rs[|log|] && rs[|log|][k] == rs[0][k]
    decreases |log|
  {
    if log != [] {
      var n := |log| - 1;
      assert EagerRun(rs[..|log|], log[..n]);
      PagesArePrivate(rs[..|log|], log[..n], k);
      assert Eager(rs[n], log[n], rs[n + 1]) && !Touches(log[n], k);
    }
  }

  /** The bits an entry carries, user access and no-execute among them, last as long as the entry. */
  lemma {:induction false} BitsStay(ms: seq<Mm>, log: seq<Event>, k: Key)
    requires |ms| == |log| + 1 && forall n :: 0 <= n < |log| ==> EagerBits(Bits(ms[n]), log[n], Bits(ms[n + 1]))
    requires k in ms[0].ptes && forall n :: 0 <= n < |log| ==> !Touches(log[n], k) || log[n].Wrote?
    ensures k in ms[|log|].ptes && ms[|log|].ptes[k].rest == ms[0].ptes[k].rest
    decreases |log|
  {
    if log != [] {
      var n := |log| - 1;
      forall i | 0 <= i < n ensures EagerBits(Bits(ms[..|log|][i]), log[..n][i], Bits(ms[..|log|][i + 1])) {
        assert ms[..|log|][i + 1] == ms[i + 1];
      }
      BitsStay(ms[..|log|], log[..n], k);
      assert EagerBits(Bits(ms[n]), log[n], Bits(ms[n + 1]));
      assert k in Bits(ms[n]) && Bits(ms[n])[k] == ms[n].ptes[k].rest;
      assert k in Bits(ms[n + 1]) && Bits(ms[n + 1])[k] == ms[n + 1].ptes[k].rest;
    }
  }

  // ---------------------------------------------------------------- permissions across a fork

  /** After a fork every page of both spaces can be written, so permissions are those of an eager copy
      exactly when every page of the parent could be written before. */
  lemma ForkPermissions(ptes0: map<Key, Pte>, ptes: map<Key, Pte>, src: Cr3, dst: Cr3)
    requires AllMarked(ptes0, ptes, src, dst)
    ensures (forall v :: At(src, v) in ptes0 ==>
               && MayWrite(ptes[At(src, v)]) == MayWrite(ptes0[At(src, v)])
               && MayWrite(ptes[At(dst, v)]) == MayWrite(ptes0[At(src, v)]))
            <==> (forall v :: At(src, v) in ptes0 ==> MayWrite(ptes0[At(src, v)]))
  {
    forall v | At(src, v) in ptes0 ensures MayWrite(ptes[At(src, v)]) && MayWrite(ptes[At(dst, v)]) {
      assert Marked(ptes0[At(src, v)], ptes[At(src, v)]) && Marked(ptes0[At(src, v)], ptes[At(dst, v)]);
    }
  }

  /** A page mapped read-only: refused before the fork, let through after it. */
  lemma ReadOnlyPageTurnsWritable(src: Cr3, dst: Cr3, v: VPage, f: Frame)
    requires src != dst
    ensures var p := Pte(f, false, false, 0);
            && AllMarked(map[At(src, v) := p], map[At(src, v) := Cow(p), At(dst, v) := Cow(p)], src, dst)
            && !MayWrite(p) && MayWrite(Cow(p))
  {
  }

  // ---------------------------------------------------------------- the object

  class Vmm {
    const all: set<Frame>
    var free: set<Frame>
    var mem: map<Frame, Page>
    var tabs: map<Cr3, Tabs>
    var ptes: map<Key, Pte>
    var refs: map<Frame, nat>
    var track: map<Frame, bool>

    function View(): Mm
      reads this
    {
      Mm(all, free, mem, tabs, ptes, refs, track)
    }

    ghost predicate Valid()
      reads this
    {
      Inv(View())
    }

    constructor (frames: set<Frame>)
      ensures Valid() && all == free == frames && tabs == map[] && ptes == map[]
    {
      all, free, mem := frames, frames, map f | f in frames :: ZERO_PAGE;
      tabs, ptes, refs, track := map[], map[], map[], map[];
    }

    /** A frame for table `x` of space `c`; `hold` is taken already. */
    method NewTable(c: Cr3, x: Item, hold: set<Frame>) returns (r: Option<Frame>)
      requires Valid() && c in tabs && CanGrow(tabs[c], x)
      modifies this`free, this`tabs
      ensures Valid()
      ensures r.None? <==> old(free) <= hold
      ensures r.None? ==> View() == old(View())
      ensures r.Some? ==>
        && r.value in old(free) - hold
        && View() == old(GrowTabs(View(), c, WithTable(tabs[c], x, r.value), r.value))
    {
      hide Inv, CanGrow, WithTable;
      if free <= hold {
        return None;
      }
      assert exists f :: f in free && f !in hold;
      var f :| f in free && f !in hold;
      Grows(View(), c, x, f);
      GrowTabsKeeps(View(), c, WithTable(tabs[c], x, f), f);
      free, tabs := free - {f}, tabs[c := WithTable(tabs[c], x, f)];
      r := Some(f);
    }

    /** An empty space of its own. */
    method NewSpace() returns (r: Option<Cr3>)
      requires Valid()
      modifies this`free, this`tabs
      ensures Valid()
      ensures SpaceMade(old(View()), r, View())
    {
      hide Inv, GrowsBy;
      if free == {} {
        r := None;
      } else {
        var c :| c in free;
        NewSpaceKeeps(View(), c);
        free, tabs := free - {c}, tabs[c := Tabs(map[], map[], map[])];
        r := Some(c);
      }
    }

    /** `free_frame_cow_swap` and the entry with it. */
    method Unmap(k: Key)
      requires Valid() && k in ptes
      modifies this`free, this`ptes, this`refs, this`track
      ensures Valid() && ptes == old(ptes) - {k}
    {
      hide Inv, RefDec, Pin;
      DropKeeps(View(), k);
      var f := ptes[k].frame;
      var left := RefDec(refs, f);
      if f !in refs || refs[f] <= 1 {
        track, free := track - {f}, free + {f};
      } else if f !in left {
        track := Pin(track, f, false);
      }
      ptes, refs := ptes - {k}, left;
    }

    /** Tear a space down: a frame goes back exactly when nobody else maps it. */
    method Exit(c: Cr3)
      requires Valid() && c in tabs
      modifies this
      ensures Valid() && mem == old(mem)
      ensures tabs == old(tabs) - {c}
      ensures forall k :: k in ptes <==> k in old(ptes) && k.c != c
      ensures forall k :: k in ptes ==> ptes[k] == old(ptes)[k]
      ensures forall k :: k in old(ptes) && k.c == c ==>
        var f := old(ptes)[k].frame; f in free <==> forall l :: l in ptes ==> ptes[l].frame != f
    {
      hide Inv, TreeWf, Ordered, InTree, PagesOf, TableFrames;
      ghost var m0 := View();
      var pages := PagesOf(ptes, c);
      SpaceWf(View(), c);
      var items := Walk(tabs[c], pages);
      PagesMet(m0, c, items);
      for n := 0 to |items|
        invariant Valid() && mem == m0.mem && tabs == m0.tabs
        invariant Dropped(m0.ptes, ptes, c, items[..n])
      {
        ItemsDistinct(tabs[c], pages, items, n);
        assert items[..n + 1] == items[..n] + [items[n]];
        if items[n].Pg? {
          var k := At(c, items[n].v);
          assert items[n] in items;
          Unmap(k);
        }
      }
      assert items[..|items|] == items;
      assert forall k :: k in ptes <==> k in m0.ptes && k.c != c by { AllDropped(m0.ptes, ptes, c, items); }
      DropSpaceKeeps(View(), c);
      free, tabs := free + TableFrames(c, tabs[c]), tabs - {c};
      forall k | k in m0.ptes && k.c == c
        ensures var f := m0.ptes[k].frame; f in free <==> forall l :: l in ptes ==> ptes[l].frame != f
      {
        FreedExactly(m0, View(), k, c);
      }
    }

    /** One step of the clone walk: a table, which may find no frame, or a page. */
    method CloneItem(ghost m0: Mm, src: Cr3, dst: Cr3, ghost done: set<Item>, x: Item) returns (ok: bool)
      requires Valid() && Cloning(m0, View(), src, dst, done) && Inv(m0) && RoomFor(m0, src)
      requires x !in done && ParentDone(x, done) && (x.Pg? ==> At(src, x.v) in m0.ptes)
      modifies this
      ensures Valid()
      ensures ok ==> Cloning(m0, View(), src, dst, done + {x})
      ensures !ok ==> !x.Pg? && free == {} && View() == old(View())
    {
      hide Inv, Cloning, RefInc, Pin, CanGrow, WithTable, GrowTabs, HasTable, Follows, ParentDone;
      CloneCounts(m0, View(), src, dst, done);
      if x.Pg? {
        var v := x.v;
        CloneHasTable(m0, View(), src, dst, done, v);
        CloneFollows(m0, View(), src, dst, done);
        ClonePage(m0, View(), src, dst, done, v);
        CloneRoom(m0, View(), src, dst, done, v);
        ShareKeeps(View(), src, dst, v);
        var p := Cow(ptes[At(src, v)]);
        ptes := ptes[At(src, v) := p][At(dst, v) := p];
        refs := RefInc(refs, p.frame);
        track := Pin(track, p.frame, true);
        return true;
      }
      CloneCanGrow(m0, View(), src, dst, done, x);
      ghost var m1 := View();
      var f := NewTable(dst, x, {});
      if f.None? {
        return false;
      }
      CloneTable(m0, m1, src, dst, done, x, f.value);
      return true;
    }


    /** The clone walk: all of `src`, or as far as the frames last. */
    method CloneAll(ghost m0: Mm, src: Cr3, dst: Cr3) returns (ok: bool, ghost done: set<Item>)
      requires Valid() && Inv(m0) && src in m0.tabs && RoomFor(m0, src)
      requires Cloning(m0, View(), src, dst, {}) && tabs == m0.tabs[dst := Tabs(map[], map[], map[])] && ptes == m0.ptes
      modifies this
      ensures Valid() && Cloning(m0, View(), src, dst, done)
      ensures ok ==> AllDone(m0, src, done)
      ensures !ok ==> |m0.free| <= TableCount(m0.tabs[src])
    {
      hide Inv, TreeWf, Ordered, InTree, PagesOf, Cloning, HasItem, TableCount, ParentDone;
      CloneCounts(m0, View(), src, dst, {});
      SpaceWf(m0, src);
      var pages := PagesOf(ptes, src);
      var items := Walk(tabs[src], pages);
      PagesMet(m0, src, items);
      TreeItems(m0, src, items);
      done := {};
      for n := 0 to |items|
        invariant Valid() && done == (set x | x in items[..n])
        invariant Cloning(m0, View(), src, dst, done)
      {
        ParentFirstDone(m0.tabs[src], pages, items, n, done);
        var x := items[n];
        assert x in items;
        ok := CloneItem(m0, src, dst, done, x);
        if !ok {
          CloneShort(m0, View(), src, dst, done, x);
          return;
        }
        done := done + {x};
        assert items[..n + 1] == items[..n] + [x];
      }
      assert items[..|items|] == items;
      ok := true;
    }

    /** `clone_cow`. The counter of a frame is sixteen bits wide, so it must have room for one more. */
    method Fork(src: Cr3) returns (r: Option<Cr3>)
      requires Valid() && src in tabs && RoomFor(View(), src)
      modifies this
      ensures Valid() && Forked(old(View()), src, r, View())
    {
      hide Inv, Cloning, AllDone, HasItem, TableCount, Readable, AllMarked, EagerFork, Reads;
      ghost var m0 := View();
      var root := NewSpace();
      if root.None? {
        return None;
      }
      var dst := root.value;
      CloneStart(m0, src, dst);
      var ok, done := CloneAll(m0, src, dst);
      CloneCounts(m0, View(), src, dst, done);
      if !ok {
        ghost var m1 := View();
        Exit(dst);
        CloneUndone(m0, m1, View(), src, dst, done);
        return None;
      }
      InvReadable(m0);
      CloneEnd(m0, View(), src, dst, done);
      return Some(dst);
    }

    /** `get_or_create`, with frame `f` already taken for the page itself. */
    method EnsureTable(c: Cr3, x: Item, f: Frame) returns (ok: bool)
      requires Valid() && c in tabs && f in free && (HasItem(tabs[c], x) || CanGrow(tabs[c], x))
      modifies this`free, this`tabs
      ensures Valid() && f in free && Ensured(old(View()), c, x, ok, View())
    {
      hide Inv, CanGrow, WithTable, TableCount, HasItem;
      ok := true;
      if !HasItem(tabs[c], x) {
        ghost var m0 := View();
        WithTableAny(tabs[c], x);
        var r := NewTable(c, x, {f});
        ok := r.Some?;
        OnlyOne(m0.free, f);
      }
    }

    /** The three tables above a page. */
    method EnsureTables(c: Cr3, v: VPage, f: Frame) returns (ok: bool)
      requires Valid() && c in tabs && f in free && v.i < 256 && v.j < 512 && v.k < 512
      modifies this`free, this`tabs
      ensures Valid() && f in free && c in tabs && tabs == old(tabs)[c := tabs[c]]
      ensures ok <==> |old(free)| > Missing(old(tabs)[c], v)
      ensures ok ==> HasItem(tabs[c], T1(v.i, v.j, v.k))
    {
      hide Inv, CanGrow, HasItem;
      GrowableTables(tabs[c], v);
      assert |free| > 0;
      ok := EnsureTable(c, T3(v.i), f);
      if ok {
        GrowableTables(tabs[c], v);
        ok := EnsureTable(c, T2(v.i, v.j), f);
        if ok {
          GrowableTables(tabs[c], v);
          ok := EnsureTable(c, T1(v.i, v.j, v.k), f);
        }
      }
    }

    /** A fresh frame holding `page` at an unmapped address: `alloc_frame`, then `map_page`. */
    method MapFresh(c: Cr3, v: VPage, page: Page, writable: bool, rest: nat) returns (ok: bool)
      requires Valid() && c in tabs && At(c, v) !in ptes
      requires v.i < 256 && v.j < 512 && v.k < 512 && v.m < 512
      modifies this
      ensures Valid() && FreshMapped(old(View()), c, v, page, writable, rest, ok, View())
    {
      hide Inv, HasItem, PteWf, Reads, Track, Readable, Missing;
      ghost var m0 := View();
      if free == {} {
        return false;
      }
      var f :| f in free;
      ok := EnsureTables(c, v, f);
      SameReads(View(), m0);
      if ok {
        var p := Pte(f, writable, false, rest);
        HasTableOf(tabs, c, v, p);
        MapKeeps(View(), At(c, v), p, page, f < LOW_FRAMES);
        InvReadable(View());
        MapReads(View(), At(c, v), p, page, f < LOW_FRAMES);
        free, mem, ptes, track := free - {f}, mem[f := page], ptes[At(c, v) := p], Track(track, f, f < LOW_FRAMES);
      }
    }

    /** `break_cow_page`: give the page a frame of its own, by copy or by taking the last one over. */
    method BreakCow(c: Cr3, v: VPage) returns (ok: bool)
      requires Valid()
      modifies this
      ensures Valid() && Unshared(old(View()), At(c, v), ok, View())
    {
      hide Inv, RefDec, Pin, Track, Reads, Readable, HasTable;
      var k := At(c, v);
      if k !in ptes {
        return HasTable(tabs, c, v);
      }
      if !ptes[k].cow {
        return true;
      }
      var p := ptes[k];
      InvReadable(View());
      CountPositive(View(), k);
      if RefOf(refs, p.frame) > 1 {
        if free == {} {
          return false;
        }
        var f :| f in free;
        BreakSharedKeeps(View(), k, f);
        BreakSharedReads(View(), k, f);
        free, mem := free - {f}, mem[f := mem[p.frame]];
        refs := RefDec(refs, p.frame);
        if p.frame !in refs {
          track := Pin(track, p.frame, false);
        }
        ptes := ptes[k := p.(frame := f, writable := true, cow := false)];
        track := Track(track, f, false);
      } else {
        BreakLastKeeps(View(), k);
        BreakLastReads(View(), k);
        ptes := ptes[k := p.(writable := true, cow := false)];
        track := Pin(track, p.frame, false);
      }
      ok := true;
    }

    /** A user store: the hardware writes through a writable entry, the fault handler breaks a shared one first. */
    method UserWrite(c: Cr3, v: VPage, off: nat, b: byte) returns (ok: bool)
      requires Valid() && off < 4096
      modifies this
      ensures Valid() && Stored(old(View()), At(c, v), off, b, ok, View())
    {
      hide Inv, Reads, Readable, HasTable;
      var k := At(c, v);
      if k !in ptes || !MayWrite(ptes[k]) {
        InvReadable(View());
        return false;
      }
      PteFacts(View(), k);
      if ptes[k].cow {
        ok := BreakCow(c, v);
        if !ok {
          return;
        }
      }
      PteFacts(View(), k);
      var page := mem[ptes[k].frame];
      ReadsAt(View(), k);
      StoreKeeps(View(), k, page[off := b]);
      StoreReads(View(), k, page[off := b]);
      mem := mem[ptes[k].frame := page[off := b]];
      ok := true;
    }

    /** One request, refused when the kernel would refuse it. */
    method Do(q: Request) returns (e: Event)
      requires Valid() && Countable(View(), q)
      modifies this
      ensures Valid() && Eager(old(Reads(View())), e, Reads(View())) && EagerBits(old(Bits(View())), e, Bits(View()))
      ensures Answers(old(View()), q, e) && SpacesAfter(old(View()), e, View())
    {
      hide Inv, Reads, Readable, HasItem, AllMarked, TableCount, Missing, EagerFork, Bits;
      e := Refused;
      match q {
        case Create =>
          var r := NewSpace();
          if r.Some? { e := Created(r.value); }
          SameReads(View(), old(View()));
          SameBits(old(View()), View());
        case Map(c, v, page, writable, rest) =>
          if c in tabs && At(c, v) !in ptes && InRange(v) {
            var ok := MapFresh(c, v, page, writable, rest);
            if ok { e := Mapped(c, v, page, rest); }
            MappedBits(old(View()), c, v, page, writable, rest, ok, View());
          }
        case Clone(src) =>
          if src in tabs {
            var r := Fork(src);
            if r.Some? { e := Cloned(src, r.value); }
            ForkedBits(old(View()), src, r, View());
          }
        case Write(c, v, off, b) =>
          if off < 4096 {
            var ok := UserWrite(c, v, off, b);
            if ok { e := Wrote(c, v, off, b); }
          }
        case End(c) =>
          if c in tabs {
            Exit(c);
            ExitReads(old(View()), View(), c);
            ExitBits(old(View()), View(), c);
            e := Ended(c);
          }
      }
    }

    /**
     Every history of requests is answered as it should be and shows every space what eager copies would show it,
     up to the first fork that would overflow a counter, which takes 65535 spaces.
     */
    method Serve(qs: seq<Request>) returns (log: seq<Event>, ghost ms: seq<Mm>)
      requires Valid()
      modifies this
      ensures Valid() && |log| <= |qs| && |ms| == |log| + 1 && ms[0] == old(View()) && ms[|log|] == View()
      ensures |log| < |qs| ==> !Countable(View(), qs[|log|]) && |tabs| >= U16_MAX
      ensures forall n :: 0 <= n < |log| ==> Answers(ms[n], qs[n], log[n]) && SpacesAfter(ms[n], log[n], ms[n + 1])
      ensures EagerRun(AllReads(ms), log)
      ensures forall n :: 0 <= n < |log| ==> EagerBits(Bits(ms[n]), log[n], Bits(ms[n + 1]))
    {
      hide Inv, Reads, Bits, Eager, EagerBits, Answers, SpacesAfter, RoomFor;
      log, ms := [], [View()];
      for n := 0 to |qs|
        invariant Valid() && |log| == n && |ms| == n + 1 && ms[0] == old(View()) && ms[n] == View()
        invariant forall k :: 0 <= k < n ==> Answers(ms[k], qs[k], log[k]) && SpacesAfter(ms[k], log[k], ms[k + 1])
        invariant forall k :: 0 <= k < n ==> Eager(Reads(ms[k]), log[k], Reads(ms[k + 1])) && EagerBits(Bits(ms[k]), log[k], Bits(ms[k + 1]))
      {
        if qs[n].Clone? && |tabs| < U16_MAX { FewSpacesLeaveRoom(View(), qs[n].src); }
        if !Countable(View(), qs[n]) { return; }
        var e := Do(qs[n]);
        log, ms := log + [e], ms + [View()];
      }
    }
  }

  ghost function AllReads(ms: seq<Mm>): seq<map<Key, Page>> { seq(|ms|, i requires 0 <= i < |ms| => Reads(ms[i])) }
}
