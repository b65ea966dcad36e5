/**
 The nested loops that visit an address space: every table and every page once,
 tables before what lies below them. Clone and teardown both walk this way.
 */
module CowWalk {
  import opened CowModel

  /** A table or a page met by the walk, named by its indices. */
  datatype Item = T3(i: nat) | T2(i: nat, j: nat) | T1(i: nat, j: nat, k: nat) | Pg(v: VPage)

  predicate InTree(t: Tabs, pages: set<VPage>, x: Item) {
    match x
    case T3(i) => i in t.p3
    case T2(i, j) => (i, j) in t.p2
    case T1(i, j, k) => (i, j, k) in t.p1
    case Pg(v) => v in pages
  }

  ghost predicate TreeWf(t: Tabs, pages: set<VPage>) {
    TabsWf(t) && forall v :: v in pages ==> (v.i, v.j, v.k) in t.p1 && v.m < 512
  }

  /** A place in the walk; a table sits at -1, before its first entry. */
  datatype Place = Place(i: int, j: int, k: int, m: int)

  function PlaceOf(x: Item): Place {
    match x
    case T3(i) => Place(i, -1, -1, -1)
    case T2(i, j) => Place(i, j, -1, -1)
    case T1(i, j, k) => Place(i, j, k, -1)
    case Pg(v) => Place(v.i, v.j, v.k, v.m)
  }

  predicate Lt(a: Place, b: Place) {
    || a.i < b.i
    || (a.i == b.i && a.j < b.j)
    || (a.i == b.i && a.j == b.j && a.k < b.k)
    || (a.i == b.i && a.j == b.j && a.k == b.k && a.m < b.m)
  }

  ghost predicate Ordered(items: seq<Item>) {
    forall a, b :: 0 <= a < b < |items| ==> Lt(PlaceOf(items[a]), PlaceOf(items[b]))
  }

  /** The items met before a place, in order. */
  ghost predicate Walked(t: Tabs, pages: set<VPage>, items: seq<Item>, to: Place) {
    && (forall x :: x in items <==> InTree(t, pages, x) && Lt(PlaceOf(x), to))
    && Ordered(items)
  }

  lemma Bounds(t: Tabs, pages: set<VPage>, x: Item)
    requires TreeWf(t, pages) && InTree(t, pages, x)
    ensures match x
            case T3(i) => i < 256
            case T2(i, j) => i < 256 && j < 512 && InTree(t, pages, T3(i))
            case T1(i, j, k) => i < 256 && j < 512 && k < 512 && InTree(t, pages, T2(i, j)) && InTree(t, pages, T3(i))
            case Pg(v) =>
              && v.i < 256 && v.j < 512 && v.k < 512 && v.m < 512
              && InTree(t, pages, T1(v.i, v.j, v.k)) && InTree(t, pages, T2(v.i, v.j)) && InTree(t, pages, T3(v.i))
  {
  }

  /** Moving on over places that hold nothing. */
  lemma Skip(t: Tabs, pages: set<VPage>, items: seq<Item>, lo: Place, hi: Place)
    requires Walked(t, pages, items, lo)
    requires forall x :: InTree(t, pages, x) ==> (Lt(PlaceOf(x), lo) <==> Lt(PlaceOf(x), hi))
    ensures Walked(t, pages, items, hi)
  {
    hide PlaceOf, InTree, Lt;
  }

  /** Meeting the item at the current place. */
  lemma Meet(t: Tabs, pages: set<VPage>, items: seq<Item>, x: Item, hi: Place)
    requires Walked(t, pages, items, PlaceOf(x)) && InTree(t, pages, x)
    requires forall y :: InTree(t, pages, y) ==> (Lt(PlaceOf(y), hi) <==> Lt(PlaceOf(y), PlaceOf(x)) || y == x)
    ensures Walked(t, pages, items + [x], hi)
  {
    hide PlaceOf, InTree, Lt;
    var items' := items + [x];
    forall a, b | 0 <= a < b < |items'| ensures Lt(PlaceOf(items'[a]), PlaceOf(items'[b])) {
      if b == |items| {
        assert items'[a] in items;
      }
    }
  }

  lemma MeetPage(t: Tabs, pages: set<VPage>, items: seq<Item>, v: VPage)
    requires TreeWf(t, pages) && Walked(t, pages, items, Place(v.i, v.j, v.k, v.m))
    ensures Walked(t, pages, if v in pages then items + [Pg(v)] else items, Place(v.i, v.j, v.k, v.m + 1))
  {
    var lo, hi := Place(v.i, v.j, v.k, v.m), Place(v.i, v.j, v.k, v.m + 1);
    if v in pages {
      Meet(t, pages, items, Pg(v), hi);
    } else {
      Skip(t, pages, items, lo, hi);
    }
  }

  lemma MeetTable(t: Tabs, pages: set<VPage>, items: seq<Item>, x: Item)
    requires TreeWf(t, pages) && InTree(t, pages, x) && !x.Pg? && Walked(t, pages, items, PlaceOf(x))
    ensures Walked(t, pages, items + [x],
                   match x case T3(i) => Place(i, 0, -1, -1) case T2(i, j) => Place(i, j, 0, -1) case T1(i, j, k) => Place(i, j, k, 0))
  {
    Meet(t, pages, items, x, match x case T3(i) => Place(i, 0, -1, -1) case T2(i, j) => Place(i, j, 0, -1) case T1(i, j, k) => Place(i, j, k, 0));
  }

  /** An absent table has nothing below it, and a table has no entry past its last. */
  lemma Leave1(t: Tabs, pages: set<VPage>, items: seq<Item>, i: nat, j: nat, k: nat)
    requires TreeWf(t, pages)
    requires Walked(t, pages, items, Place(i, j, k, 512)) || ((i, j, k) !in t.p1 && Walked(t, pages, items, Place(i, j, k, -1)))
    ensures Walked(t, pages, items, Place(i, j, k + 1, -1))
  {
    var lo := if Walked(t, pages, items, Place(i, j, k, 512)) then Place(i, j, k, 512) else Place(i, j, k, -1);
    forall x | InTree(t, pages, x) ensures Lt(PlaceOf(x), lo) <==> Lt(PlaceOf(x), Place(i, j, k + 1, -1)) {
      Bounds(t, pages, x);
    }
    Skip(t, pages, items, lo, Place(i, j, k + 1, -1));
  }

  lemma Leave2(t: Tabs, pages: set<VPage>, items: seq<Item>, i: nat, j: nat)
    requires TreeWf(t, pages)
    requires Walked(t, pages, items, Place(i, j, 512, -1)) || ((i, j) !in t.p2 && Walked(t, pages, items, Place(i, j, -1, -1)))
    ensures Walked(t, pages, items, Place(i, j + 1, -1, -1))
  {
    var lo := if Walked(t, pages, items, Place(i, j, 512, -1)) then Place(i, j, 512, -1) else Place(i, j, -1, -1);
    forall x | InTree(t, pages, x) ensures Lt(PlaceOf(x), lo) <==> Lt(PlaceOf(x), Place(i, j + 1, -1, -1)) {
      Bounds(t, pages, x);
    }
    Skip(t, pages, items, lo, Place(i, j + 1, -1, -1));
  }

  lemma Leave3(t: Tabs, pages: set<VPage>, items: seq<Item>, i: nat)
    requires TreeWf(t, pages)
    requires Walked(t, pages, items, Place(i, 512, -1, -1)) || (i !in t.p3 && Walked(t, pages, items, Place(i, -1, -1, -1)))
    ensures Walked(t, pages, items, Place(i + 1, -1, -1, -1))
  {
    var lo := if Walked(t, pages, items, Place(i, 512, -1, -1)) then Place(i, 512, -1, -1) else Place(i, -1, -1, -1);
    forall x | InTree(t, pages, x) ensures Lt(PlaceOf(x), lo) <==> Lt(PlaceOf(x), Place(i + 1, -1, -1, -1)) {
      Bounds(t, pages, x);
    }
    Skip(t, pages, items, lo, Place(i + 1, -1, -1, -1));
  }

  /** Everything in the tree is met, once, tables before what lies below them. */
  method Walk(t: Tabs, pages: set<VPage>) returns (items: seq<Item>)
    requires TreeWf(t, pages)
    ensures forall x :: x in items <==> InTree(t, pages, x)
    ensures Ordered(items)
  {
    items := [];
    hide Lt, TreeWf, PlaceOf;
    assert Walked(t, pages, items, Place(0, -1, -1, -1)) by { Start(t, pages); }
    hide Walked;
    for i := 0 to 256
      invariant Walked(t, pages, items, Place(i, -1, -1, -1))
    {
      if i in t.p3 {
        PlaceOfTable(T3(i));
        MeetTable(t, pages, items, T3(i));
        items := items + [T3(i)];
        for j := 0 to 512
          invariant Walked(t, pages, items, Place(i, j, -1, -1))
        {
          if (i, j) in t.p2 {
            PlaceOfTable(T2(i, j));
            MeetTable(t, pages, items, T2(i, j));
            items := items + [T2(i, j)];
            for k := 0 to 512
              invariant Walked(t, pages, items, Place(i, j, k, -1))
            {
              if (i, j, k) in t.p1 {
                PlaceOfTable(T1(i, j, k));
                MeetTable(t, pages, items, T1(i, j, k));
                items := items + [T1(i, j, k)];
                for m := 0 to 512
                  invariant Walked(t, pages, items, Place(i, j, k, m))
                {
                  MeetPage(t, pages, items, VPage(i, j, k, m));
                  if VPage(i, j, k, m) in pages {
                    items := items + [Pg(VPage(i, j, k, m))];
                  }
                }
              }
              Leave1(t, pages, items, i, j, k);
            }
          }
          Leave2(t, pages, items, i, j);
        }
      }
      Leave3(t, pages, items, i);
    }
    Finish(t, pages, items);
  }

  lemma PlaceOfTable(x: Item)
    ensures PlaceOf(x) ==
            match x
            case T3(i) => Place(i, -1, -1, -1)
            case T2(i, j) => Place(i, j, -1, -1)
            case T1(i, j, k) => Place(i, j, k, -1)
            case Pg(v) => Place(v.i, v.j, v.k, v.m)
  {
  }

  lemma Start(t: Tabs, pages: set<VPage>)
    ensures Walked(t, pages, [], Place(0, -1, -1, -1))
  {
  }

  lemma Finish(t: Tabs, pages: set<VPage>, items: seq<Item>)
    requires TreeWf(t, pages) && Walked(t, pages, items, Place(256, -1, -1, -1))
    ensures forall x :: x in items <==> InTree(t, pages, x)
    ensures Ordered(items)
  {
    forall x | InTree(t, pages, x) ensures Lt(PlaceOf(x), Place(256, -1, -1, -1)) {
      Bounds(t, pages, x);
    }
  }

  /** What was met before an item holds its table. */
  lemma ParentFirst(t: Tabs, pages: set<VPage>, items: seq<Item>, n: nat)
    requires TreeWf(t, pages) && n < |items| && Ordered(items)
    requires forall x :: x in items <==> InTree(t, pages, x)
    ensures items[n] !in items[..n]
    ensures match items[n]
            case T3(i) => i < 256
            case T2(i, j) => j < 512 && T3(i) in items[..n]
            case T1(i, j, k) => k < 512 && T2(i, j) in items[..n]
            case Pg(v) => v.m < 512 && T1(v.i, v.j, v.k) in items[..n]
  {
    assert items[n] in items;
    Bounds(t, pages, items[n]);
    if !items[n].T3? {
      var p := match items[n] case T2(i, j) => T3(i) case T1(i, j, k) => T2(i, j) case Pg(v) => T1(v.i, v.j, v.k);
      assert p in items;
      var a :| 0 <= a < |items| && items[a] == p;
      assert a < n;
      assert items[..n][a] == p;
    }
  }
}
