/**
 The reverse map of the swapper: one entry per low frame, an exact count and
 high-water mark, aging, and the clock that picks a victim.
 */
module SwapMap {
  import opened Common
  import Cow = CowModel

  const MAX_TRACKED: nat := Cow.MAX_TRACKED

  datatype Entry = Entry(cr3: nat, virt: nat, flags: nat, age: nat, pinned: bool)
  const EMPTY := Entry(0, 0, 0, 0, false)

  predicate InUse(e: Entry) { e.cr3 != 0 }
  predicate Evictable(e: Entry) { InUse(e) && !e.pinned }
  /** One tick older, up to 255. */
  function Aged(e: Entry): Entry { if Evictable(e) then e.(age := if e.age >= 255 then 255 else e.age + 1) else e }
  /** `n` ticks later: a page that may go has aged by as many, up to 255; nothing else differs. */
  predicate OlderBy(e: Entry, e': Entry, n: nat) {
    && e'.cr3 == e.cr3 && e'.virt == e.virt && e'.flags == e.flags && e'.pinned == e.pinned
    && e'.age == (if e.cr3 != 0 && !e.pinned then (if e.age + n > 255 then 255 else e.age + n) else e.age)
  }

  function AgedBy(e: Entry, n: nat): Entry { if n == 0 then e else Aged(AgedBy(e, n - 1)) }

  /** Over any number of ticks; after three of them every page that may go is old. */
  lemma {:induction false} AgesOn(e: Entry, n: nat)
    requires e.age <= 255
    ensures OlderBy(e, AgedBy(e, n), n)
    ensures n >= 3 && Evictable(e) ==> Old(AgedBy(e, n))
  {
    if n > 0 { AgesOn(e, n - 1); }
  }

  predicate Old(e: Entry) { Evictable(e) && e.age >= 3 }

  function UsedSet(es: seq<Entry>): set<nat> { set i: nat | i < |es| && InUse(es[i]) }

  /** Which frames are tracked, and whether they are pinned. */
  function Pins(es: seq<Entry>): map<Cow.Frame, bool> { map i: nat | i < |es| && InUse(es[i]) :: es[i].pinned }

  /** One past the last entry in use. */
  ghost predicate HighWater(es: seq<Entry>, hw: nat) {
    hw <= |es| && (hw > 0 ==> InUse(es[hw - 1])) && forall i :: hw <= i < |es| ==> !InUse(es[i])
  }

  lemma UsedPutSet(es: seq<Entry>, i: nat, e: Entry)
    requires i < |es|
    ensures UsedSet(es[i := e]) == if InUse(e) then (UsedSet(es) - {i}) + {i} else UsedSet(es) - {i}
    ensures i in UsedSet(es) <==> InUse(es[i])
  {
  }

  lemma UsedPut(es: seq<Entry>, i: nat, e: Entry)
    requires i < |es|
    ensures |UsedSet(es[i := e])| == |UsedSet(es)| + (if InUse(e) then 1 else 0) - (if InUse(es[i]) then 1 else 0)
  {
    hide UsedSet;
    UsedPutSet(es, i, e);
  }

  lemma UsedSome(es: seq<Entry>, i: nat)
    requires i < |es| && InUse(es[i])
    ensures |UsedSet(es)| > 0
  {
    assert i in UsedSet(es);
  }

  lemma PinsBelow(es: seq<Entry>)
    ensures forall f :: f in Pins(es) ==> f < |es|
  {
  }

  lemma PinsPut(es: seq<Entry>, i: nat, e: Entry)
    requires i < |es|
    ensures Pins(es[i := e]) == if InUse(e) then Pins(es)[i := e.pinned] else Pins(es) - {i}
  {
  }

  // ---------------------------------------------------------------- what the table says

  type Book = map<nat, Entry>

  /** The entries in use. */
  function BookOf(es: seq<Entry>): Book { map i: nat | i < |es| && InUse(es[i]) :: es[i] }

  lemma BookPut(es: seq<Entry>, i: nat, e: Entry)
    requires i < |es|
    ensures BookOf(es[i := e]) == if InUse(e) then BookOf(es)[i := e] else BookOf(es) - {i}
    ensures i in BookOf(es) <==> InUse(es[i])
    ensures i in BookOf(es) ==> BookOf(es)[i] == es[i]
  {
  }

  lemma BookBelow(es: seq<Entry>)
    ensures forall f :: f in BookOf(es) ==> f < |es|
  {
  }

  // ---------------------------------------------------------------- the clock

  /** The entry the hand reaches after `j` steps. */
  function Spot(start: nat, hw: nat, j: nat): nat
    requires start < hw && j <= hw
  {
    if start + j < hw then start + j else start + j - hw
  }

  /** The victim: the first old entry the hand meets, or else the first it may take at all. */
  ghost predicate Chosen(es: seq<Entry>, start: nat, hw: nat, j: nat)
    requires start < hw <= |es| && j < hw
  {
    if exists k :: 0 <= k < hw && Old(es[Spot(start, hw, k)])
    then Old(es[Spot(start, hw, j)]) && forall k :: 0 <= k < j ==> !Old(es[Spot(start, hw, k)])
    else Evictable(es[Spot(start, hw, j)]) && forall k :: 0 <= k < j ==> !Evictable(es[Spot(start, hw, k)])
  }

  /** The clock meets every entry below the high-water mark. */
  lemma SpotsCover(start: nat, hw: nat, i: nat) returns (j: nat)
    requires start < hw && i < hw
    ensures j < hw && Spot(start, hw, j) == i
  {
    j := if i >= start then i - start else i + hw - start;
  }

  /** The frame to evict, and where it is mapped. */
  datatype Victim = Victim(frame: nat, cr3: nat, virt: nat, flags: nat)

  predicate Names(v: Victim, e: Entry) { v.cr3 == e.cr3 && v.virt == e.virt && v.flags == e.flags }

  // ---------------------------------------------------------------- histories

  datatype Op =
    | Tracks(frame: nat, cr3: nat, virt: nat, flags: nat, pinned: bool) | Untracks(frame: nat)
    | Marks(frame: nat, on: bool) | Touches(frame: nat) | Ages | Picks

  /** What an operation does to the notes. */
  ghost predicate Noted(b: Book, op: Op, b': Book) {
    match op
    case Tracks(f, cr3, virt, flags, pinned) =>
      b' == if f < MAX_TRACKED then b[f := Entry(cr3, virt, flags % 4096, 1, pinned)] else b
    case Untracks(f) => b' == b - {f}
    case Marks(f, on) => b' == if f in b then b[f := b[f].(pinned := on)] else b
    case Touches(f) => b' == if f in b then b[f := b[f].(age := 1)] else b
    case Ages => b'.Keys == b.Keys && forall f :: f in b ==> OlderBy(b[f], b'[f], 1)
    case Picks => b' == b
  }

  ghost predicate NotedAll(bs: seq<Book>, ops: seq<Op>) {
    |bs| == |ops| + 1 && forall n :: 0 <= n < |ops| ==> Noted(bs[n], ops[n], bs[n + 1])
  }

  /** Whatever happens to other frames, and however it ages or is pinned, a frame stays noted for the space and address
      it was last tracked for, until it is untracked. */
  lemma {:induction false} OwnerKept(bs: seq<Book>, ops: seq<Op>, f: nat)
    requires NotedAll(bs, ops) && f in bs[0]
    requires forall n :: 0 <= n < |ops| ==> !((ops[n].Tracks? || ops[n].Untracks?) && ops[n].frame == f)
    ensures f in bs[|ops|] && bs[|ops|][f].cr3 == bs[0][f].cr3 && bs[|ops|][f].virt == bs[0][f].virt && bs[|ops|][f].flags == bs[0][f].flags
    decreases |ops|
  {
    if ops != [] {
      var n := |ops| - 1;
      assert NotedAll(bs[..|ops|], ops[..n]);
      OwnerKept(bs[..|ops|], ops[..n], f);
      assert Noted(bs[n], ops[n], bs[n + 1]);
    }
  }

  lemma AgedNotes(es: seq<Entry>, es': seq<Entry>)
    requires |es'| == |es| && forall i :: 0 <= i < |es| ==> OlderBy(es[i], es'[i], 1)
    ensures Noted(BookOf(es), Ages, BookOf(es'))
  {
    forall f: nat ensures f in BookOf(es) <==> f in BookOf(es') {
      assert f < |es| ==> OlderBy(es[f], es'[f], 1);
    }
  }

  class SwapMap {
    const entries: array<Entry>
    var clockHand: nat
    var tracked: nat
    var highWater: nat

    ghost predicate Valid()
      reads this, entries
    {
      && entries.Length == MAX_TRACKED
      && tracked == |UsedSet(entries[..])| && HighWater(entries[..], highWater)
    }

    /** The tracked frames with their pins. */
    ghost function View(): map<Cow.Frame, bool>
      reads entries
    {
      Pins(entries[..])
    }

    /** The tracked frames with everything noted about them. */
    ghost function Notes(): Book
      reads entries
    {
      BookOf(entries[..])
    }

    constructor ()
      ensures Valid() && View() == map[] && fresh(entries)
    {
      entries := new Entry[MAX_TRACKED](_ => EMPTY);
      clockHand, tracked, highWater := 0, 0, 0;
      new;
      assert UsedSet(entries[..]) == {};
    }

    /** A table root of zero marks an entry as empty, so tracking with it loses the frame and miscounts. */
    method Track(frame: nat, cr3: nat, virt: nat, flags: nat, pinned: bool)
      requires Valid()
      modifies this, entries
      ensures Valid() <==> cr3 != 0 || frame >= MAX_TRACKED
      ensures View() == if cr3 != 0 then Cow.Track(old(View()), frame, pinned) else old(View()) - {frame}
      ensures Notes() ==
              if frame >= MAX_TRACKED then old(Notes())
              else if cr3 == 0 then old(Notes()) - {frame}
              else old(Notes())[frame := Entry(cr3, virt, flags % 4096, 1, pinned)]
    {
      hide UsedSet, Pins, BookOf;
      if frame >= MAX_TRACKED {
        PinsBelow(entries[..]);
        return;
      }
      var e := Entry(cr3, virt, flags % 4096, 1, pinned);
      BookPut(entries[..], frame, e);
      UsedPut(entries[..], frame, e);
      PinsPut(entries[..], frame, e);
      if !InUse(entries[frame]) { tracked := tracked + 1; }
      entries[frame] := e;
      if frame + 1 > highWater { highWater := frame + 1; }
    }

    method Untrack(frame: nat)
      requires Valid()
      modifies this, entries
      ensures Valid() && View() == old(View()) - {frame} && Notes() == old(Notes()) - {frame}
    {
      hide UsedSet, Pins, BookOf;
      if frame >= MAX_TRACKED {
        PinsBelow(entries[..]);
        BookBelow(entries[..]);
        return;
      }
      BookPut(entries[..], frame, EMPTY);
      UsedPut(entries[..], frame, EMPTY);
      PinsPut(entries[..], frame, EMPTY);
      if InUse(entries[frame]) { UsedSome(entries[..], frame); }
      if InUse(entries[frame]) { tracked := Dec(tracked); }
      entries[frame] := EMPTY;
      if frame + 1 == highWater { TrimHighWater(); }
    }

    /** Down to the last entry in use. */
    method TrimHighWater()
      requires entries.Length == MAX_TRACKED && highWater <= MAX_TRACKED
      requires forall i :: highWater <= i < MAX_TRACKED ==> !InUse(entries[i])
      modifies this`highWater
      ensures HighWater(entries[..], highWater)
    {
      while highWater > 0 && !InUse(entries[highWater - 1])
        invariant highWater <= MAX_TRACKED && forall i :: highWater <= i < MAX_TRACKED ==> !InUse(entries[i])
      {
        highWater := highWater - 1;
      }
    }

    method SetPinned(frame: nat, pinned: bool)
      requires Valid()
      modifies entries
      ensures Valid() && View() == Cow.Pin(old(View()), frame, pinned)
      ensures Notes() == if frame in old(Notes()) then old(Notes())[frame := old(Notes())[frame].(pinned := pinned)] else old(Notes())
    {
      hide BookOf;
      BookBelow(entries[..]);
      if frame < MAX_TRACKED { BookPut(entries[..], frame, entries[frame].(pinned := pinned)); }
      if frame < MAX_TRACKED && InUse(entries[frame]) {
        UsedPut(entries[..], frame, entries[frame].(pinned := pinned));
        PinsPut(entries[..], frame, entries[frame].(pinned := pinned));
        entries[frame] := entries[frame].(pinned := pinned);
      }
    }

    /** `touch`: a page in use is young again. */
    method Touch(frame: nat)
      requires Valid()
      modifies entries
      ensures Valid() && View() == old(View())
      ensures Notes() == if frame in old(Notes()) then old(Notes())[frame := old(Notes())[frame].(age := 1)] else old(Notes())
    {
      hide BookOf;
      BookBelow(entries[..]);
      if frame < MAX_TRACKED { BookPut(entries[..], frame, entries[frame].(age := 1)); }
      if frame < MAX_TRACKED && InUse(entries[frame]) {
        UsedPut(entries[..], frame, entries[frame].(age := 1));
        PinsPut(entries[..], frame, entries[frame].(age := 1));
        entries[frame] := entries[frame].(age := 1);
      }
    }

    /** Aging stops at the high-water mark and misses nobody. */
    method AgeAll()
      requires Valid()
      modifies entries
      ensures Valid() && View() == old(View())
      ensures forall i :: 0 <= i < MAX_TRACKED ==> entries[i] == Aged(old(entries[i]))
      ensures forall i :: 0 <= i < MAX_TRACKED ==> OlderBy(old(entries[i]), entries[i], 1)
    {
      for k := 0 to highWater
        invariant forall i :: k <= i < MAX_TRACKED ==> entries[i] == old(entries[i])
        invariant forall i :: 0 <= i < k ==> entries[i] == Aged(old(entries[i]))
      {
        if InUse(entries[k]) && !entries[k].pinned {
          entries[k] := entries[k].(age := if entries[k].age >= 255 then 255 else entries[k].age + 1);
        }
      }
      assert UsedSet(entries[..]) == UsedSet(old(entries[..]));
    }

    /** The sweep from the hand, remembering the first entry that would do. */
    method Sweep(hw: nat, start: nat) returns (r: Option<nat>, ghost j: nat)
      requires start < hw <= entries.Length
      ensures r.None? ==> forall i :: 0 <= i < hw ==> !Evictable(entries[i])
      ensures r.Some? ==> j < hw && r.value == Spot(start, hw, j) && Evictable(entries[r.value]) && Chosen(entries[..], start, hw, j)
    {
      hide Evictable;
      r, j := None, 0;
      var idx: nat := start;
      var steps: nat := 0;
      while steps < hw
        invariant 0 <= steps <= hw && idx == Spot(start, hw, if steps == hw then 0 else steps)
        invariant forall k :: 0 <= k < steps ==> !Old(entries[Spot(start, hw, k)])
        invariant r.None? ==> forall k :: 0 <= k < steps ==> !Evictable(entries[Spot(start, hw, k)])
        invariant r.Some? ==> j < steps && r.value == Spot(start, hw, j) && Evictable(entries[r.value])
        invariant r.Some? ==> forall k :: 0 <= k < j ==> !Evictable(entries[Spot(start, hw, k)])
      {
        var e := entries[idx];
        if Evictable(e) {
          if e.age >= 3 {
            assert Old(entries[..][Spot(start, hw, steps)]);
            return Some(idx), steps;
          }
          if r.None? {
            r, j := Some(idx), steps;
          }
        }
        idx := idx + 1;
        if idx >= hw { idx := 0; }
        steps := steps + 1;
      }
      if r.None? {
        forall i | 0 <= i < hw ensures !Evictable(entries[i]) {
          var k := SpotsCover(start, hw, i);
        }
      }
    }

    /** `pick_victim`: a victim exactly when a tracked frame is not pinned; the first old one in clock order is preferred. */
    method PickVictim() returns (r: Option<Victim>, ghost j: nat)
      requires Valid()
      modifies this`clockHand
      ensures Valid() && View() == old(View())
      ensures r.None? <==> forall f :: f in View() ==> View()[f]
      ensures r.Some? ==> r.value.frame in View() && !View()[r.value.frame]
      ensures r.Some? ==> Picked(entries[..], highWater, old(clockHand), r.value.frame, j, clockHand)
      ensures r.Some? ==> r.value.frame in Notes() && Names(r.value, Notes()[r.value.frame])
    {
      hide Chosen, UsedSet;
      PinsMean(entries[..]);
      r, j := None, 0;
      if tracked == 0 {
        NoneTracked(entries[..]);
        return;
      }
      if highWater == 0 {
        return;
      }
      if clockHand >= highWater { clockHand := 0; }
      var spot;
      spot, j := Sweep(highWater, clockHand);
      if spot.Some? {
        var f := spot.value;
        clockHand := if f + 1 >= highWater then 0 else f + 1;
        assert f in View() && !View()[f];
        r := Some(Victim(f, entries[f].cr3, entries[f].virt, entries[f].flags));
      }
    }

    method Do(op: Op) returns (v: Option<Victim>)
      requires Valid() && (op.Tracks? ==> op.cr3 != 0)
      modifies this, entries
      ensures Valid() && Noted(old(Notes()), op, Notes())
      ensures op.Picks? ==> (v.None? <==> forall f :: f in old(Notes()) ==> old(Notes())[f].pinned)
      ensures v.Some? ==> op.Picks? && v.value.frame in old(Notes())
                          && !old(Notes())[v.value.frame].pinned && Names(v.value, old(Notes())[v.value.frame])
    {
      hide UsedSet;
      v := None;
      match op
      case Tracks(f, cr3, virt, flags, pinned) => Track(f, cr3, virt, flags, pinned);
      case Untracks(f) => Untrack(f);
      case Marks(f, on) => SetPinned(f, on);
      case Touches(f) => Touch(f);
      case Ages =>
        ghost var es := entries[..];
        AgeAll();
        AgedNotes(es, entries[..]);
      case Picks =>
        ghost var j;
        v, j := PickVictim();
    }

    /** Over any history, the notes are those of the operations, and a victim is reported with what is noted for it. */
    method Serve(ops: seq<Op>) returns (picks: seq<Option<Victim>>, ghost bs: seq<Book>)
      requires Valid() && forall n :: 0 <= n < |ops| && ops[n].Tracks? ==> ops[n].cr3 != 0
      modifies this, entries
      ensures Valid() && NotedAll(bs, ops) && |picks| == |ops| && bs[0] == old(Notes()) && bs[|ops|] == Notes()
      ensures forall n :: 0 <= n < |ops| && ops[n].Picks? ==> (picks[n].None? <==> forall f :: f in bs[n] ==> bs[n][f].pinned)
      ensures forall n :: 0 <= n < |ops| && picks[n].Some? ==>
        var v := picks[n].value; v.frame in bs[n] && !bs[n][v.frame].pinned && Names(v, bs[n][v.frame])
    {
      hide Noted, UsedSet, BookOf;
      picks, bs := [], [Notes()];
      for n := 0 to |ops|
        invariant Valid() && |picks| == n && |bs| == n + 1 && bs[0] == old(Notes()) && bs[n] == Notes()
        invariant forall k :: 0 <= k < n ==> Noted(bs[k], ops[k], bs[k + 1])
        invariant forall k :: 0 <= k < n && ops[k].Picks? ==> (picks[k].None? <==> forall f :: f in bs[k] ==> bs[k][f].pinned)
        invariant forall k :: 0 <= k < n && picks[k].Some? ==>
          var v := picks[k].value; v.frame in bs[k] && !bs[k][v.frame].pinned && Names(v, bs[k][v.frame])
      {
        var v := Do(ops[n]);
        picks, bs := picks + [v], bs + [Notes()];
      }
    }
  }

  /** The victim is the clock's choice and the hand moves past it. */
  ghost predicate Picked(es: seq<Entry>, hw: nat, hand: nat, f: nat, j: nat, hand': nat) {
    && 0 < hw <= |es| && j < hw
    && (var start := if hand >= hw then 0 else hand; Spot(start, hw, j) == f && Chosen(es, start, hw, j))
    && hand' == if f + 1 >= hw then 0 else f + 1
  }

  lemma PinsMean(es: seq<Entry>)
    ensures forall f :: f in Pins(es) <==> 0 <= f < |es| && InUse(es[f])
    ensures forall f :: f in Pins(es) ==> Pins(es)[f] == es[f].pinned
  {
  }

  lemma NoneTracked(es: seq<Entry>)
    requires |UsedSet(es)| == 0
    ensures Pins(es) == map[]
  {
    assert UsedSet(es) == {};
    assert forall f :: f in Pins(es) ==> f in UsedSet(es);
  }

  // ---------------------------------------------------------------- with copy-on-write

  /** In every state of the address spaces, a frame the clock may take is mapped exactly once: a frame shared
      by a fork is never picked. */
  lemma VictimIsUnshared(m: Cow.Mm, f: Cow.Frame)
    requires Cow.Inv(m) && f in m.track
    ensures !m.track[f] ==> |Cow.Mappers(m.ptes, f)| == 1
    ensures f >= Cow.LOW_FRAMES ==> (m.track[f] <==> |Cow.Mappers(m.ptes, f)| > 1)
  {
    hide Cow.Shape, Cow.Owned, Cow.NoLeak, Cow.Exclusive, Cow.Injective, Cow.Mappers;
    assert Cow.IsMapped(m.ptes, f);
    var k :| k in m.ptes && m.ptes[k].frame == f;
    assert Cow.RefOf(m.refs, f) == |Cow.Mappers(m.ptes, f)|;
    Cow.MappedCount(m.ptes, f);
  }
}
