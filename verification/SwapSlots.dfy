/**
 Swap slots: a bitmap of page slots on a partition, pages written to and read
 from sectors, and the page-table entry that remembers a slot. Against a plain
 store from slots to pages.
 */
module SwapSlots {
  import opened Common
  import opened Pmm

  const SECS: nat := 8
  const MAX_PAGES: nat := 65536
  const NO_SLOTS: seq<Word> := seq<Word>(MAX_PAGES / 64, _ => ZEROS)

  type Sector = s: seq<byte> | |s| == 512 witness seq(512, _ => 0)
  const BLANK: Sector := seq(512, _ => 0)
  type Page = p: seq<Sector> | |p| == 8 witness seq<Sector>(8, _ => BLANK)

  datatype Error = NotActive | AlreadyActive | NoSpace | InvalidSlot | SwapInUse
  datatype Result<+T> = Ok(value: T) | Err(e: Error)

  /** Slots are numbered from one; slot zero would be the header page. */
  predicate Taken(b: seq<Word>, s: nat)
    requires 1 <= s <= 64 * |b|
  {
    b[(s - 1) / 64][(s - 1) % 64]
  }

  ghost function Slots(b: seq<Word>, total: nat): set<nat>
    requires total <= 64 * |b|
  {
    set s: nat | 1 <= s <= total && Taken(b, s)
  }

  function Put(b: seq<Word>, s: nat, v: bool): seq<Word>
    requires 1 <= s <= 64 * |b|
  {
    b[(s - 1) / 64 := b[(s - 1) / 64][(s - 1) % 64 := v]]
  }

  lemma PutTaken(b: seq<Word>, s: nat, v: bool, t: nat)
    requires 1 <= s <= 64 * |b| && 1 <= t <= 64 * |b|
    ensures |Put(b, s, v)| == |b| && Taken(Put(b, s, v), t) == if t == s then v else Taken(b, t)
  {
    var i, j := s - 1, t - 1;
    assert i == 64 * (i / 64) + i % 64 && j == 64 * (j / 64) + j % 64;
  }

  lemma PutSlots(b: seq<Word>, total: nat, s: nat, v: bool)
    requires total <= 64 * |b| && 1 <= s <= total
    ensures |Put(b, s, v)| == |b| && (Taken(b, s) <==> s in Slots(b, total))
    ensures Slots(Put(b, s, v), total) == if v then Slots(b, total) + {s} else Slots(b, total) - {s}
  {
    hide Put, Taken;
    PutTaken(b, s, v, s);
    forall t: nat | 1 <= t <= total ensures Taken(Put(b, s, v), t) == if t == s then v else Taken(b, t) {
      PutTaken(b, s, v, t);
    }
  }

  // ---------------------------------------------------------------- the disk

  /** A page occupies eight sectors. */
  function Written(d: nat -> Sector, lba: nat, p: Page): nat -> Sector {
    (n: nat) => if lba <= n < lba + SECS then p[n - lba] else d(n)
  }

  function ReadPage(d: nat -> Sector, lba: nat): Page { seq(SECS, (k: nat) requires k < SECS => d(lba + k)) }

  /** First sector of a slot, in the 32-bit arithmetic of the code. */
  function LbaFor(lba: nat, slot: nat): (r: nat)
    ensures r < U32
  {
    (lba + slot * SECS) % U32
  }

  predicate Within(n: nat, first: nat) { first <= n < first + SECS }

  /** The page is at its eight sectors and no other sector differs. */
  ghost predicate OnlyAt(d: nat -> Sector, d': nat -> Sector, first: nat, p: Page) {
    forall n: nat :: d'(n) == if Within(n, first) then p[n - first] else d(n)
  }

  /** Even where the arithmetic wraps, two slots never share a sector. */
  lemma SlotsApart(lba: nat, s: nat, t: nat, n: nat)
    requires lba < U32 && s <= MAX_PAGES && t <= MAX_PAGES && s != t
    ensures !(Within(n, LbaFor(lba, s)) && Within(n, LbaFor(lba, t)))
  {
    Wraps(lba, s);
    Wraps(lba, t);
  }

  lemma Wraps(lba: nat, s: nat)
    requires lba < U32 && s <= MAX_PAGES
    ensures LbaFor(lba, s) == if lba + s * SECS < U32 then lba + s * SECS else lba + s * SECS - U32
  {
  }

  /** Every sector a slot can be written to lies in the partition, behind the header page. */
  ghost predicate Contained(lba: nat, sectors: nat, total: nat) {
    forall n: nat :: OfSlot(lba, total, n) ==> lba + SECS <= n < lba + sectors
  }

  /** That is so exactly when the last slot neither wraps nor ends past the partition. */
  lemma InPartitionIff(lba: nat, sectors: nat, total: nat)
    requires lba < U32 && total <= MAX_PAGES
    ensures Contained(lba, sectors, total) <==>
            total == 0 || (lba + SECS * total < U32 && SECS * (total + 1) <= sectors)
  {
    hide LbaFor;
    if total > 0 {
      Wraps(lba, total);
      var first := LbaFor(lba, total);
      assert Within(first, LbaFor(lba, total)) && Within(first + 7, LbaFor(lba, total));
      assert OfSlot(lba, total, first) && OfSlot(lba, total, first + 7);
      if lba + SECS * total < U32 && SECS * (total + 1) <= sectors {
        forall n: nat | OfSlot(lba, total, n) ensures lba + SECS <= n < lba + sectors {
          var s :| 1 <= s <= total && Within(n, LbaFor(lba, s));
          Wraps(lba, s);
        }
      }
    }
  }

  /** Slots by the last page a header names. */
  function SlotCount(last: nat): (n: nat)
    ensures n <= MAX_PAGES
  {
    Min(Dec((last + 1) % U32), MAX_PAGES)
  }

  /** `mkswap`: the last page it writes into the header, for a partition not too small. */
  function MadeLast(sectors: nat): Option<nat> {
    if sectors / SECS < 10 then None else Some(sectors / SECS - 1)
  }

  /** It names the last page that fits, and refuses fewer than ten. */
  lemma MadeIs(sectors: nat, last: nat)
    ensures MadeLast(sectors) == Some(last) <==> last >= 9 && SECS * (last + 1) <= sectors < SECS * (last + 2)
    ensures MadeLast(sectors).None? <==> sectors < 10 * SECS
  {
  }

  /** A header that `mkswap` made for the partition never names a page past it. */
  lemma MadeFits(lba: nat, sectors: nat)
    requires lba < U32 && sectors < U32 && MadeLast(sectors).Some?
    ensures var total := SlotCount(MadeLast(sectors).value);
            && SECS * (total + 1) <= sectors
            && (Contained(lba, sectors, total) <==> lba + SECS * total < U32)
  {
    InPartitionIff(lba, sectors, SlotCount(MadeLast(sectors).value));
  }

  /** Any other header is believed: 1000 sectors and a header of 65536 pages put a slot half a million sectors away. */
  lemma HeaderTooLong()
    ensures SlotCount(65535) == 65535 && OfSlot(2048, SlotCount(65535), 526328)
    ensures !Contained(2048, 1000, SlotCount(65535))
  {
    assert Within(526328, LbaFor(2048, 65535));
    InPartitionIff(2048, 1000, 65535);
  }

  function SlotPage(d: nat -> Sector, lba: nat, s: nat): Page { ReadPage(d, LbaFor(lba, s)) }

  ghost predicate Holds(d: nat -> Sector, lba: nat, store: map<nat, Page>) {
    forall s :: s in store ==> SlotPage(d, lba, s) == store[s]
  }

  lemma HoldsLess(d: nat -> Sector, lba: nat, store: map<nat, Page>, s: nat)
    requires Holds(d, lba, store)
    ensures Holds(d, lba, store - {s})
  {
  }

  lemma StoreWritten(d: nat -> Sector, lba: nat, store: map<nat, Page>, s: nat, p: Page)
    requires Holds(d, lba, store) && lba < U32 && s <= MAX_PAGES && forall t :: t in store ==> t <= MAX_PAGES
    ensures Holds(Written(d, LbaFor(lba, s), p), lba, store[s := p]) && store[s := p].Keys == store.Keys + {s}
  {
    hide ReadPage, Written, LbaFor;
    var d', store' := Written(d, LbaFor(lba, s), p), store[s := p];
    forall t | t in store' ensures SlotPage(d', lba, t) == store'[t] {
      WriteThenRead(d, lba, s, t, p);
    }
  }

  /** Writing a slot changes the page of no other. */
  lemma WriteThenRead(d: nat -> Sector, lba: nat, s: nat, t: nat, p: Page)
    requires lba < U32 && s <= MAX_PAGES && t <= MAX_PAGES
    ensures SlotPage(Written(d, LbaFor(lba, s), p), lba, t) == if s == t then p else SlotPage(d, lba, t)
  {
    hide LbaFor;
    var a, b := LbaFor(lba, s), LbaFor(lba, t);
    var r := ReadPage(Written(d, a, p), b);
    if s == t {
      assert r == p;
    } else {
      forall k | 0 <= k < SECS ensures r[k] == d(b + k) {
        SlotsApart(lba, s, t, b + k);
      }
      assert r == ReadPage(d, b);
    }
  }

  /** The counter counts the bits, and every issued slot still reads as it was written. */
  ghost predicate Sound(active: bool, lba: nat, total: nat, used: nat, bitmap: seq<Word>,
                        disk: nat -> Sector, store: map<nat, Page>)
  {
    && |bitmap| == MAX_PAGES / 64 && total <= MAX_PAGES && lba < U32
    && (!active ==> total == 0)
    && used == |Slots(bitmap, total)| && store.Keys == Slots(bitmap, total)
    && Holds(disk, lba, store)
  }

  lemma FreeSound(active: bool, lba: nat, total: nat, used: nat, bitmap: seq<Word>,
                  disk: nat -> Sector, store: map<nat, Page>, s: nat)
    requires Sound(active, lba, total, used, bitmap, disk, store)
    ensures |bitmap| == MAX_PAGES / 64 && total <= MAX_PAGES
    ensures if 1 <= s <= total && Taken(bitmap, s)
            then Sound(active, lba, total, Dec(used), Put(bitmap, s, false), disk, store - {s})
            else Sound(active, lba, total, used, bitmap, disk, store - {s})
  {
    hide Slots, Taken, Put, Holds;
    HoldsLess(disk, lba, store, s);
    FreeFacts(bitmap, total, s);
    assert (store - {s}).Keys == store.Keys - {s};
  }

  lemma EmptySound(active: bool, lba: nat, total: nat, disk: nat -> Sector)
    requires total <= MAX_PAGES && lba < U32 && (!active ==> total == 0)
    ensures Sound(active, lba, total, 0, NO_SLOTS, disk, map[])
  {
    NoSlots(total);
  }

  class SwapState {
    var active: bool
    var lba: nat
    var total: nat
    var used: nat
    var bitmap: seq<Word>
    var disk: nat -> Sector
    /** What was written to each slot that is out. */
    ghost var store: map<nat, Page>

    ghost predicate Valid()
      reads this
    {
      Sound(active, lba, total, used, bitmap, disk, store)
    }

    constructor (d: nat -> Sector)
      ensures Valid() && !active && store == map[]
    {
      EmptySound(false, 0, 0, d);
      active, lba, total, used, bitmap, disk, store := false, 0, 0, 0, NO_SLOTS, d, map[];
    }

    /** `alloc_slot`: the lowest free one, found a word at a time. */
    method AllocSlot() returns (r: Option<nat>)
      requires |bitmap| == MAX_PAGES / 64 && total <= MAX_PAGES && used == |Slots(bitmap, total)|
      modifies this`bitmap, this`used
      ensures |bitmap| == MAX_PAGES / 64 && used == |Slots(bitmap, total)|
      ensures r.None? ==> bitmap == old(bitmap) && forall s :: 1 <= s <= total ==> s in Slots(bitmap, total)
      ensures r.Some? ==> 1 <= r.value <= total && r.value !in Slots(old(bitmap), total)
      ensures r.Some? ==> Slots(bitmap, total) == Slots(old(bitmap), total) + {r.value}
      ensures r.Some? ==> forall s :: 1 <= s < r.value ==> s in Slots(old(bitmap), total)
    {
      hide Slots, Taken, Put;
      for k := 0 to MAX_PAGES / 64
        invariant bitmap == old(bitmap) && used == old(used)
        invariant AllTaken(bitmap, 64 * k, total)
      {
        var w := bitmap[k];
        if w != ONES {
          NotAllOnes(w);
          var n := TrailingOnes(w);
          if k * 64 + n < total {
            LowestSlot(bitmap, k, total);
            PutSlots(bitmap, total, k * 64 + n + 1, true);
            PutWord(bitmap, k, n, true);
            bitmap := bitmap[k := w[n := true]];
            used := used + 1;
            return Some(k * 64 + n + 1);
          }
        }
        NextWord(bitmap, k, total);
      }
      AllSlots(bitmap, total);
      return None;
    }

    /** `free_slot`: out of range or free already is ignored. */
    method FreeSlot(s: nat)
      requires Valid()
      modifies this`bitmap, this`used, this`store
      ensures Valid() && store == old(store) - {s}
    {
      hide Sound, Taken, Put;
      FreeSound(active, lba, total, used, bitmap, disk, store, s);
      if 1 <= s <= total && Taken(bitmap, s) {
        bitmap := Put(bitmap, s, false);
        used := Dec(used);
      }
      store := store - {s};
    }

    /** `swap_out_internal`: the eight sectors of the slot are written, and nothing else. */
    method SwapOut(page: Page) returns (r: Result<nat>)
      requires Valid()
      modifies this`used, this`bitmap, this`disk, this`store
      ensures Valid()
      ensures r.Err? ==> store == old(store) && disk == old(disk) && (!active || forall s :: 1 <= s <= total ==> s in store)
      ensures r.Ok? ==> active && 1 <= r.value <= total && r.value !in old(store) && store == old(store)[r.value := page]
      ensures r.Ok? ==> OnlyAt(old(disk), disk, LbaFor(lba, r.value), page)
    {
      hide Slots, Holds, Written, LbaFor;
      if !active {
        return Err(NotActive);
      }
      SlotRange(bitmap, total);
      var slot := AllocSlot();
      if slot.None? {
        return Err(NoSpace);
      }
      StoreWritten(disk, lba, store, slot.value, page);
      WrittenAt(disk, LbaFor(lba, slot.value), page);
      disk := Written(disk, LbaFor(lba, slot.value), page);
      store := store[slot.value := page];
      return Ok(slot.value);
    }

    /** `swap_in_internal`: the page that was written when the slot was issued, and the slot is free again. */
    method SwapIn(s: nat) returns (r: Result<Page>)
      requires Valid()
      modifies this`bitmap, this`used, this`store
      ensures Valid() && (r.Ok? <==> s in old(store))
      ensures r.Ok? ==> r.value == old(store)[s] && store == old(store) - {s}
      ensures r.Err? ==> store == old(store)
    {
      hide Slots, Taken, ReadPage, LbaFor;
      SlotRange(bitmap, total);
      if !active {
        return Err(NotActive);
      }
      if !(1 <= s <= total) {
        return Err(InvalidSlot);
      }
      PutSlots(bitmap, total, s, false);
      if !Taken(bitmap, s) {
        return Err(InvalidSlot);
      }
      var page := ReadPage(disk, LbaFor(lba, s));
      FreeSlot(s);
      return Ok(page);
    }

    /**
     `swapon` on a header whose last page is `last`: the slots are the pages after the header. The
     number of sectors of the partition is passed and not looked at.
     */
    method SwapOn(partition: nat, sectors: nat, last: nat) returns (r: Result<nat>)
      requires Valid() && last < U32 && partition < U32 && sectors < U32
      modifies this`active, this`lba, this`total, this`used, this`bitmap, this`store
      ensures Valid() && (r.Err? <==> old(active))
      ensures r.Err? ==> store == old(store) && lba == old(lba) && total == old(total) && active
      ensures r.Ok? ==> active && lba == partition && store == map[]
      ensures r.Ok? ==> total == SlotCount(last) == if last == U32 - 1 then 0 else if last < MAX_PAGES then last else MAX_PAGES
      ensures r.Ok? ==> (Contained(lba, sectors, total) <==>
                           total == 0 || (lba + SECS * total < U32 && SECS * (total + 1) <= sectors))
    {
      hide Sound, Contained;
      if active {
        return Err(AlreadyActive);
      }
      var pages := (last + 1) % U32;
      var slots := Dec(pages);
      var n := if slots < MAX_PAGES then slots else MAX_PAGES;
      InPartitionIff(partition, sectors, n);
      EmptySound(true, partition, n, disk);
      active, lba, total, used, bitmap, store := true, partition, n, 0, NO_SLOTS, map[];
      return Ok(pages);
    }

    method SwapOff() returns (r: Result<()>)
      requires Valid()
      modifies this
      ensures Valid() && (r.Ok? <==> old(active) && old(store) == map[])
      ensures r.Ok? ==> !active && store == map[]
      ensures r.Err? ==> store == old(store) && active == old(active)
    {
      hide Holds, Slots;
      if !active {
        return Err(NotActive);
      }
      if used > 0 {
        return Err(SwapInUse);
      }
      EmptySound(false, 0, 0, disk);
      active, total, used, lba, bitmap := false, 0, 0, 0, NO_SLOTS;
      return Ok(());
    }

    /** Any sequence of outs, ins and frees behaves as the plain store does, and only slots' sectors are ever written. */
    method Serve(reqs: seq<Request>) returns (log: seq<Event>, ghost stores: seq<map<nat, Page>>)
      requires Valid()
      modifies this`used, this`bitmap, this`disk, this`store
      ensures Valid() && History(Room(active, total), stores, reqs, log) && stores[0] == old(store) && stores[|reqs|] == store
      ensures forall n: nat :: !OfSlot(lba, total, n) ==> disk(n) == old(disk)(n)
    {
      hide Sound;
      log, stores := [], [store];
      for k := 0 to |reqs|
        invariant Valid() && |log| == k && |stores| == k + 1 && stores[0] == old(store) && stores[k] == store
        invariant forall i :: 0 <= i < k ==> Happens(Room(active, total), stores[i], reqs[i], log[i], stores[i + 1])
        invariant forall n: nat :: !OfSlot(lba, total, n) ==> disk(n) == old(disk)(n)
      {
        var e := Answer(reqs[k]);
        log, stores := log + [e], stores + [store];
      }
    }

    method Answer(q: Request) returns (e: Event)
      requires Valid()
      modifies this`used, this`bitmap, this`disk, this`store
      ensures Valid() && Happens(Room(active, total), old(store), q, e, store)
      ensures forall n: nat :: !OfSlot(lba, total, n) ==> disk(n) == old(disk)(n)
    {
      hide Sound, LbaFor;
      match q {
        case Out(page) =>
          var r := SwapOut(page);
          e := Gave(r);
        case In(s) =>
          var r := SwapIn(s);
          e := Read(r);
        case Free(s) =>
          FreeSlot(s);
          e := Freed;
      }
    }
  }

  lemma WrittenAt(d: nat -> Sector, first: nat, p: Page)
    ensures OnlyAt(d, Written(d, first, p), first, p)
  {
  }

  lemma SlotRange(b: seq<Word>, total: nat)
    requires total <= 64 * |b|
    ensures forall s :: s in Slots(b, total) ==> 1 <= s <= total
  {
  }

  lemma FreeFacts(b: seq<Word>, total: nat, s: nat)
    requires total <= 64 * |b|
    ensures 1 <= s <= total && Taken(b, s) ==>
              && |Put(b, s, false)| == |b| && Slots(Put(b, s, false), total) == Slots(b, total) - {s}
              && |Slots(b, total) - {s}| == Dec(|Slots(b, total)|)
    ensures !(1 <= s <= total && Taken(b, s)) ==> Slots(b, total) - {s} == Slots(b, total)
  {
    hide Taken, Put;
    if 1 <= s <= total {
      PutSlots(b, total, s, false);
    }
  }

  lemma NoSlots(total: nat)
    requires total <= MAX_PAGES
    ensures |NO_SLOTS| == MAX_PAGES / 64 && Slots(NO_SLOTS, total) == {}
  {
  }

  // ---------------------------------------------------------------- the entry of a swapped page

  function MakePte(slot: bv64, flags: bv64): bv64 { 2 | (flags & 0xFFC) | (slot << 12) }
  function FlagsOf(raw: bv64): bv64 { raw & 0xFFC }
  predicate IsSwapPte(raw: bv64) { raw & 1 == 0 && raw & 2 != 0 && raw != 0 && raw >> 12 != 0 }
  function SlotOf(raw: bv64): bv64 { (raw >> 12) & 0xF_FFFF }

  /** Slot and flag bits 2 to 11 survive; the entry is recognised exactly when the slot is not zero. */
  lemma PteRoundTrip(slot: bv64, flags: bv64)
    requires slot < 0x10_0000
    ensures SlotOf(MakePte(slot, flags)) == slot
    ensures FlagsOf(MakePte(slot, flags)) == flags & 0xFFC
    ensures IsSwapPte(MakePte(slot, flags)) <==> slot != 0
    ensures MakePte(slot, flags) & 1 == 0
  {
  }

  /** Every slot up to `n`, as far as the partition goes. */
  ghost predicate AllTaken(b: seq<Word>, n: nat, total: nat)
    requires n <= 64 * |b|
  {
    forall s: nat :: 1 <= s <= n && s <= total ==> Taken(b, s)
  }

  lemma NextWord(b: seq<Word>, k: nat, total: nat)
    requires k < |b| && AllTaken(b, 64 * k, total) && (b[k] == ONES || k * 64 + TrailingOnes(b[k]) >= total)
    ensures AllTaken(b, 64 * (k + 1), total)
  {
    forall s: nat | 1 <= s <= 64 * (k + 1) && s <= total ensures Taken(b, s) {
      if s > 64 * k {
        assert (s - 1) / 64 == k && (s - 1) % 64 == s - 1 - 64 * k;
      }
    }
  }

  lemma LowestSlot(b: seq<Word>, k: nat, total: nat)
    requires k < |b| && AllTaken(b, 64 * k, total) && total <= 64 * |b| && TrailingOnes(b[k]) < 64 && k * 64 + TrailingOnes(b[k]) < total
    ensures var s := k * 64 + TrailingOnes(b[k]) + 1; s !in Slots(b, total) && forall t: nat :: 1 <= t < s ==> t in Slots(b, total)
  {
    var s := k * 64 + TrailingOnes(b[k]) + 1;
    assert (s - 1) / 64 == k && (s - 1) % 64 == TrailingOnes(b[k]);
    forall t: nat | 1 <= t < s ensures Taken(b, t) {
      if t > 64 * k {
        assert (t - 1) / 64 == k && (t - 1) % 64 == t - 1 - 64 * k;
      }
    }
  }

  lemma PutWord(b: seq<Word>, k: nat, n: nat, v: bool)
    requires k < |b| && n < 64
    ensures Put(b, k * 64 + n + 1, v) == b[k := b[k][n := v]]
  {
    assert (k * 64 + n) / 64 == k && (k * 64 + n) % 64 == n;
  }

  lemma AllSlots(b: seq<Word>, total: nat)
    requires total <= 64 * |b| && AllTaken(b, 64 * |b|, total)
    ensures forall s: nat :: 1 <= s <= total ==> s in Slots(b, total)
  {
  }

  // ---------------------------------------------------------------- runs

  datatype Request = Out(page: Page) | In(inSlot: nat) | Free(freeSlot: nat)
  datatype Event = Gave(slot: Result<nat>) | Read(read: Result<Page>) | Freed

  function Room(active: bool, total: nat): nat { if active then total else 0 }

  predicate OfSlot(lba: nat, total: nat, n: nat) { exists s :: 1 <= s <= total && Within(n, LbaFor(lba, s)) }

  /** What a request does to a store of `room` slots. */
  ghost predicate Happens(room: nat, store: map<nat, Page>, q: Request, e: Event, store': map<nat, Page>) {
    match q
    case Out(p) =>
      && e.Gave?
      && (e.slot.Ok? ==> 1 <= e.slot.value <= room && e.slot.value !in store && store' == store[e.slot.value := p])
      && (e.slot.Err? ==> store' == store && forall s :: 1 <= s <= room ==> s in store)
    case In(s) =>
      && e.Read? && (e.read.Ok? <==> s in store)
      && (e.read.Ok? ==> e.read.value == store[s]) && store' == store - {s}
    case Free(s) => e.Freed? && store' == store - {s}
  }

  ghost predicate History(room: nat, stores: seq<map<nat, Page>>, reqs: seq<Request>, log: seq<Event>) {
    && |log| == |reqs| && |stores| == |reqs| + 1
    && forall i :: 0 <= i < |reqs| ==> Happens(room, stores[i], reqs[i], log[i], stores[i + 1])
  }

  predicate Releases(q: Request, s: nat) { (q.In? && q.inSlot == s) || (q.Free? && q.freeSlot == s) }

  /** A page swapped out stays in its slot through any other traffic, and that slot is given to nobody else. */
  lemma {:induction false} PageStays(room: nat, stores: seq<map<nat, Page>>, reqs: seq<Request>, log: seq<Event>,
                                     i: nat, j: nat, s: nat)
    requires History(room, stores, reqs, log) && i < j <= |reqs|
    requires reqs[i].Out? && log[i] == Gave(Ok(s)) && forall k :: i < k < j ==> !Releases(reqs[k], s)
    ensures s in stores[j] && stores[j][s] == reqs[i].page
    ensures forall k :: i < k < j ==> log[k] != Gave(Ok(s))
  {
    assert Happens(room, stores[j - 1], reqs[j - 1], log[j - 1], stores[j]);
    if i < j - 1 {
      PageStays(room, stores, reqs, log, i, j - 1, s);
    }
  }

  /** So the next time it is swapped in, it is what was swapped out. */
  lemma OutThenIn(room: nat, stores: seq<map<nat, Page>>, reqs: seq<Request>, log: seq<Event>, i: nat, j: nat, s: nat)
    requires History(room, stores, reqs, log) && i < j < |reqs|
    requires reqs[i].Out? && log[i] == Gave(Ok(s)) && forall k :: i < k < j ==> !Releases(reqs[k], s)
    requires reqs[j] == In(s)
    ensures log[j] == Read(Ok(reqs[i].page))
  {
    PageStays(room, stores, reqs, log, i, j, s);
    assert Happens(room, stores[j], reqs[j], log[j], stores[j + 1]);
  }
}
