/**
 The physical frame allocator: a bitmap of 64-bit words scanned a word at a
 time, with hints, a use counter and reserved regions. A word is its 64 bits.
 */
module Pmm {
  import opened Common

  const MAX_FRAMES: nat := 4194304
  const WORDS: nat := 65536

  type Word = w: seq<bool> | |w| == 64 witness seq(64, _ => false)
  const ONES: Word := seq(64, _ => true)
  const ZEROS: Word := seq(64, _ => false)

  type Bits = b: seq<Word> | |b| == WORDS witness seq(WORDS, _ => ZEROS)

  predicate Used(b: Bits, f: nat)
    requires f < MAX_FRAMES
  {
    b[f / 64][f % 64]
  }

  function SetBit(b: Bits, f: nat, v: bool): Bits
    requires f < MAX_FRAMES
  {
    b[f / 64 := b[f / 64][f % 64 := v]]
  }

  lemma SetBitUsed(b: Bits, f: nat, v: bool, g: nat)
    requires f < MAX_FRAMES && g < MAX_FRAMES
    ensures Used(SetBit(b, f, v), g) == if g == f then v else Used(b, g)
  {
    assert f == 64 * (f / 64) + f % 64 && g == 64 * (g / 64) + g % 64;
  }

  /** The same bits except that [s, e) all are `v`. */
  ghost predicate Filled(b: Bits, b': Bits, s: nat, e: nat, v: bool) {
    forall g: nat :: g < MAX_FRAMES ==> Used(b', g) == if s <= g < e then v else Used(b, g)
  }

  lemma FilledBit(b0: Bits, b: Bits, s: nat, f: nat, v: bool)
    requires s <= f < MAX_FRAMES && Filled(b0, b, s, f, v)
    ensures Filled(b0, SetBit(b, f, v), s, f + 1, v)
  {
    hide SetBit, Used;
    forall g: nat | g < MAX_FRAMES ensures Used(SetBit(b, f, v), g) == if s <= g < f + 1 then v else Used(b0, g) {
      SetBitUsed(b, f, v, g);
    }
  }

  lemma FilledWord(b0: Bits, b: Bits, s: nat, f: nat, v: bool, w: Word)
    requires s <= f && f + 64 <= MAX_FRAMES && f % 64 == 0 && Filled(b0, b, s, f, v)
    requires forall k :: 0 <= k < 64 ==> w[k] == v
    ensures Filled(b0, b[f / 64 := w], s, f + 64, v)
  {
    var b': Bits := b[f / 64 := w];
    forall g: nat | g < MAX_FRAMES ensures Used(b', g) == if s <= g < f + 64 then v else Used(b0, g) {
      assert g / 64 == f / 64 <==> f <= g < f + 64;
      assert Used(b, g) == if s <= g < f then v else Used(b0, g);
    }
    assert Filled(b0, b', s, f + 64, v);
  }

  /** The bit, word, bit loops that set or clear a range. */
  method FillRange(a: array<Word>, s: nat, e: nat, v: bool)
    requires a.Length == WORDS && e <= MAX_FRAMES
    modifies a
    ensures Filled(old(a[..]), a[..], s, e, v)
  {
    hide Used, Filled;
    ghost var b: Bits := a[..];
    FilledNone(b, s, e, v);
    if s >= e {
      return;
    }
    var i := s;
    var headEnd := if (s + 63) / 64 * 64 < e then (s + 63) / 64 * 64 else e;
    FilledNone(b, s, s, v);
    while i < headEnd
      invariant s <= i <= headEnd && Filled(b, a[..], s, i, v)
    {
      FilledBit(b, a[..], s, i, v);
      a[i / 64] := a[i / 64][i % 64 := v];
      i := i + 1;
    }
    while i + 64 <= e
      invariant s <= i <= e && Filled(b, a[..], s, i, v) && (i == e || i % 64 == 0)
    {
      FilledWord(b, a[..], s, i, v, if v then ONES else ZEROS);
      a[i / 64] := if v then ONES else ZEROS;
      i := i + 64;
    }
    while i < e
      invariant s <= i <= e && Filled(b, a[..], s, i, v)
    {
      FilledBit(b, a[..], s, i, v);
      a[i / 64] := a[i / 64][i % 64 := v];
      i := i + 1;
    }
  }

  lemma FilledNone(b: Bits, s: nat, e: nat, v: bool)
    ensures s >= e ==> Filled(b, b, s, e, v)
  {
  }

  // ---------------------------------------------------------------- searching

  ghost predicate FreeRun(b: Bits, s: nat, n: nat) {
    s + n <= MAX_FRAMES && forall g: nat :: s <= g < s + n ==> !Used(b, g)
  }

  /** A run of `count` free frames inside [from, to). */
  ghost predicate Fits(b: Bits, from: nat, to: nat, count: nat, s: nat) { from <= s && s + count <= to && FreeRun(b, s, count) }

  ghost predicate NoFit(b: Bits, from: nat, to: nat, count: nat) { forall s: nat :: !Fits(b, from, to, count, s) }

  /** First fit, bit by bit. */
  ghost predicate FirstFit(b: Bits, from: nat, to: nat, count: nat, r: Option<nat>) {
    match r
    case None => NoFit(b, from, to, count)
    case Some(s) => Fits(b, from, to, count, s) && forall q: nat :: Fits(b, from, to, count, q) ==> s <= q
  }

  function TrailingOnes(w: Word): nat { Ones(w, 0) }

  function Ones(w: Word, k: nat): (n: nat)
    requires k <= 64
    ensures k <= n <= 64 && (n < 64 ==> !w[n]) && forall j :: k <= j < n ==> w[j]
    decreases 64 - k
  {
    if k == 64 || !w[k] then k else Ones(w, k + 1)
  }

  /** The scan for one frame: a bit at a time to a word boundary, then words, then bits. */
  method FindOne(b: Bits, from: nat, to: nat) returns (r: Option<nat>)
    requires from < to <= MAX_FRAMES
    ensures r.Some? ==> from <= r.value < to && !Used(b, r.value) && forall g: nat :: from <= g < r.value ==> Used(b, g)
    ensures r.None? ==> forall g: nat :: from <= g < to ==> Used(b, g)
  {
    var i := from;
    var headEnd := if (from + 63) / 64 * 64 < to then (from + 63) / 64 * 64 else to;
    while i < headEnd
      invariant from <= i <= headEnd && forall g: nat :: from <= g < i ==> Used(b, g)
    {
      if !Used(b, i) {
        return Some(i);
      }
      i := i + 1;
    }
    while i + 64 <= to
      invariant from <= i <= to && (i == to || i % 64 == 0) && forall g: nat :: from <= g < i ==> Used(b, g)
    {
      var w := b[i / 64];
      WordBits(b, i);
      if w != ONES {
        NotAllOnes(w);
        return Some(i + TrailingOnes(w));
      }
      i := i + 64;
    }
    while i < to
      invariant from <= i <= to && forall g: nat :: from <= g < i ==> Used(b, g)
    {
      if !Used(b, i) {
        return Some(i);
      }
      i := i + 1;
    }
    return None;
  }

  lemma WordBits(b: Bits, i: nat)
    requires i % 64 == 0 && i + 64 <= MAX_FRAMES
    ensures forall g: nat :: i <= g < i + 64 ==> Used(b, g) == b[i / 64][g - i]
  {
    forall g: nat | i <= g < i + 64 ensures Used(b, g) == b[i / 64][g - i] {
      assert g / 64 == i / 64 && g % 64 == g - i;
    }
  }

  lemma NotAllOnes(w: Word)
    requires w != ONES
    ensures TrailingOnes(w) < 64
  {
    var n := TrailingOnes(w);
    assert n == 64 ==> w == ONES;
  }

  /** Where the longer scan stands: the last `run` bits before `i` are free, and no fit ends before `i`. */
  ghost predicate Scanned(b: Bits, from: nat, count: nat, i: nat, start: nat, run: nat) {
    && from <= i <= MAX_FRAMES && run < count
    && (run > 0 ==> start + run == i && from <= start && FreeRun(b, start, run) && (start > from ==> Used(b, start - 1)))
    && (run == 0 && i > from ==> Used(b, i - 1))
    && NoFit(b, from, i, count)
  }

  /** The scan for several frames: full words are skipped, empty words are taken whole. */
  method FindMany(b: Bits, from: nat, to: nat, count: nat) returns (r: Option<nat>)
    requires from < to <= MAX_FRAMES && count > 1
    ensures FirstFit(b, from, to, count, r)
  {
    hide Used, FreeRun;
    var run: nat, start: nat, i: nat := 0, 0, from;
    ScanStart(b, from, count);
    while i < to
      invariant from <= i <= to && Scanned(b, from, count, i, start, run)
    {
      if run == 0 && i % 64 == 0 && i + 64 <= to {
        var w := b[i / 64];
        if w == ONES {
          ScanFull(b, from, count, i, start);
          i := i + 64;
          continue;
        }
        if w == ZEROS {
          ScanEmpty(b, from, to, count, i, start);
          start, run, i := i, 64, i + 64;
          if run >= count {
            return Some(start);
          }
          continue;
        }
      }
      if !Used(b, i) {
        ScanFree(b, from, to, count, i, start, run);
        if run == 0 { start := i; }
        run := run + 1;
        if run >= count {
          return Some(start);
        }
      } else {
        ScanUsed(b, from, count, i, start, run);
        run := 0;
      }
      i := i + 1;
    }
    return None;
  }

  lemma ScanStart(b: Bits, from: nat, count: nat)
    requires from < MAX_FRAMES && count > 1
    ensures Scanned(b, from, count, from, 0, 0)
  {
  }

  lemma ScanUsed(b: Bits, from: nat, count: nat, i: nat, start: nat, run: nat)
    requires Scanned(b, from, count, i, start, run) && i < MAX_FRAMES && Used(b, i)
    ensures Scanned(b, from, count, i + 1, start, 0)
  {
    var j := i + 1;
    forall s: nat ensures !Fits(b, from, j, count, s) {
      assert !Fits(b, from, i, count, s);
    }
  }

  lemma ScanFull(b: Bits, from: nat, count: nat, i: nat, start: nat)
    requires Scanned(b, from, count, i, start, 0) && i % 64 == 0 && i + 64 <= MAX_FRAMES && b[i / 64] == ONES
    ensures Scanned(b, from, count, i + 64, start, 0)
  {
    WordBits(b, i);
    var j := i + 64;
    forall s: nat ensures !Fits(b, from, j, count, s) {
      assert !Fits(b, from, i, count, s);
      var g := if s >= i then s else i;
      assert g < j ==> Used(b, g);
    }
  }

  /** One free bit more: the run is a fit as soon as it is long enough, and then the first. */
  lemma ScanFree(b: Bits, from: nat, to: nat, count: nat, i: nat, start: nat, run: nat)
    requires Scanned(b, from, count, i, start, run) && i < to <= MAX_FRAMES && !Used(b, i)
    ensures var start' := if run == 0 then i else start;
            && (run + 1 < count ==> Scanned(b, from, count, i + 1, start', run + 1))
            && (run + 1 >= count ==> FirstFit(b, from, to, count, Some(start')))
  {
    var start' := if run == 0 then i else start;
    assert FreeRun(b, start', run + 1);
    forall s: nat | Fits(b, from, to, count, s) ensures s >= start' {
      assert !Fits(b, from, i, count, s);
      assert start' > from ==> Used(b, start' - 1);
    }
    if run + 1 < count {
      var j := i + 1;
      forall s: nat ensures !Fits(b, from, j, count, s) {
        assert !Fits(b, from, i, count, s);
        assert s < start' && start' > from ==> Used(b, start' - 1);
      }
    }
  }

  lemma ScanEmpty(b: Bits, from: nat, to: nat, count: nat, i: nat, start: nat)
    requires Scanned(b, from, count, i, start, 0) && i % 64 == 0 && i + 64 <= to <= MAX_FRAMES && b[i / 64] == ZEROS
    ensures 64 < count ==> Scanned(b, from, count, i + 64, i, 64)
    ensures 64 >= count ==> FirstFit(b, from, to, count, Some(i))
  {
    WordBits(b, i);
    assert FreeRun(b, i, 64);
    forall s: nat | Fits(b, from, to, count, s) ensures s >= i {
      assert !Fits(b, from, i, count, s);
      assert i > from ==> Used(b, i - 1);
    }
    if 64 < count {
      var j := i + 64;
      forall s: nat ensures !Fits(b, from, j, count, s) {
        assert !Fits(b, from, i, count, s);
        assert s < i && i > from ==> Used(b, i - 1);
      }
    }
  }

  /** `find_contiguous`. */
  method FindContiguous(b: Bits, from: nat, to: nat, count: nat) returns (r: Option<nat>)
    requires to <= MAX_FRAMES
    ensures count > 0 ==> FirstFit(b, from, to, count, r)
    ensures count == 0 ==> r == None
  {
    if from >= to || count == 0 {
      return None;
    }
    if count == 1 {
      r := FindOne(b, from, to);
      if r.Some? {
        assert FreeRun(b, r.value, 1);
        forall q: nat | Fits(b, from, to, 1, q) ensures r.value <= q {
          assert !Used(b, q);
        }
      } else {
        forall s: nat ensures !Fits(b, from, to, 1, s) {
          assert from <= s < to ==> Used(b, s);
        }
      }
    } else {
      r := FindMany(b, from, to, count);
    }
  }

  // ---------------------------------------------------------------- counting

  /** The frames from `s` up to but not including `e`. */
  function Frames(s: nat, e: nat): (r: set<nat>)
    ensures forall f: nat :: f in r <==> s <= f < e
    ensures |r| == if s < e then e - s else 0
    decreases e
  {
    if s >= e then {} else Frames(s, e - 1) + {e - 1}
  }

  ghost function FreeSet(b: Bits): set<nat> { set f: nat | f < MAX_FRAMES && !Used(b, f) }

  lemma FilledSet(b: Bits, b': Bits, s: nat, e: nat, v: bool)
    requires e <= MAX_FRAMES && Filled(b, b', s, e, v)
    ensures FreeSet(b') == if v then FreeSet(b) - Frames(s, e) else FreeSet(b) + Frames(s, e)
  {
    hide Used;
  }

  class FrameAllocator {
    const bitmap: array<Word>
    var total: nat
    var used: nat
    var freeHint: nat
    var contiguousHint: nat
    /** The frames of the regions added so far. */
    ghost var added: set<nat>

    ghost function View(): Bits
      requires bitmap.Length == WORDS
      reads this, bitmap
    {
      bitmap[..]
    }

    /** Free frames are frames that were added; the counters count; nothing below the hint is free. */
    ghost predicate Valid()
      reads this, bitmap
    {
      && bitmap.Length == WORDS && freeHint <= MAX_FRAMES && contiguousHint <= MAX_FRAMES
      && FreeSet(View()) <= added && |added| == total && used + |FreeSet(View())| == total
      && forall f: nat :: f < freeHint ==> Used(View(), f)
    }

    constructor ()
      ensures Valid() && added == {} && fresh(bitmap)
    {
      bitmap := new Word[WORDS](_ => ONES);
      total, used, freeHint, contiguousHint, added := 0, 0, 0, 0, {};
      new;
      assert forall f: nat :: f < MAX_FRAMES ==> bitmap[..][f / 64] == ONES;
      assert FreeSet(View()) == {};
    }

    /** `add_region`, in frames: exactly these become free; the counters stay right exactly when none was added before. */
    method AddRegion(s: nat, end: nat)
      requires Valid()
      modifies this, bitmap
      ensures Valid() <==> old(added) !! Frames(s, Min(end, MAX_FRAMES))
      ensures bitmap.Length == WORDS && added == old(added) + Frames(s, Min(end, MAX_FRAMES))
      ensures Filled(old(View()), View(), s, Min(end, MAX_FRAMES), false) && used == old(used)
    {
      hide Used, Filled, FreeSet, Frames;
      var e := Min(end, MAX_FRAMES);
      ghost var b := View();
      FillRange(bitmap, s, e, false);
      FilledSet(b, View(), s, e, false);
      if s < e {
        if s < freeHint { freeHint := s; }
        if s < contiguousHint { contiguousHint := s; }
        total := total + (e - s);
      }
      UnionCard(added, Frames(s, e));
      added := added + Frames(s, e);
      BelowHint(b, View(), s, e, freeHint);
    }

    /** `alloc_frames`: one frame is the lowest free one; more are the first fit behind the hint, then before it. */
    method AllocFrames(count: nat) returns (r: Option<nat>)
      requires Valid()
      modifies this, bitmap
      ensures Valid() && added == old(added)
      ensures r.None? ==> View() == old(View()) && used == old(used)
      ensures r.Some? ==> count > 0 && FreeRun(old(View()), r.value, count) && Filled(old(View()), View(), r.value, r.value + count, true)
      ensures count == 1 ==> FirstFit(old(View()), 0, MAX_FRAMES, 1, r)
      ensures count > 1 ==> HintedFit(old(View()), old(contiguousHint), count, r)
    {
      hide Used, Filled, FreeSet, Frames, FreeRun, Fits, FirstFit, HintedFit;
      r := Search(count);
      if r.Some? {
        ghost var b := View();
        Take(r.value, count);
        if count == 1 {
          LowestTaken(b, View(), r.value);
          freeHint := r.value + 1;
        } else {
          contiguousHint := r.value + count;
        }
      }
    }

    /** From the hint to the end, then from the start to the hint. */
    method Search(count: nat) returns (r: Option<nat>)
      requires Valid()
      ensures r.Some? ==> count > 0 && FreeRun(View(), r.value, count) && r.value + count <= MAX_FRAMES
      ensures count == 1 ==> FirstFit(View(), 0, MAX_FRAMES, 1, r)
      ensures count > 1 ==> HintedFit(View(), contiguousHint, count, r)
    {
      hide Used, FreeSet, FreeRun, Fits, FirstFit, HintedFit;
      var from := if count == 1 then freeHint else contiguousHint;
      r := FindContiguous(bitmap[..], from, MAX_FRAMES, count);
      if count > 0 && r.Some? { FoundBehind(View(), from, count, r.value); }
      if r.None? && from > 0 {
        r := FindContiguous(bitmap[..], 0, from, count);
        if count > 0 { FoundBefore(View(), from, count, r); }
      }
      if count == 1 {
        LowestFree(View(), freeHint, r);
      } else if count > 1 && from == 0 && r.None? {
        NothingFound(View(), count);
      }
    }

    method Take(s: nat, count: nat)
      requires Valid() && FreeRun(View(), s, count)
      modifies bitmap, this`used
      ensures Valid() && Filled(old(View()), View(), s, s + count, true)
    {
      hide Used, Filled, Frames, FreeRun, FreeSet;
      ghost var b := View();
      RunFits(b, s, count);
      FillRange(bitmap, s, s + count, true);
      FilledSet(b, View(), s, s + count, true);
      RunInFree(b, s, count);
      StillBelow(b, View(), s, s + count, freeHint);
      used := used + count;
    }

    /** Clear the bits from `s` to `e`, counting down for each that was set. */
    method ClearBits(s: nat, e: nat)
      requires bitmap.Length == WORDS && s <= e <= MAX_FRAMES
      requires FreeSet(View()) <= added && used + |FreeSet(View())| == |added|
      modifies bitmap, this`used
      ensures Filled(old(View()), View(), s, e, false)
      ensures Frames(s, e) <= added ==> used + |FreeSet(View())| == |added|
    {
      hide Used, Filled, FreeSet, Frames;
      ghost var b, ok := View(), Frames(s, e) <= added;
      FilledNone(b, s, s, false);
      var i := s;
      while i < e
        invariant s <= i <= e && Filled(b, View(), s, i, false)
        invariant ok ==> FreeSet(View()) <= added && used + |FreeSet(View())| == |added|
      {
        FilledBit(b, View(), s, i, false);
        ClearSet(View(), i);
        if Used(bitmap[..], i) {
          if ok { FewerThan(FreeSet(View()), added, i); }
          bitmap[i / 64] := bitmap[i / 64][i % 64 := false];
          used := if used > 0 then used - 1 else U64 - 1;
        } else {
          ClearAgain(bitmap[..], i);
        }
        i := i + 1;
      }
    }

    /** `free_frames`: the frames are free; everything stays right exactly when all of them were added at some time. */
    method FreeFrames(s: nat, count: nat)
      requires Valid()
      modifies this, bitmap
      ensures Valid() <==> Frames(s, Min(s + count, MAX_FRAMES)) <= old(added)
      ensures bitmap.Length == WORDS && added == old(added)
      ensures Filled(old(View()), View(), s, Min(s + count, MAX_FRAMES), false)
    {
      hide Used, Filled, FreeSet, Frames;
      ghost var b := View();
      var e := Min(s + count, MAX_FRAMES);
      FilledNone(b, s, e, false);
      if s < e {
        ClearBits(s, e);
        FilledSet(b, View(), s, e, false);
      }
      if s < freeHint { freeHint := s; }
      if s < contiguousHint { contiguousHint := s; }
      if s < e { BelowHint(b, View(), s, e, freeHint); }
    }

    /** One frame of a reserved region. */
    method ReserveBit(i: nat)
      requires Valid() && i < MAX_FRAMES
      modifies bitmap, this`used
      ensures Valid() && View() == SetBit(old(View()), i, true)
    {
      hide Filled, Frames;
      ghost var b := View();
      SetSet(b, i);
      StillSet(b, i, freeHint);
      hide FreeSet;
      if !Used(bitmap[..], i) {
        bitmap[i / 64] := bitmap[i / 64][i % 64 := true];
        if used < total { used := used + 1; }
      } else {
        SetAgain(bitmap[..], i);
      }
    }

    /** A whole word of a reserved region. */
    method ReserveWord(i: nat)
      requires Valid() && i % 64 == 0 && i + 64 <= MAX_FRAMES
      modifies bitmap, this`used
      ensures Valid() && View() == old(View())[i / 64 := ONES]
    {
      hide Frames, FreeSet, Used, Filled, ZerosIn;
      ghost var b := View();
      var newly := ZerosIn(bitmap[i / 64], 64);
      WordReserved(b, i);
      bitmap[i / 64] := ONES;
      StillBelow(b, View(), i, i + 64, freeHint);
      var room := if total > used then total - used else 0;
      used := used + Min(newly, room);
    }

    /** `reserve_region`: every frame of it is used from now on; the clamps on the counter never bite. */
    method ReserveRegion(s: nat, end: nat)
      requires Valid()
      modifies this, bitmap
      ensures Valid() && added == old(added) && total == old(total)
      ensures Filled(old(View()), View(), s, Min(end, MAX_FRAMES), true)
    {
      hide Used, Filled, FreeSet, Frames;
      ghost var b := View();
      var e := Min(end, MAX_FRAMES);
      FilledNone(b, s, e, true);
      if s >= e {
        return;
      }
      FilledNone(b, s, s, true);
      var i := s;
      var headEnd := Min((s + 63) / 64 * 64, e);
      while i < headEnd
        invariant s <= i <= headEnd && Valid() && Filled(b, View(), s, i, true)
        modifies bitmap, this`used
      {
        FilledBit(b, View(), s, i, true);
        ReserveBit(i);
        i := i + 1;
      }
      while i + 64 <= e
        invariant s <= i <= e && (i == e || i % 64 == 0) && Valid() && Filled(b, View(), s, i, true)
        modifies bitmap, this`used
      {
        FilledWord(b, View(), s, i, true, ONES);
        ReserveWord(i);
        i := i + 64;
      }
      while i < e
        invariant s <= i <= e && Valid() && Filled(b, View(), s, i, true)
        modifies bitmap, this`used
      {
        FilledBit(b, View(), s, i, true);
        ReserveBit(i);
        i := i + 1;
      }
    }

    /** Any history of allocations and frees: each is answered by the search, what is out is what was answered and not
        given back, never overlaps, and is marked used. */
    method Serve(reqs: seq<Request>) returns (log: seq<Option<nat>>, live: map<nat, nat>, ghost trace: seq<(Bits, nat)>)
      requires Valid()
      modifies this, bitmap
      ensures Valid() && added == old(added) && Apart(live) && Held(View(), added, live)
      ensures |log| == |reqs| && |trace| == |reqs| + 1 && trace[0].0 == old(View()) && trace[|reqs|].0 == View()
      ensures live == LiveAfter(reqs, log)
      ensures forall n :: 0 <= n < |reqs| ==> Answers(trace[n], LiveAfter(reqs[..n], log[..n]), reqs[n], log[n], trace[n + 1].0)
    {
      hide Used, Filled, FreeSet, Frames, FreeRun, FirstFit, HintedFit, Apart, Held, Answers, LiveAfter;
      NoneHeld(View(), added);
      NoneLive();
      log, live, trace := [], map[], [(View(), contiguousHint)];
      for n := 0 to |reqs|
        invariant Valid() && added == old(added) && Apart(live) && Held(View(), added, live)
        invariant |log| == n && |trace| == n + 1 && trace[0].0 == old(View()) && trace[n] == (View(), contiguousHint)
        invariant live == LiveAfter(reqs[..n], log)
        invariant forall k :: 0 <= k < n ==> Answers(trace[k], LiveAfter(reqs[..k], log[..k]), reqs[k], log[k], trace[k + 1].0)
      {
        ghost var had := live;
        var r;
        r, live := Answer(reqs[n], live);
        LiveNext(reqs, log, n, r);
        ghost var was := log;
        log, trace := log + [r], trace + [(View(), contiguousHint)];
        assert log[..n] == was;
        assert forall k :: 0 <= k < n ==> log[..k] == was[..k];
      }
      assert reqs[..|reqs|] == reqs && log[..|log|] == log;
    }

    /** One request. */
    method Answer(q: Request, live: map<nat, nat>) returns (r: Option<nat>, after: map<nat, nat>)
      requires Valid() && Apart(live) && Held(View(), added, live)
      modifies this, bitmap
      ensures Valid() && added == old(added) && Apart(after) && Held(View(), added, after)
      ensures after == Outstanding(live, q, r) && Answers((old(View()), old(contiguousHint)), live, q, r, View())
    {
      hide Used, Filled, FreeSet, Frames, FreeRun, FirstFit, HintedFit, Apart, Held;
      r, after := None, live;
      ghost var b := View();
      match q {
        case Alloc(count) =>
          r := AllocFrames(count);
          if r.Some? {
            NewHolding(b, View(), added, live, r.value, count);
            after := live[r.value := count];
          }
        case Free(s) =>
          if s in live {
            Returnable(b, added, live, s);
            FreeFrames(s, live[s]);
            OldHoldings(b, View(), added, live, s);
            after := live - {s};
          }
      }
    }
  }

  /** What is out after a request: its frames on success, without the run it gave back. */
  function Outstanding(live: map<nat, nat>, q: Request, r: Option<nat>): map<nat, nat> {
    match q
    case Alloc(count) => if r.Some? then live[r.value := count] else live
    case Free(s) => live - {s}
  }

  function LiveAfter(reqs: seq<Request>, log: seq<Option<nat>>): map<nat, nat>
    requires |log| == |reqs|
  {
    if reqs == [] then map[]
    else Outstanding(LiveAfter(reqs[..|reqs| - 1], log[..|log| - 1]), reqs[|reqs| - 1], log[|log| - 1])
  }

  lemma NoneLive()
    ensures LiveAfter([], []) == map[]
  {
  }

  lemma LiveNext(reqs: seq<Request>, log: seq<Option<nat>>, n: nat, r: Option<nat>)
    requires n < |reqs| && |log| == n
    ensures LiveAfter(reqs[..n + 1], log + [r]) == Outstanding(LiveAfter(reqs[..n], log), reqs[n], r)
  {
    assert reqs[..n + 1][..n] == reqs[..n] && (log + [r])[..n] == log;
  }

  /** How a request is answered and what it does to the bits: the lowest free frame, the hinted first fit, or a run given back. */
  ghost predicate Answers(before: (Bits, nat), live: map<nat, nat>, q: Request, r: Option<nat>, b': Bits) {
    match q
    case Alloc(count) =>
      && (count == 0 ==> r == None)
      && (count == 1 ==> FirstFit(before.0, 0, MAX_FRAMES, 1, r))
      && (count > 1 ==> HintedFit(before.0, before.1, count, r))
      && (if r.Some? then Filled(before.0, b', r.value, r.value + count, true) else b' == before.0)
    case Free(s) =>
      && r == None
      && (if s in live then Filled(before.0, b', s, Min(s + live[s], MAX_FRAMES), false) else b' == before.0)
  }

  datatype Request = Alloc(count: nat) | Free(s: nat)

  lemma SetSet(b: Bits, i: nat)
    requires i < MAX_FRAMES
    ensures FreeSet(SetBit(b, i, true)) == FreeSet(b) - {i} && (Used(b, i) <==> i !in FreeSet(b))
  {
    hide SetBit;
    forall g: nat | g < MAX_FRAMES ensures Used(SetBit(b, i, true), g) == if g == i then true else Used(b, g) {
      SetBitUsed(b, i, true, g);
    }
  }

  lemma SetAgain(b: Bits, i: nat)
    requires i < MAX_FRAMES && Used(b, i)
    ensures SetBit(b, i, true) == b
  {
    assert b[i / 64][i % 64 := true] == b[i / 64];
  }

  lemma StillSet(b: Bits, i: nat, hint: nat)
    requires i < MAX_FRAMES && hint <= MAX_FRAMES && forall f: nat :: f < hint ==> Used(b, f)
    ensures forall f: nat :: f < hint ==> Used(SetBit(b, i, true), f)
  {
    forall f: nat | f < hint ensures Used(SetBit(b, i, true), f) { SetBitUsed(b, i, true, f); }
  }

  /** `count_ones` of the complement, over the first `k` bits. */
  function ZerosIn(w: Word, k: nat): nat
    requires k <= 64
  {
    if k == 0 then 0 else ZerosIn(w, k - 1) + if w[k - 1] then 0 else 1
  }

  /** The zero bits of a word are its free frames. */
  lemma WordReserved(b: Bits, i: nat)
    requires i % 64 == 0 && i + 64 <= MAX_FRAMES
    ensures var b' := b[i / 64 := ONES];
            && Filled(b, b', i, i + 64, true) && FreeSet(b') <= FreeSet(b)
            && |FreeSet(b')| == |FreeSet(b)| - ZerosIn(b[i / 64], 64)
  {
    hide Frames, FreeSet, Used, Filled, ZerosIn;
    FilledNone(b, i, i, true);
    FilledWord(b, b, i, i, true, ONES);
    FilledSet(b, b[i / 64 := ONES], i, i + 64, true);
    ZerosCount(b, i, 64);
    SplitCard(FreeSet(b), Frames(i, i + 64));
  }

  lemma {:induction false} ZerosCount(b: Bits, i: nat, k: nat)
    requires i % 64 == 0 && i + 64 <= MAX_FRAMES && k <= 64
    ensures |FreeSet(b) * Frames(i, i + k)| == ZerosIn(b[i / 64], k)
  {
    hide Frames, FreeSet;
    if k == 0 {
      assert FreeSet(b) * Frames(i, i) == {};
    } else {
      ZerosCount(b, i, k - 1);
      var f := i + k - 1;
      FreeBit(b, i, k - 1);
      var before := FreeSet(b) * Frames(i, f);
      if b[i / 64][k - 1] {
        assert FreeSet(b) * Frames(i, i + k) == before;
      } else {
        assert FreeSet(b) * Frames(i, i + k) == before + {f};
      }
    }
  }

  lemma FreeBit(b: Bits, i: nat, k: nat)
    requires i % 64 == 0 && i + 64 <= MAX_FRAMES && k < 64
    ensures i + k in FreeSet(b) <==> !b[i / 64][k]
  {
    WordBits(b, i);
  }

  lemma SplitCard(s: set<nat>, t: set<nat>)
    ensures |s - t| == |s| - |s * t|
  {
    assert s == (s - t) + (s * t);
  }

  // ---------------------------------------------------------------- allocations

  ghost predicate Apart(live: map<nat, nat>) {
    forall s, t :: s in live && t in live && s != t ==> Frames(s, s + live[s]) !! Frames(t, t + live[t])
  }

  predicate Out(live: map<nat, nat>, s: nat, f: nat) { s in live && s <= f < s + live[s] }

  /** Every frame that is out is one that was added, and marked used. */
  ghost predicate Held(b: Bits, added: set<nat>, live: map<nat, nat>) {
    forall s: nat, f: nat :: Out(live, s, f) ==> f < MAX_FRAMES && f in added && Used(b, f)
  }

  lemma NoneHeld(b: Bits, added: set<nat>)
    ensures Apart(map[]) && Held(b, added, map[])
  {
  }

  lemma NewHolding(b: Bits, b': Bits, added: set<nat>, live: map<nat, nat>, s: nat, count: nat)
    requires Apart(live) && Held(b, added, live) && FreeSet(b) <= added
    requires count > 0 && FreeRun(b, s, count) && Filled(b, b', s, s + count, true)
    ensures Apart(live[s := count]) && Held(b', added, live[s := count])
  {
    hide Frames, Filled;
    RunInFree(b, s, count);
    ApartAfter(b, added, live, s, count);
    HeldAfter(b, b', added, live, s, count);
  }

  lemma ApartAfter(b: Bits, added: set<nat>, live: map<nat, nat>, s: nat, count: nat)
    requires Apart(live) && Held(b, added, live) && FreeRun(b, s, count)
    ensures Apart(live[s := count])
  {
    hide Frames, Used;
    forall t | t in live ensures Frames(t, t + live[t]) !! Frames(s, s + count) {
      var mine, theirs := Frames(s, s + count), Frames(t, t + live[t]);
      forall f | f in theirs ensures f !in mine {
        assert Out(live, t, f);
      }
    }
  }

  lemma HeldAfter(b: Bits, b': Bits, added: set<nat>, live: map<nat, nat>, s: nat, count: nat)
    requires Held(b, added, live) && Frames(s, s + count) <= added && s + count <= MAX_FRAMES && Filled(b, b', s, s + count, true)
    ensures Held(b', added, live[s := count])
  {
    hide Used, Frames;
    var live' := live[s := count];
    forall t: nat, f: nat | Out(live', t, f) ensures f < MAX_FRAMES && f in added && Used(b', f) {
      if t == s {
        assert f in Frames(s, s + count);
      } else {
        assert Out(live, t, f);
      }
    }
  }

  lemma Returnable(b: Bits, added: set<nat>, live: map<nat, nat>, s: nat)
    requires Held(b, added, live) && s in live
    ensures Frames(s, Min(s + live[s], MAX_FRAMES)) <= added
  {
    hide Used, Frames;
    forall f | f in Frames(s, Min(s + live[s], MAX_FRAMES)) ensures f in added {
      assert Out(live, s, f);
    }
  }

  lemma OldHoldings(b: Bits, b': Bits, added: set<nat>, live: map<nat, nat>, s: nat)
    requires Apart(live) && Held(b, added, live) && s in live && Filled(b, b', s, Min(s + live[s], MAX_FRAMES), false)
    ensures Apart(live - {s}) && Held(b', added, live - {s})
  {
    hide Used, Frames;
    var live' := live - {s};
    forall t: nat, f: nat | Out(live', t, f) ensures f < MAX_FRAMES && f in added && Used(b', f) {
      assert Out(live, t, f);
      assert f in Frames(t, t + live[t]);
      assert f !in Frames(s, s + live[s]);
    }
  }

  // ---------------------------------------------------------------- the blind spot of the hint

  lemma {:induction false} UnionCard(a: set<nat>, f: set<nat>)
    ensures |a + f| <= |a| + |f| && (|a + f| == |a| + |f| <==> a !! f)
  {
    assert (a + f) == a + (f - a);
    assert |a + f| == |a| + |f - a|;
    assert f == (f - a) + (f * a);
    assert |f| == |f - a| + |f * a|;
  }

  /** The search finds nothing exactly when every free run crosses the hint. */
  lemma HintMissesCrossing(b: Bits, hint: nat, count: nat)
    requires hint <= MAX_FRAMES && count > 1
    ensures HintedFit(b, hint, count, None) <==> forall s: nat :: Fits(b, 0, MAX_FRAMES, count, s) ==> s < hint < s + count
  {
    hide FreeRun;
    if HintedFit(b, hint, count, None) {
      forall s: nat | Fits(b, 0, MAX_FRAMES, count, s) ensures s < hint < s + count {
        assert !Fits(b, hint, MAX_FRAMES, count, s) && !Fits(b, 0, hint, count, s);
      }
    }
    if forall s: nat :: Fits(b, 0, MAX_FRAMES, count, s) ==> s < hint < s + count {
      forall s: nat ensures !Fits(b, hint, MAX_FRAMES, count, s) && !Fits(b, 0, hint, count, s) {
        assert Fits(b, hint, MAX_FRAMES, count, s) || Fits(b, 0, hint, count, s) ==> Fits(b, 0, MAX_FRAMES, count, s);
      }
    }
  }

  /** Such a case: the only free run crosses the hint. */
  lemma CrossingRunUnseen(b: Bits, hint: nat, count: nat, s: nat)
    requires s < hint < s + count && FreeRun(b, s, count) && count > 1
    requires forall f: nat :: f < MAX_FRAMES && !(s <= f < s + count) ==> Used(b, f)
    ensures Fits(b, 0, MAX_FRAMES, count, s) && HintedFit(b, hint, count, None)
  {
    forall q: nat ensures Fits(b, 0, MAX_FRAMES, count, q) ==> q == s {
      assert q + count <= MAX_FRAMES && q > s ==> Used(b, q + count - 1);
      assert q + count <= MAX_FRAMES && q < s ==> Used(b, q);
    }
    HintMissesCrossing(b, hint, count);
  }

  lemma ClearSet(b: Bits, i: nat)
    requires i < MAX_FRAMES
    ensures FreeSet(SetBit(b, i, false)) == FreeSet(b) + {i} && (Used(b, i) <==> i !in FreeSet(b))
  {
    hide SetBit;
    forall g: nat | g < MAX_FRAMES ensures Used(SetBit(b, i, false), g) == if g == i then false else Used(b, g) {
      SetBitUsed(b, i, false, g);
    }
  }

  lemma ClearAgain(b: Bits, i: nat)
    requires i < MAX_FRAMES && !Used(b, i)
    ensures SetBit(b, i, false) == b
  {
    assert b[i / 64][i % 64 := false] == b[i / 64];
  }

  lemma FewerThan(s: set<nat>, t: set<nat>, x: nat)
    requires s <= t && x in t && x !in s
    ensures |s| < |t| && |s + {x}| == |s| + 1
  {
    assert s <= t - {x};
    SubsetCard(s, t - {x});
  }

  lemma {:induction false} SubsetCard(s: set<nat>, t: set<nat>)
    requires s <= t
    ensures |s| <= |t|
  {
    assert t == s + (t - s);
  }

  lemma RunFits(b: Bits, s: nat, n: nat)
    requires FreeRun(b, s, n)
    ensures s + n <= MAX_FRAMES
  {
  }

  /** A fit behind the hint, or else the first before it; a run across the hint is not seen. */
  ghost predicate HintedFit(b: Bits, hint: nat, count: nat, r: Option<nat>) {
    match r
    case None => NoFit(b, hint, MAX_FRAMES, count) && NoFit(b, 0, hint, count)
    case Some(s) =>
      if s >= hint then FirstFit(b, hint, MAX_FRAMES, count, r)
      else NoFit(b, hint, MAX_FRAMES, count) && FirstFit(b, 0, hint, count, r)
  }

  /** With nothing free below the hint, searching from it is searching everything. */
  lemma LowestFree(b: Bits, hint: nat, r: Option<nat>)
    requires hint <= MAX_FRAMES && forall f: nat :: f < hint ==> Used(b, f)
    requires FirstFit(b, hint, MAX_FRAMES, 1, r) || (FirstFit(b, hint, MAX_FRAMES, 1, None) && hint > 0 && FirstFit(b, 0, hint, 1, r))
    ensures FirstFit(b, 0, MAX_FRAMES, 1, r)
    ensures r.Some? ==> r.value >= hint
  {
    forall s: nat | Fits(b, 0, MAX_FRAMES, 1, s) ensures Fits(b, hint, MAX_FRAMES, 1, s) {
      assert !Used(b, s);
    }
    forall s: nat ensures !Fits(b, 0, hint, 1, s) {
      assert s < hint ==> Used(b, s);
    }
  }

  lemma FoundBehind(b: Bits, hint: nat, count: nat, s: nat)
    requires count > 0 && FirstFit(b, hint, MAX_FRAMES, count, Some(s))
    ensures FreeRun(b, s, count) && s + count <= MAX_FRAMES && HintedFit(b, hint, count, Some(s))
  {
  }

  lemma FoundBefore(b: Bits, hint: nat, count: nat, r: Option<nat>)
    requires hint <= MAX_FRAMES && count > 0 && FirstFit(b, hint, MAX_FRAMES, count, None) && FirstFit(b, 0, hint, count, r)
    ensures HintedFit(b, hint, count, r) && (r.Some? ==> FreeRun(b, r.value, count) && r.value + count <= MAX_FRAMES)
  {
  }

  lemma NothingFound(b: Bits, count: nat)
    requires count > 0 && FirstFit(b, 0, MAX_FRAMES, count, None)
    ensures HintedFit(b, 0, count, None)
  {
  }

  lemma RunInFree(b: Bits, s: nat, n: nat)
    requires FreeRun(b, s, n)
    ensures Frames(s, s + n) <= FreeSet(b) && |FreeSet(b) - Frames(s, s + n)| == |FreeSet(b)| - n
  {
    hide Frames, Used;
    assert FreeSet(b) == (FreeSet(b) - Frames(s, s + n)) + Frames(s, s + n);
  }

  lemma StillBelow(b: Bits, b': Bits, s: nat, e: nat, hint: nat)
    requires Filled(b, b', s, e, true) && hint <= MAX_FRAMES && forall f: nat :: f < hint ==> Used(b, f)
    ensures forall f: nat :: f < hint ==> Used(b', f)
  {
    hide Used;
  }

  lemma NotFree(b: Bits, f: nat, to: nat)
    requires f < to <= MAX_FRAMES && !Fits(b, 0, to, 1, f)
    ensures Used(b, f)
  {
  }

  lemma LowestTaken(b: Bits, b': Bits, s: nat)
    requires FirstFit(b, 0, MAX_FRAMES, 1, Some(s)) && Filled(b, b', s, s + 1, true)
    ensures forall f: nat :: f < s + 1 ==> f < MAX_FRAMES && Used(b', f)
  {
    hide Used;
    forall f: nat | f < s ensures Used(b, f) {
      NotFree(b, f, MAX_FRAMES);
    }
  }


  lemma BelowHint(b: Bits, b': Bits, s: nat, e: nat, hint: nat)
    requires Filled(b, b', s, e, false) && hint <= MAX_FRAMES && (s < e ==> hint <= s)
    requires forall f: nat :: f < hint ==> Used(b, f)
    ensures forall f: nat :: f < hint ==> Used(b', f)
  {
    hide Used;
  }
}
