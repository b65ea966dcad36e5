/**
 The disk as section 5.3 of the UEFI specification reads it: either copy of the table stands alone, found and
 checked from its bytes. Besides, what a new table, a new entry and the protective record hold, field by field.
 */
module GptStandard {
  import opened Common
  import opened Bytes
  import Crc32
  import opened Gpt

  // ---------------------------------------------------------------- one copy, from its bytes

  /** The checksum of a header leaves its own field out. */
  function ZeroedCrc(s: Sector): nat
    requires |s| == 512
  {
    Crc32.Crc(s[..16] + [0, 0, 0, 0] + s[20..92])
  }

  /** `n` sectors from `at` on. */
  function Sectors(d: seq<Sector>, at: nat, n: nat): seq<byte>
    requires at + n <= |d|
  {
    if n == 0 then [] else Sectors(d, at, n - 1) + d[at + n - 1]
  }

  /** A header at `at` that says where it is, where the other one and the entries are, and whose checksums hold. */
  ghost predicate CopyAt(d: seq<Sector>, at: nat, other: nat, base: nat, es: seq<Entry>)
    requires Whole(d)
  {
    && at < |d| && base + 32 <= |d| && |es| == 128
    && var h := ParseHeader(d[at]);
    && h.signature == 0x5452415020494645 && h.lba == at && h.alternate == other && h.entriesLba == base && h.entrySize == 128
    && h.crc == ZeroedCrc(d[at]) && h.entriesCrc == Crc32.Crc(Sectors(d, base, 32))
    && forall k :: 0 <= k < 128 ==> es[k] == EntryAt(d[base + k / 4], k % 4)
  }

  /** A header of this code's own making. */
  ghost predicate Native(t: Table) {
    t.header.lba == 1 && t.header.entriesLba == 2 && t.header.count == 128
  }

  lemma {:induction false} ApplyNative(t: Table, ops: seq<Op>)
    requires Good(t) && AllProper(ops) && Native(t)
    ensures Native(ApplyAll(t, ops)) && Same(ApplyAll(t, ops).header, t.header)
    decreases |ops|
  {
    hide Good, Partitioned, Slot, EntriesCrc, HeaderCrc, NewEntry, Empty;
    if ops != [] {
      ApplyNative(t, ops[..|ops| - 1]);
    }
  }

  /** Equal but for the two checksums. */
  ghost predicate Same(g: Header, h: Header) { g == h.(crc := g.crc, entriesCrc := g.entriesCrc) }

  // ---------------------------------------------------------------- the checksums

  lemma {:induction false} EncodeConcat(ws: seq<nat>, vs: seq<nat>, xs: seq<nat>, ys: seq<nat>)
    requires |ws| == |vs| && |xs| == |ys|
    ensures Encode(ws + xs, vs + ys) == Encode(ws, vs) + Encode(xs, ys)
    decreases |ws|
  {
    hide Le;
    if ws == [] {
      assert ws + xs == xs && vs + ys == ys;
    } else {
      assert (ws + xs)[1..] == ws[1..] + xs && (vs + ys)[1..] == vs[1..] + ys;
      EncodeConcat(ws[1..], vs[1..], xs, ys);
    }
  }

  /** The bytes before, of and behind the checksum. */
  lemma CrcPlace(h: Header)
    ensures Encode(HEADER_WIDTHS, HeaderFields(h)) ==
            Encode([8, 4, 4], [h.signature, h.revision, h.size]) + Le(h.crc, 4) + Encode(HEADER_WIDTHS[4..], HeaderFields(h)[4..])
  {
    hide Le, Encode;
    var ws, vs, v := HEADER_WIDTHS, HeaderFields(h), [h.signature, h.revision, h.size];
    assert ws == [8, 4, 4] + ws[3..] && vs == v + vs[3..];
    EncodeConcat([8, 4, 4], v, ws[3..], vs[3..]);
    assert Encode(ws[3..], vs[3..]) == Le(h.crc, 4) + Encode(ws[4..], vs[4..]) by { FieldFirst(h); }
  }

  lemma FieldFirst(h: Header)
    ensures Encode(HEADER_WIDTHS[3..], HeaderFields(h)[3..]) == Le(h.crc, 4) + Encode(HEADER_WIDTHS[4..], HeaderFields(h)[4..])
  {
    hide Le;
    var ws, vs := HEADER_WIDTHS[3..], HeaderFields(h)[3..];
    assert ws[1..] == HEADER_WIDTHS[4..] && vs[1..] == HeaderFields(h)[4..];
  }

  /** A header sector, cut around the checksum. */
  lemma CrcCut(h: Header, front: seq<byte>, back: seq<byte>)
    requires front == Encode([8, 4, 4], [h.signature, h.revision, h.size]) && back == Encode(HEADER_WIDTHS[4..], HeaderFields(h)[4..])
    ensures |front| == 16 && |back| == 72 && |Le(h.crc, 4)| == 4
    ensures HeaderSector(h) == front + Le(h.crc, 4) + back + Zeros(420)
  {
    hide Le, Encode, Width;
    CrcPlace(h);
    LeLength(h.crc, 4);
    EncodeWidth([8, 4, 4], [h.signature, h.revision, h.size]);
    assert Width([8, 4, 4]) == 16 by { FrontWidth(); }
    HeaderWidth();
    EncodeWidth(HEADER_WIDTHS, HeaderFields(h));
  }

  lemma FrontWidth()
    ensures Width([8, 4, 4]) == 16
  {
  }

  lemma Cut(front: seq<byte>, mid: seq<byte>, back: seq<byte>, rest: seq<byte>)
    requires |front| == 16 && |mid| == 4 && |back| == 72
    ensures var s := front + mid + back + rest; s[..16] == front && s[16..20] == mid && s[20..92] == back
  {
  }

  lemma CrcField(h: Header)
    ensures var z, s := HeaderSector(h.(crc := 0)), HeaderSector(h);
            && z[..16] == s[..16] && z[16..20] == [0, 0, 0, 0] && z[20..92] == s[20..92]
  {
    hide Le, Encode, HeaderSector;
    var front, back := Encode([8, 4, 4], [h.signature, h.revision, h.size]), Encode(HEADER_WIDTHS[4..], HeaderFields(h)[4..]);
    assert HeaderFields(h.(crc := 0))[4..] == HeaderFields(h)[4..];
    CrcCut(h, front, back);
    CrcCut(h.(crc := 0), front, back);
    FourZeros();
    Cut(front, Le(h.crc, 4), back, Zeros(420));
    Cut(front, [0, 0, 0, 0], back, Zeros(420));
  }

  lemma FourZeros()
    ensures Le(0, 4) == [0, 0, 0, 0]
  {
  }

  lemma HeaderChecks(h: Header)
    requires h.crc == HeaderCrc(h)
    ensures h.crc == ZeroedCrc(HeaderSector(h))
  {
    hide HeaderSector, Crc32.Crc;
    CrcField(h);
    var z, s := HeaderSector(h.(crc := 0)), HeaderSector(h);
    assert z[..92] == z[..16] + z[16..20] + z[20..92];
  }

  lemma {:induction false} EntriesJoined(d: seq<Sector>, at: nat, es: seq<Entry>, n: nat)
    requires EntriesOk(es) && n <= 32 && at + n <= |d|
    requires forall c :: 0 <= c < n ==> d[at + c] == EntrySector(es, c)
    ensures Sectors(d, at, n) == Joined(es, 0, 4 * n)
    decreases n
  {
    hide EntryBytes, EntryFits;
    if n > 0 {
      EntriesJoined(d, at, es, n - 1);
      assert d[at + (n - 1)] == EntrySector(es, n - 1);
      JoinedSplit(es, 4 * (n - 1), 4);
    }
  }

  lemma {:induction false} JoinedSplit(es: seq<Entry>, i: nat, n: nat)
    requires Named(es) && i + n <= |es|
    ensures Joined(es, 0, i + n) == Joined(es, 0, i) + Joined(es, i, n)
    decreases n
  {
    hide EntryBytes;
    if n > 0 { JoinedSplit(es, i, n - 1); }
  }

  // ---------------------------------------------------------------- both copies

  lemma OneCopy(d: seq<Sector>, at: nat, other: nat, base: nat, h: Header, es: seq<Entry>)
    requires Whole(d) && at < |d| && base + 32 <= |d| && EntriesOk(es) && HeaderFits(h)
    requires d[at] == HeaderSector(h) && forall c :: 0 <= c < 32 ==> d[base + c] == EntrySector(es, c)
    requires Checks(h, es) && h.signature == SIGNATURE && h.entrySize == 128
    requires h.lba == at && h.alternate == other && h.entriesLba == base
    ensures CopyAt(d, at, other, base, es)
  {
    hide HeaderSector, EntrySector, EntryFits, HeaderFits, ParseHeader, EntryAt, Sectors, Crc32.Crc, Joined, ZeroedCrc, HeaderCrc;
    HeaderRoundTrip(h);
    HeaderChecks(h);
    EntriesJoined(d, base, es, 32);
    forall k | 0 <= k < 128 ensures es[k] == EntryAt(d[base + k / 4], k % 4) {
      EntryAtPlace(es, k / 4, k % 4);
    }
  }

  lemma BackupFits(t: Table)
    requires Good(t)
    ensures HeaderFits(Backup(t))
  {
    hide HeaderSector, Crc32.Crc, EntryFits;
    Pow256Eight();
    assert Pow256(4) == 0x1_0000_0000;
    var b := t.header.(lba := Wrapped(t.total - 1), alternate := 1, entriesLba := Wrapped(t.total - 33));
    Crc32.CrcBound(HeaderSector(b.(crc := 0))[..92]);
    var vs, ws := HeaderFields(Backup(t)), HEADER_WIDTHS;
    forall k | 0 <= k < 14 ensures vs[k] < Pow256(ws[k]) {
      assert k != 3 && k != 5 && k != 6 && k != 10 ==> vs[k] == HeaderFields(t.header)[k];
    }
  }

  /** Both copies stand alone: whichever is read, it is found where the other says, its checksums hold, and it has
      the same entries. */
  lemma BothCopies(d: seq<Sector>, t: Table)
    requires Formatted(d, t) && Native(t)
    ensures CopyAt(d, 1, t.total - 1, 2, t.entries) && CopyAt(d, t.total - 1, 1, t.total - 33, t.entries)
  {
    hide HeaderSector, EntrySector, EntryFits, HeaderFits, Parse, Checks, CopyAt, HeaderCrc;
    BackupFits(t);
    OneCopy(d, 1, t.total - 1, 2, t.header, t.entries);
    OneCopy(d, t.total - 1, 1, t.total - 33, Backup(t), t.entries);
  }

  /** So they do after any run of additions and deletions on a new table. */
  lemma CopiesStand(d: seq<Sector>, total: nat, guid: nat, ops: seq<Op>)
    requires 35 <= total < U64 && guid < Pow256(16) && AllProper(ops) && Good(NewTable(total, guid))
    requires Formatted(d, ApplyAll(NewTable(total, guid), ops))
    ensures var es := ApplyAll(NewTable(total, guid), ops).entries;
            CopyAt(d, 1, total - 1, 2, es) && CopyAt(d, total - 1, 1, total - 33, es)
  {
    hide Good, Formatted, CopyAt, ApplyAll, HeaderCrc, EntriesCrc, Blank;
    ApplyNative(NewTable(total, guid), ops);
    assert Whole(d) by { FormattedWhole(d, ApplyAll(NewTable(total, guid), ops)); }
    BothCopies(d, ApplyAll(NewTable(total, guid), ops));
  }

  lemma FormattedWhole(d: seq<Sector>, t: Table)
    requires Formatted(d, t)
    ensures Whole(d)
  {
  }

  // ---------------------------------------------------------------- what new things hold

  /** A new table: every usable sector lies between the two copies, and nothing is in use. */
  lemma NewMeans(total: nat, guid: nat)
    requires 35 <= total < U64
    ensures var t := NewTable(total, guid);
            && t.total == total && |t.entries| == 128 && (forall k :: 0 <= k < 128 ==> ZeroEntry(t.entries[k]))
            && t.header.revision == 0x0001_0000 && t.header.size == 92 && t.header.guid == guid
            && t.header.count == 128 && t.header.entrySize == 128
            && t.header.firstUsable == 2 + 128 * 128 / 512 && t.header.lastUsable == (total - 1) - 128 * 128 / 512 - 1
  {
    hide HeaderCrc, EntriesCrc;
    RepeatIs(0, 36);
  }

  /** Every field is zero, and so is every byte. */
  ghost predicate ZeroEntry(e: Entry) {
    && e.kind == 0 && e.unique == 0 && e.first == 0 && e.last == 0 && e.attributes == 0
    && |e.name| == 36 && forall k :: 0 <= k < 36 ==> e.name[k] == 0
  }

  lemma {:induction false} ZerosEncode(ws: seq<nat>, vs: seq<nat>)
    requires |ws| == |vs| && forall k :: 0 <= k < |vs| ==> vs[k] == 0
    ensures forall i :: 0 <= i < |Encode(ws, vs)| ==> Encode(ws, vs)[i] == 0
    decreases |ws|
  {
    if ws != [] {
      LeZeros(ws[0]);
      ZerosEncode(ws[1..], vs[1..]);
    }
  }

  /** A deleted entry leaves nothing behind. */
  lemma DeletedIsZero()
    ensures ZeroEntry(Empty()) && EntryBytes(Empty()) == Zeros(128)
  {
    hide Encode, Width;
    RepeatIs(0, 36);
    EntryWidth();
    ZerosEncode(EntryWidths(), EntryFields(Empty()));
  }

  /** A new entry: the identifiers and the name as asked, cut so that a zero ends it, no attributes, `size` sectors. */
  lemma NewEntryMeans(t: Table, q: Request)
    requires q.size > 0
    ensures var e := NewEntry(t, q);
            && e.kind == q.kind && e.unique == q.unique && e.attributes == 0 && e.last - e.first + 1 == q.size
            && |e.name| == 36 && e.name[35] == 0
            && forall k :: 0 <= k < 35 ==> e.name[k] == if k < |q.chars| then q.chars[k] % 0x1_0000 else 0
  {
    hide NextLba;
  }

  /** In a table without overlap a request is granted exactly when an entry is free and the room behind the last
      partition is large enough; it takes the first free entry. */
  lemma GrantedIff(t: Table, size: nat)
    requires Good(t) && Partitioned(t)
    ensures Slot(t, size).Ok? <==>
            && (exists k :: 0 <= k < 128 && !Used(t.entries[k]))
            && size > 0 && 33 + size <= t.total - 34
            && forall k :: 0 <= k < 128 && Used(t.entries[k]) ==> t.entries[k].last + size <= t.total - 34
    ensures Slot(t, size) == Err(NoFreeSlot) <==> forall k :: 0 <= k < 128 ==> Used(t.entries[k])
    ensures Slot(t, size).Ok? ==> forall k :: 0 <= k < Slot(t, size).value ==> Used(t.entries[k])
  {
    hide EntryFits, Described, FirstUnused, NextLba, Empty;
    NextLbaPast(t.entries);
    FirstUnusedIs(t.entries, 0);
    if t.total < 68 { EmptyFits(); }
  }

  /** The protective record: one partition of type 0xEE from sector 1 to the end, or as far as 32 bits reach. */
  lemma MbrLayout(total: nat)
    ensures var s := Mbr(total);
            && s[510] == 0x55 && s[511] == 0xAA && (forall i :: 0 <= i < 446 || 462 <= i < 510 ==> s[i] == 0)
            && s[446] == 0 && s[447..450] == [0x00, 0x02, 0x00] && s[450] == 0xEE && s[451..454] == [0xFF, 0xFF, 0xFF]
            && Num(s[454..458]) == 1
            && (0 < total <= 0x1_0000_0000 ==> Num(s[458..462]) == total - 1)
            && (total > 0x1_0000_0000 ==> Num(s[458..462]) == 0xFFFF_FFFF)
  {
    hide Le, Num;
    var size := if total == 0 then 0 else if total - 1 < 0xFFFF_FFFF then total - 1 else 0xFFFF_FFFF;
    assert Pow256(4) == 0x1_0000_0000;
    LeRoundTrip(1, 4);
    LeRoundTrip(size, 4);
    var s := Mbr(total);
    assert s[454..458] == Le(1, 4) && s[458..462] == Le(size, 4);
  }
}
