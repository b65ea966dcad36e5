/**
 The partition table: a header and 128 entries kept twice on the disk, as
 section 5.3 of the UEFI specification lays them out.
 */
module Gpt {
  import opened Common
  import opened Bytes
  import Crc32

  type Sector = seq<byte>

  datatype Result<+T> = Ok(value: T) | Err(error: Error)

  datatype Error = NotGpt | InvalidFormat | ReadFailed | NoFreeSlot | NotEnoughSpace | InvalidIndex | DeviceFault

  datatype Header = Header(signature: nat, revision: nat, size: nat, crc: nat, lba: nat, alternate: nat,
                           firstUsable: nat, lastUsable: nat, guid: nat, entriesLba: nat, count: nat,
                           entrySize: nat, entriesCrc: nat)

  /** A partition entry; an identifier is the number its sixteen bytes make. */
  datatype Entry = Entry(kind: nat, unique: nat, first: nat, last: nat, attributes: nat, name: seq<nat>)

  datatype Table = Table(header: Header, entries: seq<Entry>, total: nat)

  const SIGNATURE: nat := 0x5452415020494645

  /** The sectors the drivers can address. */
  const LBA48: nat := 0x1_0000_0000_0000
  const HEADER_WIDTHS: seq<nat> := [8, 4, 4, 4, 4, 8, 8, 8, 8, 16, 8, 4, 4, 4]

  function Repeat(v: nat, n: nat): seq<nat> { if n == 0 then [] else [v] + Repeat(v, n - 1) }

  function EntryWidths(): seq<nat> { [16, 16, 8, 8, 8] + Repeat(2, 36) }

  function Empty(): Entry { Entry(0, 0, 0, 0, 0, Repeat(0, 36)) }

  predicate Used(e: Entry) { e.kind != 0 }

  // ---------------------------------------------------------------- bytes of headers and entries

  function HeaderFields(h: Header): seq<nat> {
    [h.signature, h.revision, h.size, h.crc, 0, h.lba, h.alternate, h.firstUsable, h.lastUsable, h.guid, h.entriesLba,
     h.count, h.entrySize, h.entriesCrc]
  }

  function HeaderOf(v: seq<nat>): Header
    requires |v| == 14
  {
    Header(v[0], v[1], v[2], v[3], v[5], v[6], v[7], v[8], v[9], v[10], v[11], v[12], v[13])
  }

  function EntryFields(e: Entry): seq<nat> { [e.kind, e.unique, e.first, e.last, e.attributes] + e.name }

  function EntryOf(v: seq<nat>): Entry
    requires |v| == 41
  {
    Entry(v[0], v[1], v[2], v[3], v[4], v[5..])
  }

  ghost predicate HeaderFits(h: Header) { Fit(HEADER_WIDTHS, HeaderFields(h)) }

  ghost predicate EntryFits(e: Entry) { Fit(EntryWidths(), EntryFields(e)) }

  function Zeros(n: nat): seq<byte> { seq(n, _ => 0) }

  lemma {:induction false} DecodeLength(ws: seq<nat>, b: seq<byte>)
    requires |b| >= Width(ws)
    ensures |Decode(ws, b)| == |ws|
    decreases |ws|
  {
    if ws != [] { DecodeLength(ws[1..], b[ws[0]..]); }
  }

  lemma {:induction false} WidthConcat(a: seq<nat>, b: seq<nat>)
    ensures Width(a + b) == Width(a) + Width(b)
    decreases |a|
  {
    if a == [] {
      assert a + b == b;
    } else {
      assert (a + b)[1..] == a[1..] + b;
      WidthConcat(a[1..], b);
    }
  }

  lemma {:induction false} RepeatIs(v: nat, n: nat)
    ensures |Repeat(v, n)| == n && (forall k :: 0 <= k < n ==> Repeat(v, n)[k] == v) && Width(Repeat(v, n)) == v * n
    decreases n
  {
    if n > 0 {
      RepeatIs(v, n - 1);
      assert Repeat(v, n)[1..] == Repeat(v, n - 1);
      assert v * n == v + v * (n - 1);
    }
  }

  lemma HeaderWidth()
    ensures Width(HEADER_WIDTHS) == 92
  {
    assert Width([8, 4, 4, 4]) == 20;
    assert Width([8, 8, 16, 8, 4, 4, 4]) == 52;
    assert HEADER_WIDTHS[7..] == [8, 8, 16, 8, 4, 4, 4];
    assert HEADER_WIDTHS[5..][2..] == HEADER_WIDTHS[7..];
  }

  lemma EntryWidth()
    ensures Width(EntryWidths()) == 128 && |EntryWidths()| == 41
  {
    RepeatIs(2, 36);
    WidthConcat([16, 16, 8, 8, 8], Repeat(2, 36));
    assert Width([8, 8, 8]) == 24;
  }

  function HeaderSector(h: Header): (s: Sector)
    ensures |s| == 512
  {
    HeaderWidth();
    EncodeWidth(HEADER_WIDTHS, HeaderFields(h));
    Encode(HEADER_WIDTHS, HeaderFields(h)) + Zeros(420)
  }

  function ParseHeader(s: Sector): Header
    requires |s| == 512
  {
    HeaderWidth();
    DecodeLength(HEADER_WIDTHS, s);
    HeaderOf(Decode(HEADER_WIDTHS, s))
  }

  function EntryBytes(e: Entry): (b: seq<byte>)
    requires |e.name| == 36
    ensures |b| == 128
  {
    EntryWidth();
    EncodeWidth(EntryWidths(), EntryFields(e));
    Encode(EntryWidths(), EntryFields(e))
  }

  function ParseEntry(b: seq<byte>): Entry
    requires |b| == 128
  {
    EntryWidth();
    DecodeLength(EntryWidths(), b);
    EntryOf(Decode(EntryWidths(), b))
  }

  /** A header survives its sector, every field of it. */
  lemma HeaderRoundTrip(h: Header)
    requires HeaderFits(h)
    ensures ParseHeader(HeaderSector(h)) == h
  {
    hide Encode, Decode, Width;
    RecordRoundTrip(HEADER_WIDTHS, HeaderFields(h), Zeros(420));
  }

  lemma EntryRoundTrip(e: Entry)
    requires EntryFits(e) && |e.name| == 36
    ensures ParseEntry(EntryBytes(e)) == e
  {
    hide Encode, Decode, Width, Fit;
    EntryWidth();
    RecordRoundTrip(EntryWidths(), EntryFields(e), []);
    assert EntryBytes(e) + [] == EntryBytes(e);
    assert EntryFields(e)[5..] == e.name;
  }

  // ---------------------------------------------------------------- the layout of the standard

  lemma HeaderField(s: Sector, k: nat, at: nat)
    requires |s| == 512 && k < 14 && Width(HEADER_WIDTHS[..k]) == at
    ensures Width(HEADER_WIDTHS) <= |s| && at + HEADER_WIDTHS[k] <= |s| && |Decode(HEADER_WIDTHS, s)| == 14
    ensures Decode(HEADER_WIDTHS, s)[k] == Num(s[at..at + HEADER_WIDTHS[k]])
  {
    hide Decode, Num, Width;
    HeaderWidth();
    DecodeAt(HEADER_WIDTHS, s, k);
  }

  lemma WidthNext(ws: seq<nat>, k: nat)
    requires k < |ws|
    ensures Width(ws[..k + 1]) == Width(ws[..k]) + ws[k]
  {
    assert ws[..k + 1] == ws[..k] + [ws[k]];
    WidthConcat(ws[..k], [ws[k]]);
  }

  lemma HeaderOffsets()
    ensures var w := HEADER_WIDTHS;
            && Width(w[..0]) == 0 && Width(w[..1]) == 8 && Width(w[..2]) == 12 && Width(w[..3]) == 16 && Width(w[..4]) == 20
            && Width(w[..5]) == 24 && Width(w[..6]) == 32 && Width(w[..7]) == 40 && Width(w[..8]) == 48 && Width(w[..9]) == 56
            && Width(w[..10]) == 72 && Width(w[..11]) == 80 && Width(w[..12]) == 84 && Width(w[..13]) == 88
  {
    assert HEADER_WIDTHS[..0] == [];
    assert Width([]) == 0;
    hide Width;
    WidthNext(HEADER_WIDTHS, 0);
    WidthNext(HEADER_WIDTHS, 1);
    WidthNext(HEADER_WIDTHS, 2);
    WidthNext(HEADER_WIDTHS, 3);
    WidthNext(HEADER_WIDTHS, 4);
    WidthNext(HEADER_WIDTHS, 5);
    WidthNext(HEADER_WIDTHS, 6);
    WidthNext(HEADER_WIDTHS, 7);
    WidthNext(HEADER_WIDTHS, 8);
    WidthNext(HEADER_WIDTHS, 9);
    WidthNext(HEADER_WIDTHS, 10);
    WidthNext(HEADER_WIDTHS, 11);
    WidthNext(HEADER_WIDTHS, 12);
  }

  /** Section 5.3.2 of the UEFI specification: every field of a header at its offset. */
  lemma HeaderLayout(s: Sector)
    requires |s| == 512
    ensures var h := ParseHeader(s);
            && h.signature == Num(s[0..8]) && h.revision == Num(s[8..12]) && h.size == Num(s[12..16]) && h.crc == Num(s[16..20])
            && h.lba == Num(s[24..32]) && h.alternate == Num(s[32..40])
            && h.firstUsable == Num(s[40..48]) && h.lastUsable == Num(s[48..56]) && h.guid == Num(s[56..72])
            && h.entriesLba == Num(s[72..80]) && h.count == Num(s[80..84]) && h.entrySize == Num(s[84..88])
            && h.entriesCrc == Num(s[88..92])
  {
    hide Decode, Num, Width;
    HeaderOffsets();
    HeaderField(s, 0, 0);
    HeaderField(s, 1, 8);
    HeaderField(s, 2, 12);
    HeaderField(s, 3, 16);
    HeaderField(s, 5, 24);
    HeaderField(s, 6, 32);
    HeaderField(s, 7, 40);
    HeaderField(s, 8, 48);
    HeaderField(s, 9, 56);
    HeaderField(s, 10, 72);
    HeaderField(s, 11, 80);
    HeaderField(s, 12, 84);
    HeaderField(s, 13, 88);
  }

  /** The reserved field and the rest of the sector are zero. */
  lemma HeaderRest(h: Header)
    requires HeaderFits(h)
    ensures Num(HeaderSector(h)[20..24]) == 0 && forall i :: 92 <= i < 512 ==> HeaderSector(h)[i] == 0
  {
    hide Encode, Decode, Num, Width;
    HeaderWidth();
    EncodeWidth(HEADER_WIDTHS, HeaderFields(h));
    RecordRoundTrip(HEADER_WIDTHS, HeaderFields(h), Zeros(420));
    HeaderOffsets();
    HeaderField(HeaderSector(h), 4, 20);
  }

  lemma EntryField(b: seq<byte>, k: nat, at: nat)
    requires |b| == 128 && k < 41 && |EntryWidths()| == 41 && Width(EntryWidths()[..k]) == at
    ensures Width(EntryWidths()) <= |b| && at + EntryWidths()[k] <= 128 && |Decode(EntryWidths(), b)| == 41
    ensures Decode(EntryWidths(), b)[k] == Num(b[at..at + EntryWidths()[k]])
  {
    hide Decode, Num, Width, EntryWidths;
    EntryWidth();
    DecodeAt(EntryWidths(), b, k);
  }

  lemma {:induction false} EntryOffsets(k: nat)
    requires k <= 36
    ensures |EntryWidths()| == 41 && Width(EntryWidths()[..5 + k]) == 56 + 2 * k
    ensures k < 36 ==> EntryWidths()[5 + k] == 2
    decreases k
  {
    var w := EntryWidths();
    EntryWidth();
    RepeatIs(2, 36);
    if k == 0 {
      assert w[..5] == [16, 16, 8, 8, 8];
      assert Width([8, 8, 8]) == 24;
    } else {
      EntryOffsets(k - 1);
      WidthNext(w, 4 + k);
    }
  }

  lemma EntryStarts()
    ensures var w := EntryWidths();
            && |w| == 41 && w[0] == 16 && w[1] == 16 && w[2] == 8 && w[3] == 8 && w[4] == 8
            && Width(w[..0]) == 0 && Width(w[..1]) == 16 && Width(w[..2]) == 32 && Width(w[..3]) == 40 && Width(w[..4]) == 48
  {
    var w := EntryWidths();
    EntryWidth();
    assert w[..0] == [];
    assert Width([]) == 0;
    hide Width;
    WidthNext(w, 0);
    WidthNext(w, 1);
    WidthNext(w, 2);
    WidthNext(w, 3);
  }

  /** Section 5.3.3: every field of an entry at its offset, the name as 36 two-byte characters. */
  lemma EntryLayout(b: seq<byte>)
    requires |b| == 128
    ensures var e := ParseEntry(b);
            && e.kind == Num(b[0..16]) && e.unique == Num(b[16..32]) && e.first == Num(b[32..40]) && e.last == Num(b[40..48])
            && e.attributes == Num(b[48..56]) && |e.name| == 36
            && forall i :: 0 <= i < 36 ==> e.name[i] == Num(b[56 + 2 * i..58 + 2 * i])
  {
    hide Decode, Num, Width, EntryWidths;
    EntryStarts();
    EntryField(b, 0, 0);
    EntryField(b, 1, 16);
    EntryField(b, 2, 32);
    EntryField(b, 3, 40);
    EntryOffsets(0);
    EntryField(b, 4, 48);
    forall i | 0 <= i < 36 ensures ParseEntry(b).name[i] == Num(b[56 + 2 * i..58 + 2 * i]) {
      EntryOffsets(i);
      EntryField(b, 5 + i, 56 + 2 * i);
    }
  }

  // ---------------------------------------------------------------- four entries to a sector

  ghost predicate Named(es: seq<Entry>) { forall k :: 0 <= k < |es| ==> |es[k].name| == 36 }

  function Joined(es: seq<Entry>, i: nat, n: nat): (b: seq<byte>)
    requires i + n <= |es| && forall k :: 0 <= k < |es| ==> |es[k].name| == 36
    ensures |b| == 128 * n
  {
    if n == 0 then [] else Joined(es, i, n - 1) + EntryBytes(es[i + n - 1])
  }

  lemma {:induction false} JoinedAt(es: seq<Entry>, i: nat, n: nat, j: nat)
    requires i + n <= |es| && Named(es) && j < n
    ensures Joined(es, i, n)[128 * j..128 * j + 128] == EntryBytes(es[i + j])
    decreases n
  {
    hide EntryBytes;
    if j < n - 1 {
      JoinedAt(es, i, n - 1, j);
      assert Joined(es, i, n)[128 * j..128 * j + 128] == Joined(es, i, n - 1)[128 * j..128 * j + 128];
    }
  }

  lemma {:induction false} JoinedSame(es: seq<Entry>, i: nat, j: nat, n: nat)
    requires i + n <= |es| && j + n <= |es| && Named(es)
    requires forall k :: 0 <= k < |es| ==> es[k] == Empty()
    ensures Joined(es, i, n) == Joined(es, j, n)
    decreases n
  {
    hide EntryBytes, Empty;
    if n > 0 { JoinedSame(es, i, j, n - 1); }
  }

  ghost predicate EntriesOk(es: seq<Entry>) { |es| == 128 && forall k :: 0 <= k < 128 ==> EntryFits(es[k]) && |es[k].name| == 36 }

  function EntrySector(es: seq<Entry>, c: nat): (s: Sector)
    requires |es| == 128 && (forall k :: 0 <= k < 128 ==> |es[k].name| == 36) && c < 32
    ensures |s| == 512
  {
    Joined(es, 4 * c, 4)
  }

  function EntryAt(s: Sector, j: nat): Entry
    requires |s| == 512 && j < 4
  {
    ParseEntry(s[128 * j..128 * j + 128])
  }

  lemma EntryAtPlace(es: seq<Entry>, c: nat, j: nat)
    requires EntriesOk(es) && c < 32 && j < 4
    ensures EntryAt(EntrySector(es, c), j) == es[4 * c + j]
  {
    hide EntryBytes, ParseEntry, EntryFits;
    JoinedAt(es, 4 * c, 4, j);
    EntryRoundTrip(es[4 * c + j]);
  }

  // ---------------------------------------------------------------- reading a disk

  ghost predicate Whole(d: seq<Sector>) { forall i :: 0 <= i < |d| ==> |d[i]| == 512 }

  ghost predicate Sized(d: seq<Sector>) { |d| >= 34 && Whole(d) }

  function EntryOn(d: seq<Sector>, k: nat): Entry
    requires |d| >= 34 && (forall i :: 0 <= i < |d| ==> |d[i]| == 512) && k < 128
  {
    EntryAt(d[2 + k / 4], k % 4)
  }

  ghost function EntriesOn(d: seq<Sector>): (es: seq<Entry>)
    requires Sized(d)
    ensures |es| == 128 && forall k :: 0 <= k < 128 ==> es[k] == EntryOn(d, k)
  {
    seq(128, k requires 0 <= k < 128 => EntryOn(d, k))
  }

  /** Reading past the end of the device is a fault, found when the reading gets there. */
  ghost function Parse(d: seq<Sector>): (r: Result<Table>)
    requires Whole(d)
    ensures r.Ok? ==> Sized(d)
  {
    if |d| < 2 then Err(DeviceFault)
    else
      var h := ParseHeader(d[1]);
      if h.signature != SIGNATURE then Err(NotGpt)
      else if h.entrySize != 128 || h.count > 128 then Err(InvalidFormat)
      else if |d| < 34 then Err(DeviceFault)
      else if h.alternate + 1 >= U64 then Err(InvalidFormat)
      else Ok(Table(h, EntriesOn(d), h.alternate + 1))
  }

  lemma FourOn(d: seq<Sector>, es: seq<Entry>, four: seq<Entry>, c: nat)
    requires Sized(d) && c < 32 && |es| == 4 * c && |four| == 4
    requires forall k :: 0 <= k < |es| ==> es[k] == EntryOn(d, k)
    requires forall j :: 0 <= j < 4 ==> four[j] == EntryAt(d[2 + c], j)
    ensures forall k :: 0 <= k < 4 * c + 4 ==> (es + four)[k] == EntryOn(d, k)
  {
    hide EntryAt;
    forall k | 4 * c <= k < 4 * c + 4 ensures (es + four)[k] == EntryOn(d, k) {
      assert k / 4 == c && k % 4 == k - 4 * c;
    }
  }

  /** Whatever a disk holds, what is read from it fits its fields. */
  lemma ParsedFits(d: seq<Sector>)
    requires Sized(d) && Parse(d).Ok?
    ensures var t := Parse(d).value; EntriesOk(t.entries) && Described(t) && 1 <= t.total < U64
  {
    hide ParseHeader, EntryAt, EntryFits, HeaderFits;
    HeaderParsedFits(d[1]);
    forall k | 0 <= k < 128 ensures EntryFits(EntriesOn(d)[k]) && |EntriesOn(d)[k].name| == 36 {
      EntryParsedFits(d[2 + k / 4], k % 4);
    }
  }

  lemma HeaderParsedFits(s: Sector)
    requires |s| == 512
    ensures HeaderFits(ParseHeader(s))
  {
    hide Decode, Width, Pow256;
    HeaderWidth();
    DecodeLength(HEADER_WIDTHS, s);
    DecodeFits(HEADER_WIDTHS, s);
    assert Pow256(4) > 0 by { Pow256Positive(4); }
    var v := Decode(HEADER_WIDTHS, s);
    assert HeaderFields(HeaderOf(v)) == v[4 := 0];
  }

  lemma EntryParsedFits(s: Sector, j: nat)
    requires |s| == 512 && j < 4
    ensures EntryFits(EntryAt(s, j)) && |EntryAt(s, j).name| == 36
  {
    hide Decode, Width, Pow256;
    var b := s[128 * j..128 * j + 128];
    EntryWidth();
    DecodeLength(EntryWidths(), b);
    DecodeFits(EntryWidths(), b);
    var v := Decode(EntryWidths(), b);
    assert EntryFields(EntryOf(v)) == v;
  }

  // ---------------------------------------------------------------- the table as it is written

  function HeaderCrc(h: Header): nat { Crc32.Crc(HeaderSector(h.(crc := 0))[..92]) }

  function EntriesCrc(es: seq<Entry>): nat
    requires |es| == 128 && forall k :: 0 <= k < 128 ==> |es[k].name| == 36
  {
    Crc32.Crc(Joined(es, 0, 128))
  }

  /** Both checksums of a header speak of what they should. */
  ghost predicate Checks(h: Header, es: seq<Entry>)
    requires EntriesOk(es)
  {
    h.crc == HeaderCrc(h) && h.entriesCrc == EntriesCrc(es)
  }

  function Sign(h: Header): Header { h.(crc := HeaderCrc(h)) }

  function SealHeader(h: Header, es: seq<Entry>): Header
    requires |es| == 128 && forall k :: 0 <= k < 128 ==> |es[k].name| == 36
  {
    Sign(h.(entriesCrc := EntriesCrc(es)))
  }

  /** Sector numbers are 64 bits wide. */
  function Wrapped(n: int): (r: nat)
    ensures 0 <= n < U64 ==> r == n
    ensures n < 0 <= n + U64 ==> r == n + U64
  {
    n % 0x1_0000_0000_0000_0000
  }

  function Backup(t: Table): Header {
    Sign(t.header.(lba := Wrapped(t.total - 1), alternate := 1, entriesLba := Wrapped(t.total - 33)))
  }

  lemma SealChecks(t: Table)
    requires EntriesOk(t.entries)
    ensures Checks(SealHeader(t.header, t.entries), t.entries)
    ensures Checks(Backup(t.(header := SealHeader(t.header, t.entries))), t.entries)
  {
    hide HeaderSector, EntriesCrc, Crc32.Crc;
  }

  /** What a sector holds once the table is written: later writes win. */
  ghost function Placed(t: Table, was: Sector, lba: nat): Sector
    requires EntriesOk(t.entries) && t.total >= 34
  {
    if t.total - 33 <= lba < t.total - 1 then EntrySector(t.entries, lba - (t.total - 33))
    else if lba == t.total - 1 then HeaderSector(Backup(t))
    else if 2 <= lba < 34 then EntrySector(t.entries, lba - 2)
    else if lba == 1 then HeaderSector(t.header)
    else was
  }

  ghost predicate Laid(d0: seq<Sector>, d: seq<Sector>, t: Table) {
    && EntriesOk(t.entries) && 34 <= t.total <= |d|
    && |d0| == |d| && forall i :: 0 <= i < |d| ==> d[i] == Placed(t, d0[i], i)
  }

  // ---------------------------------------------------------------- good tables

  ghost predicate Inside(t: Table, e: Entry) { 34 <= e.first <= e.last <= t.total - 34 }

  ghost predicate Apart(a: Entry, b: Entry) { a.last < b.first || b.last < a.first }

  ghost predicate Partitioned(t: Table) {
    && (forall k :: 0 <= k < |t.entries| && Used(t.entries[k]) ==> Inside(t, t.entries[k]))
    && forall j, k :: 0 <= j < k < |t.entries| && Used(t.entries[j]) && Used(t.entries[k]) ==> Apart(t.entries[j], t.entries[k])
  }

  ghost predicate Described(t: Table) {
    && HeaderFits(t.header) && t.header.signature == SIGNATURE && t.header.count <= 128 && t.header.entrySize == 128
    && t.header.alternate == t.total - 1
  }

  /** A disk too small for a partition has a blank table, so its overlapping copies agree. */
  ghost predicate BlankWhenSmall(t: Table) { t.total < 68 ==> forall k :: 0 <= k < |t.entries| ==> t.entries[k] == Empty() }

  /** A table that survives being written and read, whoever made it. */
  ghost predicate Good(t: Table) {
    35 <= t.total < U64 && EntriesOk(t.entries) && Described(t) && BlankWhenSmall(t)
  }

  lemma SectorReads(d0: seq<Sector>, d: seq<Sector>, t: Table, c: nat)
    requires Laid(d0, d, t) && Good(t) && c < 32
    ensures d[2 + c] == EntrySector(t.entries, c)
  {
    hide EntryFits, Described;
    if t.total < 68 && t.total - 33 <= 2 + c < t.total - 1 {
      JoinedSame(t.entries, 4 * (2 + c - (t.total - 33)), 4 * c, 4);
    }
  }

  /** What was written reads back. */
  lemma ReadsBack(d0: seq<Sector>, d: seq<Sector>, t: Table)
    requires Laid(d0, d, t) && Good(t) && Sized(d)
    ensures Parse(d) == Ok(t)
  {
    hide Placed, EntryFits, HeaderFits, BlankWhenSmall, EntrySector, EntryAt, ParseHeader, HeaderSector;
    FirstReads(d0, d, t);
    HeaderRoundTrip(t.header);
    forall k | 0 <= k < 128 ensures EntriesOn(d)[k] == t.entries[k] {
      SectorReads(d0, d, t, k / 4);
      EntryAtPlace(t.entries, k / 4, k % 4);
    }
    assert EntriesOn(d) == t.entries;
  }

  lemma FirstReads(d0: seq<Sector>, d: seq<Sector>, t: Table)
    requires Laid(d0, d, t) && t.total >= 35
    ensures d[1] == HeaderSector(t.header)
  {
  }

  lemma PrimaryReads(d0: seq<Sector>, d: seq<Sector>, t: Table)
    requires Laid(d0, d, t) && Good(t)
    ensures forall c: nat :: c < 32 ==> d[2 + c] == EntrySector(t.entries, c)
  {
    hide EntrySector, Placed, EntryFits, Described, BlankWhenSmall;
    forall c: nat | c < 32 ensures d[2 + c] == EntrySector(t.entries, c) { SectorReads(d0, d, t, c); }
  }

  // ---------------------------------------------------------------- the operations on the table

  function FirstUnused(es: seq<Entry>, i: nat): nat
    requires i <= |es|
    decreases |es| - i
  {
    if i == |es| || !Used(es[i]) then i else FirstUnused(es, i + 1)
  }

  function Past(m: nat, e: Entry): nat { if Used(e) && e.last >= m then Wrapped(e.last + 1) else m }

  function NextLba(es: seq<Entry>): nat { if es == [] then 34 else Past(NextLba(es[..|es| - 1]), es[|es| - 1]) }

  /** The first sector past every partition in use. */
  lemma {:induction false} NextLbaPast(es: seq<Entry>)
    requires forall k :: 0 <= k < |es| && Used(es[k]) ==> es[k].last + 1 < U64
    ensures NextLba(es) >= 34 && forall k :: 0 <= k < |es| && Used(es[k]) ==> es[k].last < NextLba(es)
    ensures NextLba(es) == 34 || exists k :: 0 <= k < |es| && Used(es[k]) && NextLba(es) == es[k].last + 1
    decreases |es|
  {
    if es != [] {
      var front, e := es[..|es| - 1], es[|es| - 1];
      NextLbaPast(front);
      assert forall k :: 0 <= k < |front| ==> es[k] == front[k];
    }
  }

  const LAST_SECTOR: nat := 0xFFFF_FFFF_FFFF_FFFF

  ghost predicate EndsThere(es: seq<Entry>, k: int)
    requires 0 <= k < |es|
  {
    Used(es[k]) && es[k].last == LAST_SECTOR
  }

  /** No partition in use ends at the last sector a 64-bit number can name. */
  ghost predicate NoneAtEnd(es: seq<Entry>) { forall k :: 0 <= k < |es| ==> !EndsThere(es, k) }

  /** Behind the last such partition another one lifts the search past the table again. */
  ghost predicate Recovers(es: seq<Entry>, j: int)
    requires 0 <= j < |es|
  {
    Used(es[j]) && 33 <= es[j].last < LAST_SECTOR && forall k :: j < k < |es| ==> !EndsThere(es, k)
  }

  ghost predicate Small(es: seq<Entry>) { forall k :: 0 <= k < |es| && Used(es[k]) ==> es[k].last < U64 }

  /** For any table: the next free sector lies past the table exactly when nothing wrapped, or something recovered. */
  lemma {:induction false} NextLbaIff(es: seq<Entry>)
    requires Small(es)
    ensures NextLba(es) < U64
    ensures NextLba(es) >= 34 <==> NoneAtEnd(es) || exists j :: 0 <= j < |es| && Recovers(es, j)
    decreases |es|
  {
    if es != [] {
      var n, front := |es| - 1, es[..|es| - 1];
      NextLbaIff(front);
      SnocParts(es);
      var m := NextLba(front);
      assert NextLba(es) == Past(m, es[n]);
      assert Recovers(es, n) <==> Used(es[n]) && 33 <= es[n].last < LAST_SECTOR;
    }
  }

  /** What the last entry adds to the two conditions. */
  lemma SnocParts(es: seq<Entry>)
    requires es != []
    ensures var n, front := |es| - 1, es[..|es| - 1];
            && (NoneAtEnd(es) <==> NoneAtEnd(front) && !EndsThere(es, n))
            && ((exists j :: 0 <= j < |es| && Recovers(es, j)) <==>
                  Recovers(es, n) || (!EndsThere(es, n) && exists j :: 0 <= j < |front| && Recovers(front, j)))
  {
    var n, front := |es| - 1, es[..|es| - 1];
    assert forall k :: 0 <= k < n ==> es[k] == front[k] && (EndsThere(es, k) <==> EndsThere(front, k));
    forall j | 0 <= j < n ensures Recovers(es, j) <==> Recovers(front, j) && !EndsThere(es, n) {
      if Recovers(es, j) {
        forall k | j < k < |front| ensures !EndsThere(front, k) { assert !EndsThere(es, k); }
        assert !EndsThere(es, n);
      }
    }
    if j :| 0 <= j < |front| && Recovers(front, j) && !EndsThere(es, n) { assert Recovers(es, j); }
    if j :| 0 <= j < |es| && Recovers(es, j) { if j < n { assert Recovers(front, j); } }
  }

  lemma {:induction false} FirstUnusedIs(es: seq<Entry>, i: nat)
    requires i <= |es|
    ensures i <= FirstUnused(es, i) <= |es| && forall k :: i <= k < FirstUnused(es, i) ==> Used(es[k])
    ensures FirstUnused(es, i) < |es| ==> !Used(es[FirstUnused(es, i)])
    decreases |es| - i
  {
    if i < |es| && Used(es[i]) { FirstUnusedIs(es, i + 1); }
  }

  function NameOf(chars: seq<nat>): (n: seq<nat>)
    ensures |n| == 36 && forall k :: 0 <= k < 36 ==> n[k] < 65536
  {
    seq(36, k requires 0 <= k < 36 => if k < 35 && k < |chars| then chars[k] % 65536 else 0)
  }

  /** The identifiers a caller supplies are sixteen bytes each. */
  datatype Request = Request(kind: nat, unique: nat, size: nat, chars: seq<nat>)

  ghost predicate Proper(q: Request) { q.kind < Pow256(16) && q.unique < Pow256(16) && q.size < U64 }

  /** Where a request is placed, or why it is refused. */
  function Slot(t: Table, size: nat): (r: Result<nat>)
    ensures r.Ok? ==> r.value < |t.entries| && !Used(t.entries[r.value])
  {
    FirstUnusedIs(t.entries, 0);
    if FirstUnused(t.entries, 0) == |t.entries| then Err(NoFreeSlot)
    else if size == 0 || NextLba(t.entries) + size >= U64 || NextLba(t.entries) + size - 1 > Wrapped(t.total - 34)
    then Err(NotEnoughSpace)
    else Ok(FirstUnused(t.entries, 0))
  }

  function NewEntry(t: Table, q: Request): Entry
    requires q.size > 0
  {
    Entry(q.kind, q.unique, NextLba(t.entries), NextLba(t.entries) + q.size - 1, 0, NameOf(q.chars))
  }

  function WithEntries(t: Table, es: seq<Entry>): Table
    requires |es| == 128 && forall k :: 0 <= k < 128 ==> |es[k].name| == 36
  {
    t.(entries := es, header := SealHeader(t.header, es))
  }

  lemma FieldsFit(e: Entry)
    requires |e.name| == 36 && forall k :: 0 <= k < 36 ==> e.name[k] < 65536
    requires e.kind < Pow256(16) && e.unique < Pow256(16) && e.first < U64 && e.last < U64 && e.attributes < U64
    ensures EntryFits(e)
  {
    hide Pow256, Repeat, Width;
    EntryWidth();
    RepeatIs(2, 36);
    var ws, vs := EntryWidths(), EntryFields(e);
    forall k | 0 <= k < 41 ensures vs[k] < Pow256(ws[k]) {
      NameFits(e, k);
      IdsFit(e, k);
    }
  }

  lemma IdsFit(e: Entry, k: nat)
    requires |e.name| == 36 && |Repeat(2, 36)| == 36 && k < 41
    requires e.kind < Pow256(16) && e.unique < Pow256(16) && e.first < U64 && e.last < U64 && e.attributes < U64
    ensures k < 5 ==> EntryFields(e)[k] < Pow256(EntryWidths()[k])
  {
    hide Pow256, Repeat;
    Pow256Eight();
    var ws, vs := EntryWidths(), EntryFields(e);
    assert ws[0] == 16 && ws[1] == 16 && ws[2] == 8 && ws[3] == 8 && ws[4] == 8;
    assert vs[0] == e.kind && vs[1] == e.unique && vs[2] == e.first && vs[3] == e.last && vs[4] == e.attributes;
  }

  lemma NameFits(e: Entry, k: nat)
    requires |e.name| == 36 && |Repeat(2, 36)| == 36 && k < 41 && (forall j :: 0 <= j < 36 ==> e.name[j] < 65536)
    ensures k >= 5 ==> EntryFields(e)[k] < Pow256(EntryWidths()[k])
  {
    RepeatIs(2, 36);
    assert Pow256(2) == 65536;
    assert k >= 5 ==> EntryWidths()[k] == Repeat(2, 36)[k - 5] && EntryFields(e)[k] == e.name[k - 5];
  }

  lemma EmptyFits()
    ensures EntryFits(Empty()) && |Empty().name| == 36 && !Used(Empty())
  {
    hide EntryFits;
    RepeatIs(0, 36);
    Pow256Positive(16);
    FieldsFit(Empty());
  }

  lemma {:induction false} Pow256Positive(n: nat)
    ensures Pow256(n) > 0
    decreases n
  {
    if n > 0 { Pow256Positive(n - 1); }
  }

  lemma SealFits(h: Header, es: seq<Entry>)
    requires HeaderFits(h) && EntriesOk(es)
    ensures HeaderFits(SealHeader(h, es))
  {
    hide HeaderSector, Joined, Crc32.Crc;
    var g := h.(entriesCrc := EntriesCrc(es));
    Crc32.CrcBound(Joined(es, 0, 128));
    Crc32.CrcBound(HeaderSector(g.(crc := 0))[..92]);
    assert Pow256(4) == 0x1_0000_0000;
    var vs, ws := HeaderFields(SealHeader(h, es)), HEADER_WIDTHS;
    forall k | 0 <= k < 14 ensures vs[k] < Pow256(ws[k]) {
      assert k != 3 && k != 13 ==> vs[k] == HeaderFields(h)[k];
    }
  }

  /** Rewriting entries keeps the rest of a good table good. */
  lemma RewriteKeeps(t: Table, es: seq<Entry>)
    requires Good(t) && EntriesOk(es) && BlankWhenSmall(t.(entries := es))
    ensures Good(WithEntries(t, es))
  {
    hide HeaderFits, EntryFits, HeaderCrc, EntriesCrc;
    SealFits(t.header, es);
  }

  /** A partition added lies past every other one, inside the usable range. */
  lemma AddParts(t: Table, q: Request, i: nat)
    requires Good(t) && Partitioned(t) && Slot(t, q.size) == Ok(i)
    ensures Partitioned(t.(entries := t.entries[i := NewEntry(t, q)]))
    ensures t.total >= 68 && q.size > 0 && Inside(t, NewEntry(t, q))
  {
    hide EntriesOk, Described, BlankWhenSmall, FirstUnused, NameOf;
    NextLbaPast(t.entries);
  }

  /** Only on a disk with room for one is a partition added. */
  lemma AddNeedsRoom(t: Table, q: Request, i: nat)
    requires Good(t) && Slot(t, q.size) == Ok(i)
    ensures t.total >= 68 && q.size > 0
  {
    hide EntriesOk, Described, FirstUnused, NextLba, Empty;
    if t.total < 68 {
      EmptyFits();
      NextLbaPast(t.entries);
    }
  }

  /** Past the table, and clear of every partition in use. */
  ghost predicate WellPlaced(t: Table, e: Entry) {
    e.first >= 34 && forall k :: 0 <= k < |t.entries| && Used(t.entries[k]) ==> Apart(t.entries[k], e)
  }

  /** A partition in use that reaches over the sector chosen starts behind the new one. */
  ghost predicate OthersBehind(t: Table, start: nat, end: nat) {
    forall k :: 0 <= k < |t.entries| && Used(t.entries[k]) && t.entries[k].last >= start ==> end < t.entries[k].first
  }

  /**
   For any readable table, whoever made it: a partition is added past the table and clear of the others
   exactly when none of them ends at the last 64-bit sector, or one behind it lifts the search again and
   those it forgot lie further on.
   */
  lemma AddedIff(t: Table, q: Request, i: nat)
    requires EntriesOk(t.entries) && Slot(t, q.size) == Ok(i)
    ensures WellPlaced(t, NewEntry(t, q)) <==>
            NoneAtEnd(t.entries)
            || ((exists j :: 0 <= j < |t.entries| && Recovers(t.entries, j))
                && OthersBehind(t, NextLba(t.entries), NextLba(t.entries) + q.size - 1))
  {
    hide FirstUnused, NextLba, NameOf, EntryFits, Recovers;
    var es, start := t.entries, NextLba(t.entries);
    SmallEntries(es);
    NextLbaIff(es);
    if NoneAtEnd(es) {
      forall k | 0 <= k < |es| && Used(es[k]) ensures es[k].last + 1 < U64 { assert !EndsThere(es, k); }
      NextLbaPast(es);
    }
    assert WellPlaced(t, NewEntry(t, q)) <==> start >= 34 && OthersBehind(t, start, start + q.size - 1);
  }

  lemma SmallEntries(es: seq<Entry>)
    requires EntriesOk(es)
    ensures Small(es)
  {
    hide EntryFits;
    forall k | 0 <= k < |es| ensures es[k].last < U64 { LastFits(es[k]); }
  }

  lemma LastFits(e: Entry)
    requires EntryFits(e) && |e.name| == 36
    ensures e.last < U64
  {
    hide Pow256, Repeat;
    Pow256Eight();
    EntryWidth();
    assert EntryFields(e)[3] == e.last && EntryWidths()[3] == 8;
  }

  /** One entry that reaches to the end of the number space, and the next partition lands on the table itself. */
  lemma PlacedOverTable(t: Table, q: Request)
    requires |t.entries| == 128 && Used(t.entries[0]) && t.entries[0].last == LAST_SECTOR
    requires forall k :: 0 < k < 128 ==> !Used(t.entries[k])
    ensures NextLba(t.entries) == 0
    ensures 0 < q.size <= Wrapped(t.total - 34) && q.size < U64 ==> Slot(t, q.size) == Ok(1) && NewEntry(t, q).first == 0
  {
    UnusedAfter(t.entries, 128);
    FirstUnusedIs(t.entries, 0);
    assert t.entries[..128] == t.entries;
  }

  lemma {:induction false} UnusedAfter(es: seq<Entry>, n: nat)
    requires 1 <= n <= |es| && Used(es[0]) && es[0].last == LAST_SECTOR && forall k :: 0 < k < n ==> !Used(es[k])
    ensures NextLba(es[..n]) == 0
    decreases n
  {
    if n > 1 {
      UnusedAfter(es, n - 1);
      assert es[..n][..n - 1] == es[..n - 1];
    } else {
      assert es[..1][..0] == [];
    }
  }

  lemma NewEntryFits(t: Table, q: Request, i: nat)
    requires EntriesOk(t.entries) && Proper(q) && Slot(t, q.size) == Ok(i)
    ensures EntriesOk(t.entries[i := NewEntry(t, q)])
  {
    hide FirstUnused, EntryFits, NextLba;
    FieldsFit(NewEntry(t, q));
  }

  lemma AddKeeps(t: Table, q: Request, i: nat)
    requires Good(t) && Proper(q) && Slot(t, q.size) == Ok(i)
    ensures EntriesOk(t.entries[i := NewEntry(t, q)]) && Good(WithEntries(t, t.entries[i := NewEntry(t, q)]))
    ensures Partitioned(t) ==> Partitioned(WithEntries(t, t.entries[i := NewEntry(t, q)]))
  {
    hide EntryFits, HeaderCrc, EntriesCrc, Described, Slot, NextLba;
    AddNeedsRoom(t, q, i);
    NewEntryFits(t, q, i);
    RewriteKeeps(t, t.entries[i := NewEntry(t, q)]);
    if Partitioned(t) { AddParts(t, q, i); }
  }

  lemma DeleteKeeps(t: Table, i: nat)
    requires Good(t) && i < 128
    ensures EntriesOk(t.entries[i := Empty()]) && Good(WithEntries(t, t.entries[i := Empty()]))
    ensures Partitioned(t) ==> Partitioned(WithEntries(t, t.entries[i := Empty()]))
  {
    hide HeaderFits, EntryFits, HeaderCrc, EntriesCrc, Described, Empty;
    EmptyFits();
    RewriteKeeps(t, t.entries[i := Empty()]);
  }

  // ---------------------------------------------------------------- a new table

  function NewHeader(total: nat, guid: nat): Header {
    Header(SIGNATURE, 0x1_0000, 92, 0, 1, Wrapped(total - 1), 34, Wrapped(total - 34), guid, 2, 128, 128, 0)
  }

  function Blank(): seq<Entry> { seq(128, _ => Empty()) }

  function NewTable(total: nat, guid: nat): Table {
    RepeatIs(0, 36);
    Table(SealHeader(NewHeader(total, guid), Blank()), Blank(), total)
  }

  lemma NewHeaderFits(total: nat, guid: nat)
    requires total < U64 && guid < Pow256(16)
    ensures HeaderFits(NewHeader(total, guid))
  {
    Pow256Eight();
    assert Pow256(4) == 0x1_0000_0000;
  }

  lemma NewIsGood(total: nat, guid: nat)
    requires total < U64 && guid < Pow256(16)
    ensures EntriesOk(Blank()) && (total >= 35 ==> Good(NewTable(total, guid)) && Partitioned(NewTable(total, guid)))
  {
    hide HeaderFits, EntryFits, HeaderCrc, EntriesCrc, Empty;
    EmptyFits();
    NewHeaderFits(total, guid);
    SealFits(NewHeader(total, guid), Blank());
  }

  /** On 33 or 34 sectors the backup entries cover the primary header, and nothing reads back. */
  lemma TooSmall(d: seq<Sector>, c: nat)
    requires Sized(d) && EntriesOk(Blank()) && c < 32 && d[1] == EntrySector(Blank(), c)
    ensures Parse(d) == Err(NotGpt)
  {
    hide EntryFits, HeaderSector, Empty;
    JoinedSame(Blank(), 4 * c, 0, 4);
    BlankBytes(Blank());
  }

  lemma SignatureIs(s: Sector)
    requires |s| == 512
    ensures ParseHeader(s).signature == Num(s[..8])
  {
    hide Num;
    HeaderWidth();
    DecodeLength(HEADER_WIDTHS[1..], s[8..]);
  }

  lemma EntryStart(e: Entry)
    requires |e.name| == 36
    ensures |Le(e.kind, 16)| == 16 && EntryBytes(e)[..16] == Le(e.kind, 16)
  {
    hide Le;
    LeLength(e.kind, 16);
    EntryWidth();
  }

  lemma {:induction false} NumZeros(b: seq<byte>)
    requires forall k :: 0 <= k < |b| ==> b[k] == 0
    ensures Num(b) == 0
    decreases |b|
  {
    if b != [] { NumZeros(b[1..]); }
  }

  lemma {:induction false} LeZeros(n: nat)
    ensures |Le(0, n)| == n && forall k :: 0 <= k < n ==> Le(0, n)[k] == 0
    decreases n
  {
    if n > 0 { LeZeros(n - 1); }
  }

  lemma BlankBytes(es: seq<Entry>)
    requires EntriesOk(es) && es[0] == Empty()
    ensures ParseHeader(EntrySector(es, 0)).signature == 0
  {
    hide EntryFits, ParseHeader, EntryBytes, Joined, Num, Le;
    var s := EntrySector(es, 0);
    JoinedAt(es, 0, 4, 0);
    EntryStart(es[0]);
    LeZeros(16);
    assert forall k :: 0 <= k < 8 ==> s[k] == s[0..128][k] == s[0..128][..16][k];
    NumZeros(s[..8]);
    SignatureIs(s);
  }

  // ---------------------------------------------------------------- both copies on the disk

  ghost predicate Mirrored(d: seq<Sector>, t: Table)
    requires EntriesOk(t.entries) && 34 <= t.total <= |d|
  {
    && Checks(t.header, t.entries) && Checks(Backup(t), t.entries)
    && d[1] == HeaderSector(t.header) && d[t.total - 1] == HeaderSector(Backup(t))
    && forall c: nat :: c < 32 ==> d[2 + c] == EntrySector(t.entries, c) && d[t.total - 33 + c] == EntrySector(t.entries, c)
  }

  ghost predicate Formatted(d: seq<Sector>, t: Table) {
    Sized(d) && Good(t) && t.total <= |d| && Parse(d) == Ok(t) && Mirrored(d, t)
  }

  /** The sectors that hold neither copy. */
  predicate Outside(total: nat, lba: nat) { lba == 0 || (34 <= lba && lba + 33 < total) || total <= lba }

  lemma LaidIsFormatted(d0: seq<Sector>, d: seq<Sector>, t: Table)
    requires Laid(d0, d, t) && Sized(d) && Good(t)
    requires Checks(t.header, t.entries) && Checks(Backup(t), t.entries)
    ensures Formatted(d, t)
    ensures forall i :: 0 <= i < |d| && Outside(t.total, i) ==> d[i] == d0[i]
  {
    hide Good, EntriesOk, Parse, EntrySector, HeaderSector, Checks, Backup;
    assert t.total >= 35 && EntriesOk(t.entries) by { GoodBasics(t); }
    ReadsBack(d0, d, t);
    FirstReads(d0, d, t);
    PrimaryReads(d0, d, t);
  }

  lemma GoodBasics(t: Table)
    requires Good(t)
    ensures t.total >= 35 && EntriesOk(t.entries)
  {
  }

  // ---------------------------------------------------------------- the disk

  function Mbr(total: nat): (s: Sector)
    ensures |s| == 512
  {
    var size := if total == 0 then 0 else if total - 1 < 0xFFFF_FFFF then total - 1 else 0xFFFF_FFFF;
    LeLength(1, 4);
    LeLength(size, 4);
    Zeros(446) + [0, 0, 2, 0, 0xEE, 0xFF, 0xFF, 0xFF] + Le(1, 4) + Le(size, 4) + Zeros(48) + [0x55, 0xAA]
  }

  /** What was written for a new table, read again. */
  lemma NewReads(before: seq<Sector>, d: seq<Sector>, total: nat, guid: nat)
    requires Whole(d) && Reaches(d, total) && total < U64 && guid < Pow256(16) && EntriesOk(Blank())
    requires total >= 34 ==> Laid(before, d, WithEntries(Table(NewHeader(total, guid), Blank(), total), Blank()))
    requires total == 33 ==> d[1] == EntrySector(Blank(), 1)
    ensures total >= 35 ==> Formatted(d, NewTable(total, guid)) && Partitioned(NewTable(total, guid))
    ensures total >= 34 ==> |d| == |before| && d[0] == before[0]
    ensures total < 35 ==> Parse(d) == Err(NotGpt)
  {
    hide EntriesOk, Checks, Parse, Formatted, Good, Partitioned, HeaderSector, EntrySector, Backup, HeaderCrc, EntriesCrc;
    NewIsGood(total, guid);
    var t := Table(NewHeader(total, guid), Blank(), total);
    SealChecks(t);
    if total >= 35 {
      LaidIsFormatted(before, d, NewTable(total, guid));
    } else {
      TooSmall(d, 34 - total);
    }
  }

  datatype Op = Add(q: Request) | Delete(i: nat)

  /** What an operation makes of a table. */
  ghost function Apply(t: Table, op: Op): (u: Table)
    requires Good(t) && (op.Add? ==> Proper(op.q))
    ensures Good(u) && u.total == t.total && (Partitioned(t) ==> Partitioned(u))
  {
    hide Partitioned;
    match op
    case Add(q) =>
      if Slot(t, q.size).Err? then t
      else
        AddKeeps(t, q, Slot(t, q.size).value);
        WithEntries(t, t.entries[Slot(t, q.size).value := NewEntry(t, q)])
    case Delete(i) =>
      if i >= 128 || !Used(t.entries[i]) then t
      else
        DeleteKeeps(t, i);
        WithEntries(t, t.entries[i := Empty()])
  }

  ghost predicate AllProper(ops: seq<Op>) { forall k :: 0 <= k < |ops| && ops[k].Add? ==> Proper(ops[k].q) }

  ghost function ApplyAll(t: Table, ops: seq<Op>): (u: Table)
    requires Good(t) && AllProper(ops)
    ensures Good(u) && u.total == t.total && (Partitioned(t) ==> Partitioned(u))
  {
    hide Partitioned;
    if ops == [] then t else Apply(ApplyAll(t, ops[..|ops| - 1]), ops[|ops| - 1])
  }

  class Disk {
    var sectors: seq<Sector>

    constructor (content: seq<Sector>)
      requires Sized(content)
      ensures sectors == content
    {
      sectors := content;
    }

    static method FourEntries(s: Sector) returns (es: seq<Entry>)
      requires |s| == 512
      ensures |es| == 4 && forall j :: 0 <= j < 4 ==> es[j] == EntryAt(s, j)
    {
      hide EntryAt;
      es := [];
      for j := 0 to 4
        invariant |es| == j && forall k :: 0 <= k < j ==> es[k] == EntryAt(s, k)
      {
        es := es + [EntryAt(s, j)];
      }
    }

    method ReadTable() returns (r: Result<Table>)
      requires Whole(sectors)
      ensures r == Parse(sectors)
    {
      hide ParseHeader, EntryAt;
      if |sectors| < 2 { return Err(DeviceFault); }
      var h := ParseHeader(sectors[1]);
      if h.signature != SIGNATURE { return Err(NotGpt); }
      if h.entrySize != 128 || h.count > 128 { return Err(InvalidFormat); }
      var es: seq<Entry> := [];
      for c := 0 to 32
        invariant |es| == 4 * c && (c > 0 ==> 2 + c <= |sectors|)
        invariant |sectors| >= 34 ==> forall k :: 0 <= k < |es| ==> es[k] == EntryOn(sectors, k)
      {
        if 2 + c >= |sectors| { return Err(DeviceFault); }
        var four := FourEntries(sectors[2 + c]);
        if |sectors| >= 34 { FourOn(sectors, es, four, c); }
        es := es + four;
      }
      if h.alternate + 1 >= U64 { return Err(InvalidFormat); }
      assert es == EntriesOn(sectors);
      return Ok(Table(h, es, h.alternate + 1));
    }

    /** A write past the end of the device fails and stops the rest. */
    method WriteEntries(es: seq<Entry>, base: nat) returns (ok: bool)
      requires Whole(sectors) && EntriesOk(es)
      modifies this
      ensures Whole(sectors) && |sectors| == |old(sectors)| && (ok <==> base + 32 <= |sectors|)
      ensures forall i :: 0 <= i < |sectors| && !(base <= i < base + 32) ==> sectors[i] == old(sectors[i])
      ensures ok ==> forall i :: base <= i < base + 32 ==> sectors[i] == EntrySector(es, i - base)
    {
      hide EntrySector, EntryFits;
      var buf := Zeros(512);
      for c := 0 to 32
        invariant Whole(sectors) && |sectors| == |old(sectors)| && |buf| == 512 && (c > 0 ==> base + c <= |sectors|)
        invariant forall i :: 0 <= i < |sectors| && !(base <= i < base + c) ==> sectors[i] == old(sectors[i])
        invariant forall i :: base <= i < base + c ==> sectors[i] == EntrySector(es, i - base)
      {
        buf := FillSector(es, c, buf);
        if base + c >= |sectors| { return false; }
        sectors := sectors[base + c := buf];
      }
      return true;
    }

    /** Four entries fill the buffer, whatever was in it. */
    static method FillSector(es: seq<Entry>, c: nat, buf0: Sector) returns (buf: Sector)
      requires EntriesOk(es) && c < 32 && |buf0| == 512
      ensures buf == EntrySector(es, c)
    {
      hide EntryBytes, EntryFits;
      buf := buf0;
      for j := 0 to 4
        invariant |buf| == 512 && buf[..128 * j] == Joined(es, 4 * c, j)
      {
        buf := buf[..128 * j] + EntryBytes(es[4 * c + j]) + buf[128 * j + 128..];
        assert buf[..128 * (j + 1)] == Joined(es, 4 * c, j) + EntryBytes(es[4 * c + j]);
      }
      assert buf == buf[..512];
    }

    /** The checksum of all entries, one byte after the other. */
    method SumEntries(es: seq<Entry>) returns (crc: nat)
      requires EntriesOk(es)
      ensures crc == EntriesCrc(es)
    {
      hide EntryBytes, EntryFits, Crc32.Divide, Crc32.IsTable;
      var table := Crc32.MakeTable();
      var c: bv32 := 0xFFFF_FFFF;
      Crc32.DivideNone(c);
      for i := 0 to 128
        invariant c == Crc32.Divide(0xFFFF_FFFF, Joined(es, 0, i))
      {
        Crc32.DivideConcat(0xFFFF_FFFF, Joined(es, 0, i), EntryBytes(es[i]));
        c := Crc32.Feed(table, c, EntryBytes(es[i]));
      }
      crc := (c ^ 0xFFFF_FFFF) as nat;
    }

    /** A header and the entries it speaks of. */
    method WriteCopy(h: Header, es: seq<Entry>, at: nat, base: nat) returns (ok: bool)
      requires Whole(sectors) && EntriesOk(es)
      modifies this
      ensures Whole(sectors) && |sectors| == |old(sectors)| && (ok <==> at < |sectors| && base + 32 <= |sectors|)
      ensures at >= |sectors| ==> sectors == old(sectors)
      ensures forall i :: 0 <= i < |sectors| && i != at && !(base <= i < base + 32) ==> sectors[i] == old(sectors[i])
      ensures ok ==> forall i :: base <= i < base + 32 ==> sectors[i] == EntrySector(es, i - base)
      ensures ok && !(base <= at < base + 32) ==> sectors[at] == HeaderSector(h)
    {
      hide EntryFits, HeaderSector, EntrySector;
      if at >= |sectors| { return false; }
      sectors := sectors[at := HeaderSector(h)];
      ok := WriteEntries(es, base);
    }

    method WriteTable(t: Table) returns (u: Table, ok: bool)
      requires Whole(sectors) && |sectors| <= LBA48 && EntriesOk(t.entries) && t.total < U64
      modifies this
      ensures Whole(sectors) && |sectors| == |old(sectors)|
      ensures u == WithEntries(t, t.entries) && (ok <==> Reaches(sectors, t.total))
      ensures ok && t.total >= 34 ==> Laid(old(sectors), sectors, u)
      ensures ok && t.total == 33 ==> sectors[1] == EntrySector(t.entries, 1)
      ensures forall i :: 34 <= i < |sectors| && !(t.total - 33 <= i < t.total) ==> sectors[i] == old(sectors[i])
    {
      hide EntryFits, HeaderSector, EntrySector, Crc32.Crc, EntriesCrc;
      var crc := SumEntries(t.entries);
      var h := t.header.(entriesCrc := crc, crc := 0);
      crc := Crc32.Checksum(HeaderSector(h)[..92]);
      h := h.(crc := crc);
      u := t.(header := h);
      ok := WriteCopy(h, t.entries, 1, 2);
      if !ok { return; }
      var b := h.(lba := Wrapped(t.total - 1), alternate := 1, entriesLba := Wrapped(t.total - 33), crc := 0);
      crc := Crc32.Checksum(HeaderSector(b)[..92]);
      b := b.(crc := crc);
      ok := WriteCopy(b, t.entries, b.lba, b.entriesLba);
    }

    /** The new table reads back from 35 sectors on. On 33 or 34 it does not, and on fewer the write fails. */
    method Init(total: nat, guid: nat) returns (ok: bool)
      requires Whole(sectors) && |sectors| <= LBA48 && total < U64 && guid < Pow256(16)
      modifies this
      ensures Whole(sectors) && |sectors| == |old(sectors)| && (ok <==> Reaches(sectors, total))
      ensures ok && total >= 35 ==> Formatted(sectors, NewTable(total, guid)) && Partitioned(NewTable(total, guid))
      ensures ok && total >= 34 ==> sectors[0] == Mbr(total)
      ensures ok && total < 35 ==> Parse(sectors) == Err(NotGpt)
      ensures forall i :: 34 <= i < |sectors| && !(total - 33 <= i < total) ==> sectors[i] == old(sectors[i])
    {
      hide EntriesOk, Parse, Formatted, Partitioned, Laid, EntrySector, WithEntries, NewHeader, Mbr;
      if |sectors| == 0 { return false; }
      sectors := sectors[0 := Mbr(total)];
      NewIsGood(total, guid);
      ghost var before := sectors;
      var u;
      u, ok := WriteTable(Table(NewHeader(total, guid), Blank(), total));
      if ok { NewReads(before, sectors, total, guid); }
    }

    method FreeSlot(t: Table) returns (i: nat)
      requires |t.entries| == 128
      ensures i == FirstUnused(t.entries, 0) && i <= 128
    {
      i := 0;
      while i < 128
        invariant i <= 128 && FirstUnused(t.entries, i) == FirstUnused(t.entries, 0)
      {
        if !Used(t.entries[i]) { return; }
        i := i + 1;
      }
    }

    method FreeLba(t: Table) returns (m: nat)
      ensures m == NextLba(t.entries)
    {
      m := 34;
      for i := 0 to |t.entries|
        invariant m == NextLba(t.entries[..i])
      {
        assert t.entries[..i + 1][..i] == t.entries[..i];
        if Used(t.entries[i]) && t.entries[i].last >= m { m := Wrapped(t.entries[i].last + 1); }
      }
      assert t.entries[..|t.entries|] == t.entries;
    }

    /** A request is refused without a write, or the disk reads back the table with the partition in it. */
    method AddPartition(q: Request) returns (r: Result<nat>)
      requires Whole(sectors) && |sectors| <= LBA48 && Proper(q)
      modifies this
      ensures Whole(sectors) && |sectors| == |old(sectors)|
      ensures Parse(old(sectors)).Err? ==> r == Err(ReadFailed) && sectors == old(sectors)
      ensures Parse(old(sectors)).Ok? ==> Answered(old(sectors), sectors, Parse(old(sectors)).value, Add(q), r)
    {
      hide Parse, EntryFits, NextLba, FirstUnused, Described, BlankWhenSmall, Mirrored, Laid, Outside, NewEntry;
      var p := ReadTable();
      if p.Err? { return Err(ReadFailed); }
      var t := p.value;
      ParsedFits(sectors);
      var slot := FreeSlot(t);
      if slot == 128 { return Err(NoFreeSlot); }
      var start := FreeLba(t);
      if q.size == 0 { return Err(NotEnoughSpace); }
      if start + q.size >= U64 { return Err(NotEnoughSpace); }
      var end := start + q.size - 1;
      if end > Wrapped(t.total - 34) { return Err(NotEnoughSpace); }
      var es := t.entries[slot := NewEntry(t, q)];
      NewEntryFits(t, q, slot);
      if Good(t) { AddKeeps(t, q, slot); }
      var ok := Rewrite(t, es);
      if !ok { return Err(DeviceFault); }
      return Ok(slot);
    }

    method DeletePartition(i: nat) returns (r: Result<nat>)
      requires Whole(sectors) && |sectors| <= LBA48
      modifies this
      ensures Whole(sectors) && |sectors| == |old(sectors)|
      ensures i >= 128 ==> r == Err(InvalidIndex) && sectors == old(sectors)
      ensures i < 128 && Parse(old(sectors)).Err? ==> r == Err(ReadFailed) && sectors == old(sectors)
      ensures i < 128 && Parse(old(sectors)).Ok? ==> Answered(old(sectors), sectors, Parse(old(sectors)).value, Delete(i), r)
    {
      hide Parse, EntryFits, Described, BlankWhenSmall, Mirrored, Laid, Outside, Empty;
      if i >= 128 { return Err(InvalidIndex); }
      var p := ReadTable();
      if p.Err? { return Err(ReadFailed); }
      var t := p.value;
      ParsedFits(sectors);
      if !Used(t.entries[i]) { return Err(InvalidIndex); }
      EmptyFits();
      if Good(t) { DeleteKeeps(t, i); }
      var ok := Rewrite(t, t.entries[i := Empty()]);
      if !ok { return Err(DeviceFault); }
      return Ok(i);
    }

    method Rewrite(t: Table, es: seq<Entry>) returns (ok: bool)
      requires Sized(sectors) && |sectors| <= LBA48 && EntriesOk(es) && t.total < U64
      modifies this
      ensures Sized(sectors) && |sectors| == |old(sectors)| && (ok <==> Reaches(sectors, t.total))
      ensures ok && Good(WithEntries(t, es)) ==> Formatted(sectors, WithEntries(t, es))
      ensures ok && Good(WithEntries(t, es)) ==>
                forall i :: 0 <= i < |sectors| && Outside(t.total, i) ==> sectors[i] == old(sectors[i])
      ensures forall i :: 34 <= i < |sectors| && !(t.total - 33 <= i < t.total) ==> sectors[i] == old(sectors[i])
    {
      hide Parse, EntryFits, Good, Mirrored, Placed, Outside, Checks, Backup, HeaderCrc, EntriesCrc;
      ghost var before := sectors;
      SealChecks(t.(entries := es));
      var u;
      u, ok := WriteTable(t.(entries := es));
      if ok && Good(u) {
        GoodBasics(u);
        LaidIsFormatted(before, sectors, u);
      }
    }

    /** One operation on a disk that holds the table. */
    method Do(ghost u: Table, op: Op)
      requires Formatted(sectors, u) && |sectors| <= LBA48 && (op.Add? ==> Proper(op.q))
      modifies this
      ensures |sectors| == |old(sectors)| && Formatted(sectors, Apply(u, op))
      ensures forall i :: 0 <= i < |sectors| && Outside(u.total, i) ==> sectors[i] == old(sectors[i])
    {
      hide Parse, Good, Mirrored, Outside, Apply, Partitioned, Slot;
      RefusedKeeps(u, op);
      GoodBasics(u);
      match op {
        case Add(q) => var r := AddPartition(q);
        case Delete(i) => var r := DeletePartition(i);
      }
    }

    /** Any run of additions and deletions: the disk always reads back what the operations make of the table. */
    method Serve(t: Table, ops: seq<Op>)
      requires Formatted(sectors, t) && |sectors| <= LBA48 && AllProper(ops)
      modifies this
      ensures |sectors| == |old(sectors)| && Formatted(sectors, ApplyAll(t, ops))
      ensures Partitioned(t) ==> Partitioned(ApplyAll(t, ops))
      ensures forall i :: 0 <= i < |sectors| && Outside(t.total, i) ==> sectors[i] == old(sectors[i])
    {
      hide Parse, Mirrored, Good, Outside, Apply, Partitioned;
      for n := 0 to |ops|
        invariant |sectors| == |old(sectors)| && Formatted(sectors, ApplyAll(t, ops[..n]))
        invariant forall i :: 0 <= i < |sectors| && Outside(t.total, i) ==> sectors[i] == old(sectors[i])
      {
        ghost var u := ApplyAll(t, ops[..n]);
        assert ops[..n + 1][..n] == ops[..n];
        Do(u, ops[n]);
      }
      assert ops[..|ops|] == ops;
    }
  }

  /** Every write of a table for a disk of `total` sectors stays on the device. */
  predicate Reaches(d: seq<Sector>, total: nat) { |d| >= 34 && 33 <= total <= |d| }

  /** Why an operation is turned down before anything is written. */
  function Refusal(t: Table, op: Op): Result<nat> {
    match op
    case Add(q) => Slot(t, q.size)
    case Delete(i) => if i < |t.entries| && Used(t.entries[i]) then Ok(i) else Err(InvalidIndex)
  }

  lemma RefusedKeeps(t: Table, op: Op)
    requires Good(t) && (op.Add? ==> Proper(op.q))
    ensures Refusal(t, op).Err? ==> Apply(t, op) == t
  {
    hide Partitioned;
  }

  /**
   What an operation on a readable table answers. Refused, it writes nothing. Otherwise the answer is a
   device fault exactly when the table claims more sectors than there are, or fewer than a table needs.
   A table of which no copies overlap, whoever made it, then reads back as the operation left it, from
   both copies, and no sector outside the two changes.
   */
  ghost predicate Answered(d0: seq<Sector>, d: seq<Sector>, t: Table, op: Op, r: Result<nat>)
    requires Sized(d)
  {
    && |d| == |d0| && (op.Add? ==> Proper(op.q))
    && (Refusal(t, op).Err? ==> r == Refusal(t, op) && d == d0)
    && (Refusal(t, op).Ok? ==>
          && r == (if Reaches(d, t.total) then Refusal(t, op) else Err(DeviceFault))
          && (forall i :: 34 <= i < |d| && !(t.total - 33 <= i < t.total) ==> d[i] == d0[i])
          && (Good(t) && t.total <= |d| ==>
                && Formatted(d, Apply(t, op))
                && forall i :: 0 <= i < |d| && Outside(t.total, i) ==> d[i] == d0[i]))
  }
}
