/** Two ways from a day count to a date: a closed form, and taking off years and months one at a time. */
module Calendar {
  import opened Common

  datatype Date = Date(year: int, month: int, day: int)

  datatype Stamp = Stamp(date: Date, hour: nat, minute: nat, second: nat)

  const U16: nat := 0x1_0000

  // ---------------------------------------------------------------- the Gregorian calendar

  predicate Leap(y: int) { (y % 4 == 0 && y % 100 != 0) || y % 400 == 0 }

  function YearLength(y: int): int { if Leap(y) then 366 else 365 }

  function MonthLength(y: int, m: int): int {
    if m == 2 then (if Leap(y) then 29 else 28) else if m == 4 || m == 6 || m == 9 || m == 11 then 30 else 31
  }

  /** Leap years up to and including `y`. */
  function Leaps(y: int): int { y / 4 - y / 100 + y / 400 }

  /** Days from 1 January 1970 to 1 January of `y`. */
  function YearStart(y: int): int { 365 * (y - 1970) + Leaps(y - 1) - 477 }

  /** Days of the year before month `m`. */
  function MonthStart(y: int, m: int): int
    requires 1 <= m <= 13
    decreases m
  {
    if m == 1 then 0 else MonthStart(y, m - 1) + MonthLength(y, m - 1)
  }

  predicate Valid(d: Date) { 1 <= d.month <= 12 && 1 <= d.day <= MonthLength(d.year, d.month) }

  function DayNumber(d: Date): int
    requires Valid(d)
  {
    YearStart(d.year) + MonthStart(d.year, d.month) + d.day - 1
  }

  lemma Floor(y: int, n: int)
    requires n > 1
    ensures y / n - (y - 1) / n == if y % n == 0 then 1 else 0
  {
    var q, r := y / n, y % n;
    assert y == n * q + r;
    if r == 0 {
      assert y - 1 == n * (q - 1) + (n - 1);
      Quotient(y - 1, n, q - 1, n - 1);
    } else {
      Quotient(y - 1, n, q, r - 1);
    }
  }

  lemma Quotient(x: int, n: int, q: int, r: int)
    requires n > 0 && x == n * q + r && 0 <= r < n
    ensures x / n == q
  {
    var q', r' := x / n, x % n;
    assert x == n * q' + r';
    assert n * (q - q') == r' - r;
    assert q - q' >= 1 ==> n * (q - q') >= n;
    assert q - q' <= -1 ==> n * (q - q') <= -n;
  }

  lemma NextYear(y: int)
    ensures YearStart(1970) == 0 && YearStart(y + 1) == YearStart(y) + YearLength(y)
  {
    Floor(y, 4);
    Floor(y, 100);
    Floor(y, 400);
  }

  lemma {:induction false} YearsGrow(y: int, z: int)
    requires y < z
    ensures YearStart(y) + YearLength(y) <= YearStart(z)
    decreases z - y
  {
    hide YearStart;
    NextYear(y);
    if y + 1 < z { YearsGrow(y + 1, z); }
  }

  lemma {:induction false} MonthsGrow(y: int, m: int, n: int)
    requires 1 <= m < n <= 13
    ensures MonthStart(y, m) + MonthLength(y, m) <= MonthStart(y, n)
    decreases n
  {
    if m < n - 1 { MonthsGrow(y, m, n - 1); }
  }

  lemma MonthStarts(y: int)
    ensures MonthStart(y, 1) == 0 && MonthStart(y, 2) == 31 && MonthStart(y, 13) == YearLength(y)
    ensures var l := if Leap(y) then 1 else 0;
            MonthStart(y, 3) == 59 + l && MonthStart(y, 4) == 90 + l && MonthStart(y, 5) == 120 + l
            && MonthStart(y, 6) == 151 + l && MonthStart(y, 7) == 181 + l && MonthStart(y, 8) == 212 + l
            && MonthStart(y, 9) == 243 + l && MonthStart(y, 10) == 273 + l && MonthStart(y, 11) == 304 + l
            && MonthStart(y, 12) == 334 + l
  {
    hide Leap;
    assert MonthStart(y, 3) == MonthStart(y, 2) + MonthLength(y, 2);
    assert MonthStart(y, 5) == MonthStart(y, 3) + 61;
    assert MonthStart(y, 7) == MonthStart(y, 5) + 61;
    assert MonthStart(y, 9) == MonthStart(y, 7) + 62;
    assert MonthStart(y, 11) == MonthStart(y, 9) + 61;
    assert MonthStart(y, 13) == MonthStart(y, 11) + 61;
  }

  lemma InYear(d: Date)
    requires Valid(d)
    ensures YearStart(d.year) <= DayNumber(d) < YearStart(d.year) + YearLength(d.year)
  {
    hide YearStart, YearLength, MonthLength;
    if d.month > 1 { MonthsGrow(d.year, 1, d.month); }
    if d.month < 13 { MonthsGrow(d.year, d.month, 13); }
    MonthStarts(d.year);
  }

  /** A day has one date. */
  lemma OneDate(a: Date, b: Date)
    requires Valid(a) && Valid(b) && DayNumber(a) == DayNumber(b)
    ensures a == b
  {
    hide YearStart, YearLength, MonthStart;
    InYear(a);
    InYear(b);
    if a.year < b.year { YearsGrow(a.year, b.year); }
    if b.year < a.year { YearsGrow(b.year, a.year); }
    if a.month < b.month { MonthsGrow(a.year, a.month, b.month); }
    if b.month < a.month { MonthsGrow(a.year, b.month, a.month); }
  }

  // ---------------------------------------------------------------- the closed form

  /** Division that rounds towards zero. */
  function Quot(a: int, b: int): int
    requires b > 0
  {
    if a >= 0 then a / b else -(-a / b)
  }

  function Era(z: int): int { Quot(if z >= 0 then z else z - 146096, 146097) }

  function YearOfEra(doe: int): int { (doe - doe / 1460 + doe / 36524 - doe / 146096) / 365 }

  /** Months from March on: the days before month `mp`. */
  function FromMarch(mp: int): int { (153 * mp + 2) / 5 }

  /** Day `doy` of the year that begins in March of year `y`. */
  function MarchDate(y: int, doy: int): Date {
    var mp := (5 * doy + 2) / 153;
    var m := if mp < 10 then mp + 3 else mp - 9;
    Date(if m <= 2 then y + 1 else y, m, doy - FromMarch(mp) + 1)
  }

  function CivilFromDays(days: int): Date {
    var z := days + 719468;
    var era := Era(z);
    var doe := z - era * 146097;
    var yoe := YearOfEra(doe);
    MarchDate(yoe + era * 400, doe - (365 * yoe + yoe / 4 - yoe / 100))
  }

  lemma EraFloors(z: int)
    ensures Era(z) == z / 146097 && 0 <= z - Era(z) * 146097 < 146097
  {
    if z < 0 {
      var w := 146096 - z;
      Quotient(w, 146097, w / 146097, w % 146097);
      var q := w / 146097;
      assert z == 146097 * (-q) + (146096 - w % 146097);
      Quotient(z, 146097, -q, 146096 - w % 146097);
    }
  }

  /** Centuries, groups of four years, years and days since 1 March of the era's first year. */
  ghost predicate Split(doe: int, c: int, q: int, s: int, r: int) {
    && 0 <= c <= 3 && 0 <= q <= 24 && 0 <= s <= 3 && 0 <= r <= 365
    && doe == 36524 * c + 1461 * q + 365 * s + r
    && (r == 365 ==> s == 3 && (q < 24 || c == 3))
  }

  lemma SplitExists(doe: int) returns (c: int, q: int, s: int, r: int)
    requires 0 <= doe < 146097
    ensures Split(doe, c, q, s, r)
  {
    c := if doe / 36524 > 3 then 3 else doe / 36524;
    var a := doe - 36524 * c;
    q := a / 1461;
    var b := a - 1461 * q;
    s := if b / 365 > 3 then 3 else b / 365;
    r := b - 365 * s;
  }

  lemma YearOfEraExact(doe: int, c: int, q: int, s: int, r: int)
    requires Split(doe, c, q, s, r)
    ensures YearOfEra(doe) == 100 * c + 4 * q + s
  {
    var e := if 24 * c + q + 365 * s + r >= 1460 then 1 else 0;
    var f := if doe == 146096 then 1 else 0;
    Quotient(doe, 1460, 25 * c + q + e, 24 * c + q + 365 * s + r - 1460 * e);
    Quotient(doe, 36524, c + f, doe - 36524 * (c + f));
    Quotient(doe, 146096, f, doe - 146096 * f);
    var k := 100 * c + 4 * q + s;
    Quotient(doe - (25 * c + q + e) + (c + f) - f, 365, k, r - e);
  }

  lemma YearParts(c: int, q: int, s: int)
    requires 0 <= c <= 3 && 0 <= q <= 24 && 0 <= s <= 3
    ensures var k := 100 * c + 4 * q + s; k / 4 == 25 * c + q && k / 100 == c
  {
  }

  /** 1 March of the civil year, from the era's days. */
  lemma MarchStart(era: int, c: int, q: int, s: int)
    requires 0 <= c <= 3 && 0 <= q <= 24 && 0 <= s <= 3
    ensures var y := 400 * era + 100 * c + 4 * q + s;
            YearStart(y) + YearLength(y) + 719468 - 306 == 146097 * era + 36524 * c + 1461 * q + 365 * s
  {
    var y := 400 * era + 100 * c + 4 * q + s;
    NextYear(y);
    Quotient(y, 4, 100 * era + 25 * c + q, s);
    Quotient(y, 100, 4 * era + c, 4 * q + s);
    Quotient(y, 400, era, 100 * c + 4 * q + s);
  }

  lemma LeapAfter(era: int, c: int, q: int, s: int)
    requires 0 <= c <= 3 && 0 <= q <= 24 && 0 <= s <= 3
    ensures Leap(400 * era + 100 * c + 4 * q + s + 1) <==> s == 3 && (q < 24 || c == 3)
  {
    var y := 400 * era + 100 * c + 4 * q + s + 1;
    var k := 100 * c + 4 * q + s + 1;
    Quotient(y, 4, 100 * era + k / 4, k % 4);
    Quotient(y, 100, 4 * era + k / 100, k % 100);
    Quotient(y, 400, era + k / 400, k % 400);
  }

  /** The formula's month holds the day. */
  lemma MonthFound(doy: int)
    requires 0 <= doy <= 365
    ensures var mp := (5 * doy + 2) / 153; 0 <= mp <= 11 && FromMarch(mp) <= doy && (mp < 11 ==> doy < FromMarch(mp + 1))
  {
  }

  lemma MonthPlaces(y: int, mp: int)
    requires 0 <= mp <= 11
    ensures mp < 10 ==> MonthStart(y, mp + 3) == MonthStart(y, 3) + FromMarch(mp) && MonthLength(y, mp + 3) == FromMarch(mp + 1) - FromMarch(mp)
    ensures mp >= 10 ==> MonthStart(y, mp - 9) == FromMarch(mp) - 306
    ensures mp == 10 ==> MonthLength(y, 1) == FromMarch(11) - FromMarch(10)
  {
    MonthStarts(y);
  }

  /** Every day, before or after 1970, gets the one date it has. */
  lemma CivilExact(days: int)
    ensures Valid(CivilFromDays(days)) && DayNumber(CivilFromDays(days)) == days
  {
    hide Valid, DayNumber, MarchDate, Era, YearOfEra;
    var z := days + 719468;
    EraFloors(z);
    var era := Era(z);
    var doe := z - era * 146097;
    var c, q, s, r := SplitExists(doe);
    YearOfEraExact(doe, c, q, s, r);
    YearParts(c, q, s);
    DateOf(days, era, c, q, s, r, YearOfEra(doe) + era * 400);
  }

  lemma DateOf(days: int, era: int, c: int, q: int, s: int, r: int, y: int)
    requires Split(days + 719468 - era * 146097, c, q, s, r)
    requires y == 400 * era + 100 * c + 4 * q + s
    ensures Valid(MarchDate(y, r)) && DayNumber(MarchDate(y, r)) == days
  {
    hide Leap, YearStart, MonthStart, FromMarch;
    var mp := (5 * r + 2) / 153;
    MonthFound(r);
    MarchStart(era, c, q, s);
    LeapAfter(era, c, q, s);
    NextYear(y);
    MonthStarts(y);
    MonthPlaces(y, mp);
    MonthPlaces(y + 1, mp);
    FromMarchEnds();
  }

  lemma FromMarchEnds()
    ensures FromMarch(10) == 306 && FromMarch(11) == 337
  {
  }

  // ---------------------------------------------------------------- and back

  /** The day count of day `doy` of the year that begins in March of year `y`. */
  function MarchDays(y: int, doy: int): int {
    var era := Quot(if y >= 0 then y else y - 399, 400);
    var yoe := y - era * 400;
    era * 146097 + (yoe * 365 + yoe / 4 - yoe / 100 + doy) - 719468
  }

  function DaysFromCivil(d: Date): int {
    MarchDays(if d.month <= 2 then d.year - 1 else d.year, FromMarch((d.month + 9) % 12) + d.day - 1)
  }

  lemma YearFloors(y: int)
    ensures var era := Quot(if y >= 0 then y else y - 399, 400); 0 <= y - era * 400 < 400
  {
    if y < 0 {
      var w := 399 - y;
      assert w == 400 * (w / 400) + w % 400;
    }
  }

  lemma MarchDaysExact(y: int, doy: int)
    ensures MarchDays(y, doy) == YearStart(y + 1) - 306 + doy
  {
    hide YearStart, Quot, Leap;
    YearFloors(y);
    var era := Quot(if y >= 0 then y else y - 399, 400);
    var yoe := y - era * 400;
    var c, q, s := yoe / 100, yoe % 100 / 4, yoe % 4;
    YearParts(c, q, s);
    MarchStart(era, c, q, s);
    NextYear(y);
  }

  lemma DaysExact(d: Date)
    requires Valid(d)
    ensures DaysFromCivil(d) == DayNumber(d)
  {
    hide Leap, YearStart, MonthStart, FromMarch, MarchDays;
    var mp := (d.month + 9) % 12;
    MarchDaysExact(if d.month <= 2 then d.year - 1 else d.year, FromMarch(mp) + d.day - 1);
    NextYear(d.year);
    MonthStarts(d.year);
    MonthPlaces(d.year, mp);
  }

  /** The two directions undo each other, for every date and every day. */
  lemma RoundTrip(d: Date, days: int)
    requires Valid(d)
    ensures CivilFromDays(DaysFromCivil(d)) == d && DaysFromCivil(CivilFromDays(days)) == days
  {
    hide CivilFromDays, DaysFromCivil, DayNumber;
    DaysExact(d);
    CivilExact(DaysFromCivil(d));
    OneDate(CivilFromDays(DaysFromCivil(d)), d);
    CivilExact(days);
    DaysExact(CivilFromDays(days));
  }

  function CivilFromUnix(secs: nat): Stamp {
    var d := CivilFromDays(secs / 86400);
    var rem := secs % 86400;
    Stamp(Date(d.year % U16, d.month, d.day), rem / 3600, rem % 3600 / 60, rem % 60)
  }

  // ---------------------------------------------------------------- one year and one month at a time

  method Format(secs: nat) returns (f: Stamp)
    ensures Valid(f.date) && DayNumber(f.date) == secs / 86400 % U32
    ensures secs % 86400 == f.hour * 3600 + f.minute * 60 + f.second && f.minute < 60 && f.second < 60
  {
    hide Leap, YearStart, MonthStart;
    var rem := secs % 86400;
    var year := 1970;
    var days := secs / 86400 % U32;
    NextYear(1970);
    while days >= YearLength(year)
      invariant days >= 0 && YearStart(year) + days == secs / 86400 % U32
      decreases days
    {
      NextYear(year);
      days, year := days - YearLength(year), year + 1;
    }
    ghost var inYear := days;
    var month := 1;
    MonthStarts(year);
    while month <= 12 && days >= MonthLength(year, month)
      invariant 1 <= month <= 13 && days >= 0 && MonthStart(year, month) + days == inYear
    {
      NextMonth(year, month);
      days, month := days - MonthLength(year, month), month + 1;
    }
    f := Stamp(Date(year, month, days + 1), rem / 3600, rem % 3600 / 60, rem % 60);
  }

  lemma NextMonth(y: int, m: int)
    requires 1 <= m <= 12
    ensures MonthStart(y, m + 1) == MonthStart(y, m) + MonthLength(y, m)
  {
  }

  /** What the loops answer is the date of the day count they keep, whichever way it is computed. */
  lemma FormatIsCivil(secs: nat, f: Stamp)
    requires Valid(f.date) && DayNumber(f.date) == secs / 86400 % U32
    requires secs % 86400 == f.hour * 3600 + f.minute * 60 + f.second && f.minute < 60 && f.second < 60
    ensures f.date == CivilFromDays(secs / 86400 % U32)
    ensures f.hour == CivilFromUnix(secs).hour && f.minute == CivilFromUnix(secs).minute && f.second == CivilFromUnix(secs).second
  {
    hide CivilFromDays;
    CivilExact(secs / 86400 % U32);
    OneDate(f.date, CivilFromDays(secs / 86400 % U32));
  }

  /** The same day and month, `k` times 65536 years later. */
  function Later(d: Date, k: int): Date { Date(d.year + U16 * k, d.month, d.day) }

  ghost predicate IsDay(d: Date, days: int) { Valid(d) && DayNumber(d) == days }

  /** A count past 2^32 agrees only with the same day and month a multiple of 65536 years on. */
  lemma AgreeLater(secs: nat, f: Stamp)
    requires Valid(f.date) && DayNumber(f.date) == secs / 86400 % U32
    requires secs % 86400 == f.hour * 3600 + f.minute * 60 + f.second && f.minute < 60 && f.second < 60
    ensures f == CivilFromUnix(secs) ==> f.date.year < U16 && exists k :: IsDay(Later(f.date, k), secs / 86400)
  {
    hide CivilFromDays, YearStart, DayNumber, Valid;
    var days := secs / 86400;
    CivilExact(days);
    var d := CivilFromDays(days);
    if f == CivilFromUnix(secs) {
      assert Later(f.date, d.year / U16) == d;
      assert IsDay(Later(f.date, d.year / U16), days);
    }
  }

  /** Leap years are 97 in 400, up to less than three. */
  lemma LeapsNear(y: int)
    ensures 97 * y - 699 <= 400 * Leaps(y) <= 97 * y + 396
  {
    assert y == 4 * (y / 4) + y % 4 && y == 100 * (y / 100) + y % 100 && y == 400 * (y / 400) + y % 400;
  }

  /** So a day number is 146097 days in 400 years of its year, give or take. */
  lemma DaysNear(d: Date, e: Date)
    requires Valid(d) && Valid(e) && d.month == e.month && d.day == e.day
    ensures -1500 <= 400 * (DayNumber(e) - DayNumber(d)) - 146097 * (e.year - d.year) <= 1500
  {
    hide Leap, Leaps, MonthStart;
    LeapsNear(d.year - 1);
    LeapsNear(e.year - 1);
    MonthStarts(d.year);
    MonthStarts(e.year);
  }

  /** Whole multiples of 2^32 days and of 65536 years meet only every 146097 times 2^32 days. */
  lemma NeverMeet(j: int, k: int)
    requires 0 <= j < 146097 && -1500 <= 400 * (U32 * j) - 146097 * (U16 * k) <= 1500
    ensures j == 0
  {
    var e := 26214400 * j - 146097 * k;
    assert 400 * (U32 * j) - 146097 * (U16 * k) == 65536 * e;
    assert e == 0;
    var m := -29879 * k + 5361233 * j;
    assert 146097 * m == -29879 * (146097 * k) + 5361233 * 146097 * j;
    assert 146097 * m == (-29879 * 26214400 + 5361233 * 146097) * j == j;
    assert m >= 1 ==> 146097 * m >= 146097;
  }

  /** For every 64-bit time the two stamps agree exactly up to the end of the year 65535. */
  lemma AgreeExactly(secs: nat, f: Stamp)
    requires Valid(f.date) && DayNumber(f.date) == secs / 86400 % U32
    requires secs % 86400 == f.hour * 3600 + f.minute * 60 + f.second && f.minute < 60 && f.second < 60
    requires secs < U64
    ensures f == CivilFromUnix(secs) <==> secs / 86400 < YearStart(65536)
  {
    hide CivilFromDays, YearStart, DayNumber, Valid;
    var days := secs / 86400;
    FormatIsCivil(secs, f);
    YearInRange(f.date, days % U32);
    assert YearStart(65536) < U32 by { EndOfYears(); }
    if days >= U32 && f == CivilFromUnix(secs) {
      AgreeLater(secs, f);
      var k :| IsDay(Later(f.date, k), days);
      DaysNear(f.date, Later(f.date, k));
      assert days == U32 * (days / U32) + days % U32;
      NeverMeet(days / U32, k);
    }
  }

  lemma EndOfYears()
    ensures YearStart(65536) < U32
  {
  }

  lemma YearInRange(d: Date, days: nat)
    requires Valid(d) && DayNumber(d) == days
    ensures d.year >= 1970 && (d.year < U16 <==> days < YearStart(65536))
  {
    hide DayNumber, YearStart, YearLength;
    InYear(d);
    NextYear(1970);
    YearLengthPositive(d.year);
    if d.year < 1970 { YearsGrow(d.year, 1970); }
    if d.year < 65536 { YearsGrow(d.year, 65536); }
    if d.year > 65536 { YearsGrow(65536, d.year); YearLengthPositive(65536); }
  }

  lemma YearLengthPositive(y: int)
    ensures YearLength(y) > 0
  {
  }
}
