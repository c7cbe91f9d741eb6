/**
 Reading a millisecond time stamp, `YYYY-MM-DDTHH:MM:SS.mmmZ`, the way `Date.parse`
 of Node.js does. The reader accepts more than it ever writes: day 31 in every month,
 which runs over into the next one, and hour 24 at the very end of a day. So one instant
 may have several stamps; `Carry` says which stamps these are.
 */
module IsoTime {
  import opened Basics
  import opened Texts

  datatype Fields = Fields(year: nat, month: nat, day: nat, hour: nat, minute: nat, second: nat, millisecond: nat)

  // ---------- The text ----------

  /** Two digits at a position. */
  predicate DigitPair(s: string, k: nat) { k + 1 < |s| && Digit(s[k]) && Digit(s[k + 1]) }

  /** The stamp has the shape `YYYY-MM-DDTHH:MM:SS.mmmZ`. */
  predicate IsIso(s: string) {
    && |s| == 24
    && DigitPair(s, 0) && DigitPair(s, 2) && s[4] == '-' && DigitPair(s, 5) && s[7] == '-' && DigitPair(s, 8)
    && s[10] == 'T'
    && DigitPair(s, 11) && s[13] == ':' && DigitPair(s, 14) && s[16] == ':' && DigitPair(s, 17)
    && s[19] == '.' && DigitPair(s, 20) && Digit(s[22]) && s[23] == 'Z'
  }

  function Value(c: char): (n: nat)
    requires Digit(c)
    ensures n < 10
  {
    (c - '0') as nat
  }

  /** The number two digits write. */
  function Two(s: string, k: nat): nat
    requires DigitPair(s, k)
  {
    10 * Value(s[k]) + Value(s[k + 1])
  }

  function FieldsOf(s: string): Fields
    requires IsIso(s)
  {
    Fields(100 * Two(s, 0) + Two(s, 2), Two(s, 5), Two(s, 8), Two(s, 11), Two(s, 14), Two(s, 17),
      10 * Two(s, 20) + Value(s[22]))
  }

  lemma SameValue(a: char, b: char)
    requires Digit(a) && Digit(b)
    ensures Value(a) == Value(b) ==> a == b
  {
  }

  lemma SameTwo(s: string, t: string, k: nat)
    requires DigitPair(s, k) && DigitPair(t, k)
    requires Two(s, k) == Two(t, k)
    ensures s[k] == t[k] && s[k + 1] == t[k + 1]
  {
  }

  lemma TwoIsSmall(s: string, k: nat)
    requires DigitPair(s, k)
    ensures Two(s, k) < 100
  {
  }

  /** The fields determine the stamp. */
  lemma SameFieldsSameStamp(s: string, t: string)
    requires IsIso(s) && IsIso(t) && FieldsOf(s) == FieldsOf(t)
    ensures s == t
  {
    hide Two, DigitPair, Value;
    SameValue(s[22], t[22]);
    TwoIsSmall(s, 2);
    TwoIsSmall(t, 2);
    SameTwo(s, t, 0);
    SameTwo(s, t, 2);
    SameTwo(s, t, 5);
    SameTwo(s, t, 8);
    SameTwo(s, t, 11);
    SameTwo(s, t, 14);
    SameTwo(s, t, 17);
    SameTwo(s, t, 20);
  }

  // ---------- The instant ----------

  const DAY := 86400000
  const EPOCH := 719528

  predicate Leap(year: nat) { year % 4 == 0 && (year % 100 != 0 || year % 400 == 0) }

  function DaysInMonth(year: nat, month: nat): (n: nat)
    requires 1 <= month <= 12
    ensures 28 <= n <= 31
  {
    if month == 2 then (if Leap(year) then 29 else 28)
    else if month == 4 || month == 6 || month == 9 || month == 11 then 30
    else 31
  }

  /** Days of the years before this one. */
  function DaysBeforeYear(year: nat): nat { 365 * year + (year + 3) / 4 - (year + 99) / 100 + (year + 399) / 400 }

  /** Days of the year before this month. */
  function DaysBeforeMonth(year: nat, month: nat): nat
    requires 1 <= month <= 13
  {
    if month == 1 then 0 else DaysBeforeMonth(year, month - 1) + DaysInMonth(year, month - 1)
  }

  /** The ranges the reader asks of the fields: whatever the month, up to 31 days. */
  predicate InRange(f: Fields) {
    && 1 <= f.month <= 12 && 1 <= f.day <= 31
    && f.millisecond <= 999
    && ((f.hour <= 23 && f.minute <= 59 && f.second <= 59) ||
        (f.hour == 24 && f.minute == f.second == f.millisecond == 0))
  }

  function DayOf(f: Fields): int
    requires 1 <= f.month <= 12
  {
    DaysBeforeYear(f.year) + DaysBeforeMonth(f.year, f.month) + f.day - 1
  }

  function TimeOfDay(f: Fields): nat { ((f.hour * 60 + f.minute) * 60 + f.second) * 1000 + f.millisecond }

  /** Milliseconds since the epoch. */
  function Instant(f: Fields): int
    requires InRange(f)
  {
    (DayOf(f) - EPOCH) * DAY + TimeOfDay(f)
  }

  function Parse(s: string): Option<int> {
    if IsIso(s) && InRange(FieldsOf(s)) then Some(Instant(FieldsOf(s))) else None
  }

  // ---------- Stamps of one instant ----------

  /** The way a date and time are written: an hour below 24 on a day the month has. */
  predicate Normal(f: Fields) {
    InRange(f) && f.hour <= 23 && f.day <= DaysInMonth(f.year, f.month)
  }

  /** The day after the last day of the month is the first of the next. */
  function CarryDay(f: Fields): Fields
    requires 1 <= f.month <= 12
  {
    var last := DaysInMonth(f.year, f.month);
    if f.day <= last then f
    else if f.month == 12 then f.(year := f.year + 1, month := 1, day := f.day - last)
    else f.(month := f.month + 1, day := f.day - last)
  }

  /** The 24th hour is the start of the next day. */
  function CarryHour(f: Fields): Fields {
    if f.hour == 24 then f.(day := f.day + 1, hour := 0) else f
  }

  /** The normal spelling of the same date and time. */
  function Carry(f: Fields): Fields
    requires InRange(f)
  {
    CarryDay(CarryHour(f))
  }

  lemma MonthLengths(year: nat, month: nat)
    requires 1 <= month <= 12
    ensures DaysBeforeMonth(year, month) + DaysInMonth(year, month) == DaysBeforeMonth(year, month + 1)
  {
  }

  lemma YearLength(year: nat)
    ensures DaysBeforeMonth(year, 13) == if Leap(year) then 366 else 365
    ensures DaysBeforeYear(year + 1) == DaysBeforeYear(year) + DaysBeforeMonth(year, 13)
  {
    var february := DaysInMonth(year, 2);
    assert DaysBeforeMonth(year, 2) == 31;
    assert DaysBeforeMonth(year, 3) == 31 + february;
    assert DaysBeforeMonth(year, 5) == 92 + february;
    assert DaysBeforeMonth(year, 7) == 153 + february;
    assert DaysBeforeMonth(year, 9) == 215 + february;
    assert DaysBeforeMonth(year, 11) == 276 + february;
    assert DaysBeforeMonth(year, 13) == 337 + february;
    LeapSteps(year);
  }

  lemma LeapSteps(year: nat)
    ensures (year + 4) / 4 - (year + 3) / 4 == if year % 4 == 0 then 1 else 0
    ensures (year + 100) / 100 - (year + 99) / 100 == if year % 100 == 0 then 1 else 0
    ensures (year + 400) / 400 - (year + 399) / 400 == if year % 400 == 0 then 1 else 0
    ensures year % 100 == 0 ==> year % 4 == 0
    ensures year % 400 == 0 ==> year % 100 == 0
  {
    FourthYears(year);
    HundredthYears(year);
    FourHundredthYears(year);
    LeapDivisors(year);
  }

  lemma FourthYears(year: nat)
    ensures (year + 4) / 4 - (year + 3) / 4 == if year % 4 == 0 then 1 else 0
  {
  }

  lemma HundredthYears(year: nat)
    ensures (year + 100) / 100 - (year + 99) / 100 == if year % 100 == 0 then 1 else 0
  {
  }

  lemma FourHundredthYears(year: nat)
    ensures (year + 400) / 400 - (year + 399) / 400 == if year % 400 == 0 then 1 else 0
  {
  }

  lemma LeapDivisors(year: nat)
    ensures year % 100 == 0 ==> year % 4 == 0
    ensures year % 400 == 0 ==> year % 100 == 0
  {
    var hundreds, fourHundreds := year / 100, year / 400;
    assert year % 100 == 0 ==> year == 4 * (25 * hundreds);
    assert year % 400 == 0 ==> year == 100 * (4 * fourHundreds);
    MultipleIsDivisible(25 * hundreds);
    MultipleIsDivisible(4 * fourHundreds);
  }

  lemma MultipleIsDivisible(n: nat)
    ensures (4 * n) % 4 == 0 && (100 * n) % 100 == 0
  {
  }

  /** Carrying does not change the instant, and its result is normal. */
  lemma CarryKeepsInstant(f: Fields)
    requires InRange(f)
    ensures Normal(Carry(f)) && Instant(Carry(f)) == Instant(f)
  {
    hide DaysBeforeYear;
    MonthLengths(f.year, f.month);
    YearLength(f.year);
    assert f.month == 12 ==> DaysInMonth(f.year, f.month) == 31;
  }

  lemma NormalIsCarried(f: Fields)
    requires Normal(f)
    ensures Carry(f) == f
  {
  }

  lemma {:induction false} MonthsGrow(year: nat, month: nat, later: nat)
    requires 1 <= month < later <= 13
    ensures DaysBeforeMonth(year, month) + DaysInMonth(year, month) <= DaysBeforeMonth(year, later)
  {
    MonthLengths(year, month);
    if month + 1 < later {
      MonthsGrow(year, month, later - 1);
      MonthLengths(year, later - 1);
    }
  }

  lemma {:induction false} YearsGrow(year: nat, later: nat)
    requires year < later
    ensures DaysBeforeYear(year) + DaysBeforeMonth(year, 13) <= DaysBeforeYear(later)
  {
    hide DaysBeforeYear, DaysBeforeMonth;
    YearLength(year);
    if year + 1 < later {
      YearsGrow(year, later - 1);
      YearLength(later - 1);
    }
  }

  /** The date and time are earlier, read from the year down to the millisecond. */
  predicate DayBefore(f: Fields, g: Fields) {
    || f.year < g.year
    || (f.year == g.year && (f.month < g.month || (f.month == g.month && f.day < g.day)))
  }

  lemma EarlierDay(f: Fields, g: Fields)
    requires Normal(f) && Normal(g) && DayBefore(f, g)
    ensures DayOf(f) < DayOf(g)
  {
    hide DaysBeforeYear, DaysInMonth;
    if f.year < g.year {
      YearsGrow(f.year, g.year);
      if f.month < 13 {
        MonthsGrow(f.year, f.month, 13);
      }
      FirstOfYear(g.year, g.month);
    } else if f.month < g.month {
      MonthsGrow(f.year, f.month, g.month);
    }
  }

  lemma FirstOfYear(year: nat, month: nat)
    requires 1 <= month <= 13
    ensures DaysBeforeMonth(year, month) >= 0
  {
  }

  lemma TimeIsWithinDay(f: Fields)
    requires Normal(f)
    ensures TimeOfDay(f) < DAY
  {
  }

  lemma SameTimeOfDay(f: Fields, g: Fields)
    requires Normal(f) && Normal(g) && TimeOfDay(f) == TimeOfDay(g)
    ensures f.hour == g.hour && f.minute == g.minute && f.second == g.second && f.millisecond == g.millisecond
  {
    SameSplit((f.hour * 60 + f.minute) * 60 + f.second, (g.hour * 60 + g.minute) * 60 + g.second,
      f.millisecond, g.millisecond, 1000);
    SameSplit(f.hour * 60 + f.minute, g.hour * 60 + g.minute, f.second, g.second, 60);
    SameSplit(f.hour, g.hour, f.minute, g.minute, 60);
  }

  lemma SameSplit(a: int, b: int, x: nat, y: nat, n: nat)
    requires x < n && y < n && a * n + x == b * n + y
    ensures a == b && x == y
  {
    assert (b - a) * n == x - y && (a - b) * n == y - x;
    if a < b {
      NoSmallProduct(b - a - 1, n);
    } else if b < a {
      NoSmallProduct(a - b - 1, n);
    }
  }

  lemma NoSmallProduct(d: nat, n: nat)
    ensures (d + 1) * n >= n
  {
  }

  /** Normal dates and times of one instant are the same. */
  lemma NormalIsUnique(f: Fields, g: Fields)
    requires Normal(f) && Normal(g) && Instant(f) == Instant(g)
    ensures f == g
  {
    TimeIsWithinDay(f);
    TimeIsWithinDay(g);
    SameSplit(DayOf(f), DayOf(g), TimeOfDay(f), TimeOfDay(g), DAY);
    if DayBefore(f, g) {
      EarlierDay(f, g);
    } else if DayBefore(g, f) {
      EarlierDay(g, f);
    }
    SameTimeOfDay(f, g);
  }

  /** The stamp is read, and its fields are normal. */
  predicate NormalStamp(s: string) { IsIso(s) && Normal(FieldsOf(s)) }

  predicate SameCarried(s: string, t: string) {
    && IsIso(s) && IsIso(t) && InRange(FieldsOf(s)) && InRange(FieldsOf(t))
    && Carry(FieldsOf(s)) == Carry(FieldsOf(t))
  }

  /** Two stamps are read as one instant exactly when their fields carry over to the same ones. */
  lemma SameInstantExactly(s: string, t: string)
    requires Parse(s).Some? && Parse(t).Some?
    ensures Parse(s) == Parse(t) <==> SameCarried(s, t)
  {
    hide IsIso, FieldsOf, Instant, Carry, InRange, Normal;
    CarryKeepsInstant(FieldsOf(s));
    CarryKeepsInstant(FieldsOf(t));
    if Parse(s) == Parse(t) {
      NormalIsUnique(Carry(FieldsOf(s)), Carry(FieldsOf(t)));
    }
  }

  /** So different stamps in normal form are different instants. */
  lemma NormalStampsDiffer(s: string, t: string)
    requires NormalStamp(s) && NormalStamp(t) && s != t
    ensures Parse(s).Some? && Parse(t).Some? && Parse(s) != Parse(t)
  {
    hide FieldsOf, Carry, Instant;
    NormalIsCarried(FieldsOf(s));
    NormalIsCarried(FieldsOf(t));
    SameInstantExactly(s, t);
    if FieldsOf(s) == FieldsOf(t) {
      SameFieldsSameStamp(s, t);
    }
  }

  const END_OF_DAY := "2026-01-01T24:00:00.000Z"
  const START_OF_DAY := "2026-01-02T00:00:00.000Z"

  lemma ReadEndOfDay()
    ensures IsIso(END_OF_DAY) && FieldsOf(END_OF_DAY) == Fields(2026, 1, 1, 24, 0, 0, 0)
  {
  }

  lemma ReadStartOfDay()
    ensures IsIso(START_OF_DAY) && FieldsOf(START_OF_DAY) == Fields(2026, 1, 2, 0, 0, 0, 0)
    ensures END_OF_DAY[9] != START_OF_DAY[9]
  {
  }
}
