/**
 Which stamps are read, and as what: a stamp is the padded numbers of a date and time that is in
 range, and its instant counts milliseconds from the start of 1970.
 */
module IsoStamps {
  import opened Basics
  import opened Texts
  import opened IsoTime

  function DigitChar(d: nat): char
    requires d < 10
  {
    "0123456789"[d]
  }

  /** The number with leading zeros. */
  function Padded(n: nat, width: nat): (s: string)
    ensures |s| == width
  {
    if width == 0 then "" else Padded(n / 10, width - 1) + [DigitChar(n % 10)]
  }

  function Stamp(f: Fields): string {
    Padded(f.year, 4) + "-" + Padded(f.month, 2) + "-" + Padded(f.day, 2) + "T"
    + Padded(f.hour, 2) + ":" + Padded(f.minute, 2) + ":" + Padded(f.second, 2) + "." + Padded(f.millisecond, 3) + "Z"
  }

  /** What the reader asks of a date and time. */
  predicate Readable(f: Fields) {
    && f.year < 10000 && 1 <= f.month <= 12 && 1 <= f.day <= 31 && f.millisecond < 1000
    && ((f.hour < 24 && f.minute < 60 && f.second < 60) || (f.hour == 24 && f.minute + f.second + f.millisecond == 0))
  }

  // ---------- Digits ----------

  lemma DigitExactly(c: char, d: nat)
    requires d < 10
    ensures Digit(c) && Value(c) == d <==> c == DigitChar(d)
  {
  }

  lemma PairExactly(s: string, k: nat, n: nat)
    requires k + 2 <= |s| && n < 100
    ensures DigitPair(s, k) && Two(s, k) == n <==> s[k..k + 2] == Padded(n, 2)
  {
    hide Value, Digit, DigitChar;
    DigitExactly(s[k], n / 10);
    DigitExactly(s[k + 1], n % 10);
    TwoPadded(n);
    if DigitPair(s, k) && Two(s, k) == n {
      assert Value(s[k]) == n / 10 && Value(s[k + 1]) == n % 10;
      assert s[k..k + 2] == [s[k], s[k + 1]];
    }
    if s[k..k + 2] == Padded(n, 2) {
      assert s[k] == s[k..k + 2][0] && s[k + 1] == s[k..k + 2][1];
    }
  }

  lemma TwoPadded(n: nat)
    requires n < 100
    ensures Padded(n, 2) == [DigitChar(n / 10), DigitChar(n % 10)]
  {
    assert n / 10 % 10 == n / 10;
    assert Padded(n / 10, 1) == Padded(n / 10 / 10, 0) + [DigitChar(n / 10)];
  }

  lemma ThreePadded(n: nat)
    requires n < 1000
    ensures Padded(n, 3) == Padded(n / 10, 2) + [DigitChar(n % 10)]
  {
  }

  lemma FourPadded(n: nat)
    requires n < 10000
    ensures Padded(n, 4) == Padded(n / 100, 2) + Padded(n % 100, 2)
  {
    assert n / 10 / 10 == n / 100 && n / 10 % 10 == n % 100 / 10 && n % 10 == n % 100 % 10;
    TwoPadded(n % 100);
    assert Padded(n, 4) == Padded(n / 10, 3) + [DigitChar(n % 10)];
    assert Padded(n / 10, 3) == Padded(n / 100, 2) + [DigitChar(n / 10 % 10)];
  }

  lemma YearExactly(s: string, year: nat)
    requires |s| >= 4 && year < 10000
    ensures DigitPair(s, 0) && DigitPair(s, 2) && 100 * Two(s, 0) + Two(s, 2) == year <==> s[0..4] == Padded(year, 4)
  {
    hide Two, DigitPair, Padded;
    FourPadded(year);
    PairExactly(s, 0, year / 100);
    PairExactly(s, 2, year % 100);
    assert s[0..4] == s[0..2] + s[2..4];
    if s[0..4] == Padded(year, 4) {
      assert s[0..2] == s[0..4][..2] && s[2..4] == s[0..4][2..];
    }
    if DigitPair(s, 0) && DigitPair(s, 2) && 100 * Two(s, 0) + Two(s, 2) == year {
      TwoIsSmall(s, 2);
    }
  }

  lemma MillisecondExactly(s: string, n: nat)
    requires |s| == 24 && n < 1000
    ensures DigitPair(s, 20) && Digit(s[22]) && 10 * Two(s, 20) + Value(s[22]) == n <==> s[20..23] == Padded(n, 3)
  {
    hide Two, DigitPair, Padded, Value, Digit, DigitChar;
    ThreePadded(n);
    PairExactly(s, 20, n / 10);
    DigitExactly(s[22], n % 10);
    assert s[20..23] == s[20..22] + [s[22]];
    if s[20..23] == Padded(n, 3) {
      assert s[20..22] == s[20..23][..2] && s[22] == s[20..23][2];
    }
  }

  // ---------- The whole stamp ----------

  /** The stamp, part by part. */
  predicate Cut(s: string, f: Fields) {
    && |s| == 24
    && s[0..4] == Padded(f.year, 4) && s[4] == '-' && s[5..7] == Padded(f.month, 2) && s[7] == '-'
    && s[8..10] == Padded(f.day, 2) && s[10] == 'T' && s[11..13] == Padded(f.hour, 2) && s[13] == ':'
    && s[14..16] == Padded(f.minute, 2) && s[16] == ':' && s[17..19] == Padded(f.second, 2) && s[19] == '.'
    && s[20..23] == Padded(f.millisecond, 3) && s[23] == 'Z'
  }

  lemma CutExactly(s: string, f: Fields)
    ensures s == Stamp(f) <==> Cut(s, f)
  {
    hide Padded;
    if Cut(s, f) {
      assert s[..8] == s[0..4] + "-" + s[5..7] + "-";
      assert s[..14] == s[..8] + s[8..10] + "T" + s[11..13] + ":";
      assert s[..20] == s[..14] + s[14..16] + ":" + s[17..19] + ".";
      assert s == s[..20] + s[20..23] + "Z";
    }
  }

  predicate SmallFields(f: Fields) {
    && f.year < 10000 && f.month < 100 && f.day < 100 && f.hour < 100 && f.minute < 100 && f.second < 100
    && f.millisecond < 1000
  }

  lemma FieldsAreSmall(s: string)
    requires IsIso(s)
    ensures SmallFields(FieldsOf(s))
  {
    hide Two, DigitPair;
    TwoIsSmall(s, 0);
    TwoIsSmall(s, 2);
    TwoIsSmall(s, 5);
    TwoIsSmall(s, 8);
    TwoIsSmall(s, 11);
    TwoIsSmall(s, 14);
    TwoIsSmall(s, 17);
    TwoIsSmall(s, 20);
  }

  /** A text has the shape of a stamp, with these numbers, exactly when it is the stamp of these numbers. */
  lemma StampExactly(s: string, f: Fields)
    requires SmallFields(f)
    ensures IsIso(s) && FieldsOf(s) == f <==> s == Stamp(f)
  {
    hide Two, DigitPair, Padded, Value, Digit, Stamp;
    CutExactly(s, f);
    if |s| == 24 {
      YearExactly(s, f.year);
      PairExactly(s, 5, f.month);
      PairExactly(s, 8, f.day);
      PairExactly(s, 11, f.hour);
      PairExactly(s, 14, f.minute);
      PairExactly(s, 17, f.second);
      MillisecondExactly(s, f.millisecond);
    }
  }

  /** A text is read exactly if it is the stamp of a readable date and time, and as the instant of that. */
  lemma ParseExactly(s: string, at: int)
    ensures Parse(s) == Some(at) <==> exists f | s == Stamp(f) :: Readable(f) && at == Instant(f)
  {
    hide IsIso, FieldsOf, Stamp, Instant;
    if IsIso(s) {
      FieldsAreSmall(s);
      StampExactly(s, FieldsOf(s));
    }
    if f :| s == Stamp(f) && Readable(f) && at == Instant(f) {
      StampExactly(s, f);
    }
  }

  // ---------- The instant ----------

  const MONTH_DAYS: seq<nat> := [31, 28, 31, 30, 31, 30, 31, 31, 30, 31, 30, 31]

  lemma MonthsExactly(year: nat, month: nat)
    requires 1 <= month <= 12
    ensures DaysInMonth(year, month) == MONTH_DAYS[month - 1] + if month == 2 && Leap(year) then 1 else 0
  {
  }

  function FirstDay(year: nat, month: nat): Fields { Fields(year, month, 1, 0, 0, 0, 0) }

  /** The count of milliseconds starts with 1970. */
  lemma EpochExactly()
    ensures Instant(FirstDay(1970, 1)) == 0
  {
    assert DaysBeforeYear(1970) == EPOCH && DaysBeforeMonth(1970, 1) == 0;
  }

  /** Within a month, days and times of day count up. */
  lemma TimeExactly(f: Fields)
    requires InRange(f)
    ensures Instant(f) == Instant(FirstDay(f.year, f.month)) + 86_400_000 * (f.day - 1)
      + 3_600_000 * f.hour + 60_000 * f.minute + 1000 * f.second + f.millisecond
  {
    hide DaysBeforeYear, DaysBeforeMonth;
    assert DayOf(f) == DayOf(FirstDay(f.year, f.month)) + f.day - 1;
  }

  lemma MonthExactly(year: nat, month: nat)
    requires 1 <= month < 12
    ensures Instant(FirstDay(year, month + 1)) == Instant(FirstDay(year, month)) + 86_400_000 *
      (MONTH_DAYS[month - 1] + if month == 2 && year % 4 == 0 && (year % 100 != 0 || year % 400 == 0) then 1 else 0)
  {
    MonthsExactly(year, month);
    MonthLengths(year, month);
    hide DaysBeforeYear, DaysBeforeMonth, DaysInMonth;
    assert DayOf(FirstDay(year, month + 1)) == DayOf(FirstDay(year, month)) + DaysInMonth(year, month);
  }

  /** Months and years follow one another. */
  lemma YearEndExactly(year: nat)
    ensures Instant(FirstDay(year + 1, 1)) == Instant(FirstDay(year, 12)) + 86_400_000 * 31
  {
    MonthLengths(year, 12);
    YearLength(year);
    assert DaysBeforeMonth(year + 1, 1) == 0;
    hide DaysBeforeYear, DaysBeforeMonth;
    assert DayOf(FirstDay(year + 1, 1)) == DayOf(FirstDay(year, 12)) + 31;
  }
}
