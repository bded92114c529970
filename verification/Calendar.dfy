/**
  * The proleptic Gregorian calendar as ECMAScript dates use it, printing of a day as the first ten characters
  * of an ISO timestamp, and reading such a date back out of an event note.
  */
module Calendar {
  import opened Base
  import opened Decimal

  const DAY_SECONDS: int := 86_400

  /** The latest second a JavaScript date can hold; `toISOString` throws beyond it. */
  const MAX_DATE_SECONDS: int := 8_640_000_000_000

  const FIRST_YEAR: int := 2020
  const LAST_YEAR: int := 2100

  predicate IsLeap(y: int) {
    y % 4 == 0 && (y % 100 != 0 || y % 400 == 0)
  }

  /** Days from 1 January 1970 to 1 January of year `y`. */
  function DayFromYear(y: int): int {
    365 * (y - 1970) + (y - 1969) / 4 - (y - 1901) / 100 + (y - 1601) / 400
  }

  lemma FourYears(y: int)
    ensures (y - 1968) / 4 - (y - 1969) / 4 == if y % 4 == 0 then 1 else 0
  {
  }

  lemma HundredYears(y: int)
    ensures (y - 1900) / 100 - (y - 1901) / 100 == if y % 100 == 0 then 1 else 0
  {
  }

  lemma FourHundredYears(y: int)
    ensures (y - 1600) / 400 - (y - 1601) / 400 == if y % 400 == 0 then 1 else 0
  {
  }

  lemma CenturiesAreLeapYears(y: int)
    ensures y % 400 == 0 ==> y % 100 == 0
    ensures y % 100 == 0 ==> y % 4 == 0
  {
  }

  lemma YearLength(y: int)
    ensures DayFromYear(y + 1) - DayFromYear(y) == if IsLeap(y) then 366 else 365
  {
    FourYears(y);
    HundredYears(y);
    FourHundredYears(y);
    CenturiesAreLeapYears(y);
  }

  lemma {:induction false} YearsGrow(y: int, z: int)
    requires y <= z
    ensures DayFromYear(y) <= DayFromYear(z) && (y < z ==> DayFromYear(y) < DayFromYear(z))
    decreases z - y
  {
    if y < z {
      YearLength(y);
      YearsGrow(y + 1, z);
    }
  }

  function DaysInMonth(y: int, m: int): (n: int)
    requires 1 <= m <= 12
    ensures 28 <= n <= 31
  {
    if m == 2 then (if IsLeap(y) then 29 else 28)
    else if m == 4 || m == 6 || m == 9 || m == 11 then 30
    else 31
  }

  /** Days of year `y` before month `m`; month 13 stands for the end of the year. */
  function DaysBefore(y: int, m: int): (n: int)
    requires 1 <= m <= 13
    ensures n >= 0
    decreases m
  {
    if m == 1 then 0 else DaysBefore(y, m - 1) + DaysInMonth(y, m - 1)
  }

  /** Thirty days hath September, April, June and November. */
  lemma ThirtyDays(y: int)
    ensures forall m :: m in {4, 6, 9, 11} ==> DaysInMonth(y, m) == 30
  {
  }

  lemma ThirtyOneDays(y: int)
    ensures forall m :: m in {1, 3, 5, 7, 8, 10, 12} ==> DaysInMonth(y, m) == 31
  {
  }

  lemma February(y: int)
    ensures DaysInMonth(y, 2) == if (y % 4 == 0 && y % 100 != 0) || y % 400 == 0 then 29 else 28
  {
    CenturiesAreLeapYears(y);
  }

  lemma WholeYear(y: int)
    ensures DaysBefore(y, 13) == if IsLeap(y) then 366 else 365
  {
    assert DaysBefore(y, 4) == if IsLeap(y) then 91 else 90;
    assert DaysBefore(y, 7) == DaysBefore(y, 4) + 91;
    assert DaysBefore(y, 10) == DaysBefore(y, 7) + 92;
    assert DaysBefore(y, 13) == DaysBefore(y, 10) + 92;
  }

  datatype Date = Date(year: int, month: int, day: int)

  predicate IsDate(d: Date) {
    1 <= d.month <= 12 && 1 <= d.day <= DaysInMonth(d.year, d.month)
  }

  function DayNumber(d: Date): int
    requires IsDate(d)
  {
    DayFromYear(d.year) + DaysBefore(d.year, d.month) + d.day - 1
  }

  /** The year day `n` falls in, searching upwards from year `y`. */
  function YearFrom(n: int, y: int): (r: int)
    requires DayFromYear(y) <= n
    ensures y <= r && DayFromYear(r) <= n < DayFromYear(r + 1)
    decreases n - DayFromYear(y)
  {
    YearLength(y);
    if n < DayFromYear(y + 1) then y else YearFrom(n, y + 1)
  }

  /** The month of the day with `rest` days of the year before it, searching upwards from month `m`. */
  function MonthFrom(y: int, rest: int, m: int): (r: int)
    requires 1 <= m <= 12 && DaysBefore(y, m) <= rest < DaysBefore(y, 13)
    ensures m <= r <= 12 && DaysBefore(y, r) <= rest < DaysBefore(y, r + 1)
    decreases 12 - m
  {
    if m == 12 || rest < DaysBefore(y, m + 1) then m else MonthFrom(y, rest, m + 1)
  }

  /** The civil date of a day count. */
  function DateOf(n: nat): (d: Date)
    ensures IsDate(d) && DayNumber(d) == n && d.year >= 1970
  {
    var y := YearFrom(n, 1970);
    YearLength(y);
    WholeYear(y);
    var rest := n - DayFromYear(y);
    var m := MonthFrom(y, rest, 1);
    Date(y, m, rest - DaysBefore(y, m) + 1)
  }

  /** A day lies in or after year `y` exactly when it is not before that year's first day. */
  lemma YearBound(n: nat, y: int)
    ensures y <= DateOf(n).year <==> DayFromYear(y) <= n
  {
    var r := YearFrom(n, 1970);
    if y <= r {
      YearsGrow(y, r);
    } else {
      YearsGrow(r + 1, y);
    }
  }

  lemma {:induction false} MonthsGrow(y: int, m: int, n: int)
    requires 1 <= m < n <= 13
    ensures DaysBefore(y, m) + DaysInMonth(y, m) <= DaysBefore(y, n)
    decreases n - m
  {
    if m + 1 < n {
      MonthsGrow(y, m + 1, n);
    }
  }

  lemma DayIsInYear(d: Date)
    requires IsDate(d)
    ensures DayFromYear(d.year) <= DayNumber(d) < DayFromYear(d.year + 1)
  {
    MonthsGrow(d.year, d.month, 13);
    WholeYear(d.year);
    YearLength(d.year);
  }

  lemma SameYear(d: Date, e: Date)
    requires IsDate(d) && IsDate(e) && DayNumber(d) == DayNumber(e)
    ensures d.year >= e.year
  {
    DayIsInYear(d);
    DayIsInYear(e);
    if d.year < e.year {
      YearsGrow(d.year + 1, e.year);
    }
  }

  lemma SameMonth(y: int, m: int, n: int, a: int, b: int)
    requires 1 <= m <= 12 && 1 <= n <= 12 && 1 <= a <= DaysInMonth(y, m) && 1 <= b <= DaysInMonth(y, n)
    requires DaysBefore(y, m) + a == DaysBefore(y, n) + b
    ensures m >= n
  {
    if m < n {
      MonthsGrow(y, m, n);
    }
  }

  /** Different dates are different days. */
  lemma DayNumberInjective(d: Date, e: Date)
    requires IsDate(d) && IsDate(e) && DayNumber(d) == DayNumber(e)
    ensures d == e
  {
    SameYear(d, e);
    SameYear(e, d);
    SameMonth(d.year, d.month, e.month, d.day, e.day);
    SameMonth(d.year, e.month, d.month, e.day, d.day);
  }

  /** The civil date of a day count is the one date that has this count. */
  lemma DateOfIsInverse(d: Date)
    requires IsDate(d) && DayNumber(d) >= 0
    ensures DateOf(DayNumber(d)) == d
  {
    DayNumberInjective(DateOf(DayNumber(d)), d);
  }

  // ------------------------------------------------------------------ printing

  /** Years beyond four digits are printed with a sign and six digits. */
  function YearText(y: int): string
    requires y >= 0
  {
    if y < 10_000 then Padded(y, 4) else "+" + Padded(y, 6)
  }

  /** The first ten characters of the ISO form of a second. */
  function IsoDay(seconds: nat): string {
    var d := DateOf(seconds / DAY_SECONDS);
    (YearText(d.year) + "-" + Padded(d.month, 2) + "-" + Padded(d.day, 2))[..10]
  }

  /** A year of four digits, the month and the day, most significant digit first. */
  lemma IsoDayReads(seconds: nat)
    requires DateOf(seconds / 86_400).year < 10_000
    ensures var d := DateOf(seconds / 86_400);
            IsoDay(seconds) ==
            ['0' + (d.year / 1_000) as char, '0' + (d.year / 100 % 10) as char, '0' + (d.year / 10 % 10) as char,
             '0' + (d.year % 10) as char, '-', '0' + (d.month / 10) as char, '0' + (d.month % 10) as char,
             '-', '0' + (d.day / 10) as char, '0' + (d.day % 10) as char]
  {
    var d := DateOf(seconds / 86_400);
    ShortYear(d, IsoDay(seconds));
    TwoDigits(d.month);
    TwoDigits(d.day);
    TwoDigits(d.year / 100);
    FourDigits(d.year);
  }

  lemma TwoDigits(n: nat)
    requires n < 100
    ensures Padded(n, 2) == ['0' + (n / 10) as char, '0' + (n % 10) as char]
  {
    assert Padded(n / 10, 1) == Padded(n / 100, 0) + [DigitChar(n / 10 % 10)];
  }

  lemma FourDigits(n: nat)
    requires n < 10_000
    ensures Padded(n, 4) == ['0' + (n / 1_000) as char, '0' + (n / 100 % 10) as char, '0' + (n / 10 % 10) as char,
                             '0' + (n % 10) as char]
  {
    assert Padded(n / 10, 3) == Padded(n / 100, 2) + [DigitChar(n / 10 % 10)];
    TwoDigits(n / 100);
  }

  // ------------------------------------------------------------------ reading

  /** Four digits, dash, two digits, dash, two digits. */
  predicate DateAt(s: string, i: nat) {
    && i + 10 <= |s|
    && IsDigit(s[i]) && IsDigit(s[i + 1]) && IsDigit(s[i + 2]) && IsDigit(s[i + 3])
    && s[i + 4] == '-'
    && IsDigit(s[i + 5]) && IsDigit(s[i + 6])
    && s[i + 7] == '-'
    && IsDigit(s[i + 8]) && IsDigit(s[i + 9])
  }

  /** Where the pattern first matches at or after `i`. */
  function FindDate(s: string, i: nat): (r: Option<nat>)
    ensures r.Some? ==> i <= r.value && DateAt(s, r.value)
    decreases |s| - i
  {
    if i + 10 > |s| then None
    else if DateAt(s, i) then Some(i)
    else FindDate(s, i + 1)
  }

  /** A text of ten characters: digits, with dashes in the fifth and the eighth place. */
  ghost predicate IsDateText(t: string) {
    |t| == 10 && forall k :: 0 <= k < 10 ==> if k == 4 || k == 7 then t[k] == '-' else '0' <= t[k] <= '9'
  }

  lemma DateAtIff(s: string, i: nat)
    ensures DateAt(s, i) <==> i + 10 <= |s| && IsDateText(s[i..i + 10])
  {
    if i + 10 <= |s| {
      var t := s[i..i + 10];
      assert t[0] == s[i] && t[1] == s[i + 1] && t[2] == s[i + 2] && t[3] == s[i + 3] && t[4] == s[i + 4];
      assert t[5] == s[i + 5] && t[6] == s[i + 6] && t[7] == s[i + 7] && t[8] == s[i + 8] && t[9] == s[i + 9];
    }
  }

  /** The pattern is found where it matches first. */
  lemma {:induction false} FindsTheFirst(s: string, i: nat)
    ensures match FindDate(s, i)
            case Some(r) => DateAt(s, r) && forall j: nat :: i <= j < r ==> !DateAt(s, j)
            case None => forall j: nat :: i <= j ==> !DateAt(s, j)
    decreases |s| - i
  {
    if i + 10 <= |s| && !DateAt(s, i) {
      FindsTheFirst(s, i + 1);
    }
  }

  /** The date written at `i`. */
  function DateIn(s: string, i: nat): Date
    requires DateAt(s, i)
  {
    Date(ParseInt(s[i..i + 4]), ParseInt(s[i + 5..i + 7]), ParseInt(s[i + 8..i + 10]))
  }

  /** The second an event note's date denotes; 0 when there is none or its year is implausible. */
  function DateNoteToSec(note: string): (sec: nat) {
    var at := FindDate(note, 0);
    if at.None? then 0
    else
      var d := DateIn(note, at.value);
      if d.year < FIRST_YEAR || d.year > LAST_YEAR || !IsDate(d) then 0
      else
        YearsGrow(1970, d.year);
        DayNumber(d) * DAY_SECONDS
  }

  // ------------------------------------------------------------------ printing, then reading

  /** Unlock times the note can carry: those in the years 2020 to 2100. */
  predicate Showable(seconds: int) {
    1_577_836_800 <= seconds < 4_133_980_800
  }

  function Midnight(seconds: nat): nat {
    seconds / DAY_SECONDS * DAY_SECONDS
  }

  lemma ShowableDays(seconds: nat)
    ensures Showable(seconds) <==> DayFromYear(2020) <= seconds / DAY_SECONDS < DayFromYear(2101)
  {
    assert DayFromYear(2020) == 18_262 && DayFromYear(2101) == 47_847;
  }

  lemma ShowableIsYears(seconds: nat)
    ensures Showable(seconds) <==> FIRST_YEAR <= DateOf(seconds / DAY_SECONDS).year <= LAST_YEAR
  {
    var n := seconds / DAY_SECONDS;
    YearBound(n, 2020);
    YearBound(n, 2101);
    ShowableDays(seconds);
  }

  lemma {:induction false} FindSkips(s: string, i: nat, j: nat)
    requires i <= j && j + 10 <= |s|
    requires forall k :: i <= k < j ==> !IsDigit(s[k])
    ensures FindDate(s, i) == FindDate(s, j)
    decreases j - i
  {
    if i < j {
      assert !IsDigit(s[i]);
      FindSkips(s, i + 1, j);
    }
  }

  lemma SixDigitYears(y: int, rest: nat)
    requires DayFromYear(y) <= rest && rest <= MAX_DATE_SECONDS / DAY_SECONDS
    ensures y < 1_000_000
  {
  }

  /**
    * Printing an unlock time into a note and reading it back gives the UTC midnight it falls after, for every
    * second of the years 2020 to 2100, and the "unknown" value 0 for every other second that can be printed.
    */
  lemma NoteRoundTrip(prefix: string, seconds: nat)
    requires seconds <= MAX_DATE_SECONDS
    requires forall k :: 0 <= k < |prefix| ==> !IsDigit(prefix[k]) && prefix[k] != '-'
    ensures DateNoteToSec(prefix + IsoDay(seconds)) == if Showable(seconds) then Midnight(seconds) else 0
  {
    var d := DateOf(seconds / DAY_SECONDS);
    ShowableIsYears(seconds);
    SixDigitYears(d.year, seconds / DAY_SECONDS);
    if d.year < 10_000 {
      ReadShortYear(prefix, d, IsoDay(seconds));
    } else {
      LongYear(d, IsoDay(seconds));
      OneDashOnly(prefix, IsoDay(seconds));
      NothingToFind(prefix + IsoDay(seconds), 0);
    }
  }

  lemma DateBehind(prefix: string, d: Date, iso: string)
    requires IsDate(d) && 0 <= d.year < 10_000
    requires iso == (YearText(d.year) + "-" + Padded(d.month, 2) + "-" + Padded(d.day, 2))[..10]
    ensures DateAt(prefix + iso, |prefix|) && DateIn(prefix + iso, |prefix|) == d
  {
    var note, p := prefix + iso, |prefix|;
    ShortYear(d, iso);
    assert note[p..p + 4] == iso[..4];
    assert note[p + 5..p + 7] == iso[5..7];
    assert note[p + 8..p + 10] == iso[8..];
    PaddedRoundTrip(d.year, 4);
    PaddedRoundTrip(d.month, 2);
    PaddedRoundTrip(d.day, 2);
  }

  lemma DateIsFound(prefix: string, iso: string)
    requires DateAt(prefix + iso, |prefix|) && forall k :: 0 <= k < |prefix| ==> !IsDigit(prefix[k])
    ensures FindDate(prefix + iso, 0) == Some(|prefix|)
  {
    FindSkips(prefix + iso, 0, |prefix|);
  }

  lemma ReadShortYear(prefix: string, d: Date, iso: string)
    requires IsDate(d) && 1970 <= d.year < 10_000
    requires iso == (YearText(d.year) + "-" + Padded(d.month, 2) + "-" + Padded(d.day, 2))[..10]
    requires forall k :: 0 <= k < |prefix| ==> !IsDigit(prefix[k])
    ensures DateNoteToSec(prefix + iso) ==
            if FIRST_YEAR <= d.year <= LAST_YEAR then DayNumber(d) * DAY_SECONDS else 0
  {
    DateBehind(prefix, d, iso);
    DateIsFound(prefix, iso);
  }

  /** A year of more than four digits leaves a single dash in the ten characters, so no date is recognised. */
  lemma OneDashOnly(prefix: string, iso: string)
    requires |iso| == 10 && forall k :: 0 <= k < 10 && k != 7 ==> iso[k] != '-'
    requires forall k :: 0 <= k < |prefix| ==> prefix[k] != '-'
    ensures forall i: nat :: !DateAt(prefix + iso, i)
  {
  }

  lemma {:induction false} NothingToFind(s: string, i: nat)
    requires forall j: nat :: !DateAt(s, j)
    ensures FindDate(s, i) == None
    decreases |s| - i
  {
    if i + 10 <= |s| {
      NothingToFind(s, i + 1);
    }
  }

  lemma ShortYear(d: Date, iso: string)
    requires IsDate(d) && 0 <= d.year < 10_000
    requires iso == (YearText(d.year) + "-" + Padded(d.month, 2) + "-" + Padded(d.day, 2))[..10]
    ensures iso == Padded(d.year, 4) + "-" + Padded(d.month, 2) + "-" + Padded(d.day, 2)
    ensures |iso| == 10 && DateAt(iso, 0)
    ensures iso[..4] == Padded(d.year, 4) && iso[5..7] == Padded(d.month, 2) && iso[8..] == Padded(d.day, 2)
  {
  }

  lemma LongYear(d: Date, iso: string)
    requires IsDate(d) && d.year >= 10_000
    requires iso == (YearText(d.year) + "-" + Padded(d.month, 2) + "-" + Padded(d.day, 2))[..10]
    ensures |iso| == 10 && forall k :: 0 <= k < 10 && k != 7 ==> iso[k] != '-'
  {
    assert iso == "+" + Padded(d.year, 6) + "-" + Padded(d.month, 2);
  }
}
