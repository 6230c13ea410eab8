// Backup archive names (nebula_app/src/backup_remote.rs): a Unix time becomes a
// UTC timestamp by closed-form Gregorian arithmetic, and the listing, restore and
// retention code trusts that comparing names compares times.
module Calendar {

  datatype Utc = Utc(year: int, month: int, day: int, hour: int, minute: int, second: int)

  const SECONDS_PER_DAY := 86_400

  // The first second of year 10000, where the four-digit year ends.
  const END_OF_NAMES := 253_402_300_800

  function UtcParts(secs: nat): Utc {
    var days := secs / SECONDS_PER_DAY;
    var rem := secs % SECONDS_PER_DAY;
    var z := days + 719_468;
    var era := z / 146_097;
    var doe := z % 146_097;
    var yoe := YearOfEra(doe);
    var doy := doe - (365 * yoe + yoe / 4 - yoe / 100);
    var mp := (5 * doy + 2) / 153;
    var day := doy - (153 * mp + 2) / 5 + 1;
    var month := if mp < 10 then mp + 3 else mp - 9;
    var year := yoe + era * 400 + (if month <= 2 then 1 else 0);
    Utc(year, month, day, rem / 3_600, rem % 3_600 / 60, rem % 60)
  }

  function YearOfEra(doe: nat): int {
    (doe - doe / 1_460 + doe / 36_524 - doe / 146_096) / 365
  }

  // ---- the calendar itself, counted year by year and month by month ----

  // The leap-year rule of Appendix C of RFC 3339.
  predicate Leap(year: int) {
    year % 4 == 0 && (year % 100 != 0 || year % 400 == 0)
  }

  function MonthLength(year: int, month: int): int {
    if month == 2 then (if Leap(year) then 29 else 28)
    else if month == 4 || month == 6 || month == 9 || month == 11 then 30
    else 31
  }

  predicate ValidDate(year: int, month: int, day: int) {
    1 <= month <= 12 && 1 <= day <= MonthLength(year, month)
  }

  predicate Valid(t: Utc) {
    ValidDate(t.year, t.month, t.day) && 0 <= t.hour < 24 && 0 <= t.minute < 60 && 0 <= t.second < 60
  }

  function YearLength(year: int): int { if Leap(year) then 366 else 365 }

  // Days from 1 January 1970 to 1 January of `year`.
  function DaysToYear(year: int): int
    requires year >= 1970
  {
    if year == 1970 then 0 else DaysToYear(year - 1) + YearLength(year - 1)
  }

  function DaysToMonth(year: int, month: int): int
    requires 1 <= month <= 12
  {
    if month == 1 then 0 else DaysToMonth(year, month - 1) + MonthLength(year, month - 1)
  }

  // Days since the epoch, counted on the calendar.
  function DayNumber(year: int, month: int, day: int): int
    requires year >= 1970 && 1 <= month <= 12
  {
    DaysToYear(year) + DaysToMonth(year, month) + day - 1
  }

  function Seconds(t: Utc): int
    requires t.year >= 1970 && 1 <= t.month <= 12
  {
    DayNumber(t.year, t.month, t.day) * SECONDS_PER_DAY + t.hour * 3_600 + t.minute * 60 + t.second
  }

  // ---- closed forms ----

  // Leap days in the years 1 .. year.
  function LeapDays(year: int): int { year / 4 - year / 100 + year / 400 }

  lemma LeapDaysStep(year: int)
    ensures LeapDays(year) == LeapDays(year - 1) + (if Leap(year) then 1 else 0)
  {
    FourthYears(year);
    Centuries100(year);
    Centuries400(year);
  }

  lemma FourthYears(year: int)
    ensures year / 4 == (year - 1) / 4 + (if year % 4 == 0 then 1 else 0)
  {
  }

  lemma Centuries100(year: int)
    ensures year / 100 == (year - 1) / 100 + (if year % 100 == 0 then 1 else 0)
    ensures year % 100 == 0 ==> year % 4 == 0
  {
  }

  lemma Centuries400(year: int)
    ensures year / 400 == (year - 1) / 400 + (if year % 400 == 0 then 1 else 0)
    ensures year % 400 == 0 ==> year % 100 == 0
  {
  }

  lemma {:induction false} DaysToYearClosed(year: int)
    requires year >= 1970
    ensures DaysToYear(year) == 365 * (year - 1970) + LeapDays(year - 1) - 477
    decreases year
  {
    hide LeapDays;
    hide Leap;
    if year > 1970 {
      DaysToYearClosed(year - 1);
      LeapDaysStep(year - 1);
    } else {
      LeapDaysBefore1970();
    }
  }

  lemma LeapDaysBefore1970()
    ensures LeapDays(1969) == 477
  {
  }

  // Days before March-based year `yoe` of a 400-year era.
  function EraDays(yoe: int): int { 365 * yoe + yoe / 4 - yoe / 100 }

  // A day of the era, split into century, four-year cycle, year and day.
  lemma EraSplits(doe: nat) returns (c: nat, q: nat, i: nat, s: nat)
    requires doe < 146_097
    ensures c <= 3 && q <= 24 && i <= 3 && doe == 36_524 * c + 1_461 * q + 365 * i + s
    ensures s <= 364 || (s == 365 && i == 3 && (q < 24 || c == 3))
  {
    c := if doe / 36_524 < 3 then doe / 36_524 else 3;
    var d := doe - 36_524 * c;
    q := d / 1_461;
    var r := d - 1_461 * q;
    i := if r / 365 < 3 then r / 365 else 3;
    s := r - 365 * i;
  }

  // The closed form finds the year that contains the day.
  lemma YearOfEraIsRight(doe: nat)
    requires doe < 146_097
    ensures 0 <= YearOfEra(doe) < 400
    ensures 0 <= doe - EraDays(YearOfEra(doe)) <= (if Leap(YearOfEra(doe) + 1) then 365 else 364)
  {
    var c, q, i, s := EraSplits(doe);
    var y := 100 * c + 4 * q + i;
    YearOfEraFrom(doe, c, q, i, s);
    assert y / 4 == 25 * c + q;
    assert y / 100 == c;
    if s == 365 { LeapCycle(c, q); }
  }

  lemma YearOfEraFrom(doe: nat, c: nat, q: nat, i: nat, s: nat)
    requires c <= 3 && q <= 24 && i <= 3 && doe == 36_524 * c + 1_461 * q + 365 * i + s
    requires s <= 364 || (s == 365 && i == 3 && (q < 24 || c == 3))
    ensures YearOfEra(doe) == 100 * c + 4 * q + i
  {
    var t := 24 * c + q + 365 * i + s;
    var carry := if t >= 1_460 then 1 else 0;
    assert doe == 1_460 * (25 * c + q) + t;
    assert doe / 1_460 == 25 * c + q + carry;
    assert doe / 36_524 - doe / 146_096 == c by { Centuries(doe, c); }
    assert doe - doe / 1_460 + c == 365 * (100 * c + 4 * q + i) + (s - carry);
    assert 0 <= s - carry < 365;
  }

  lemma Centuries(doe: nat, c: nat)
    requires doe < 146_097 && c <= 3
    requires 36_524 * c <= doe && (doe < 36_524 * (c + 1) || (c == 3 && doe == 146_096))
    ensures doe / 36_524 - doe / 146_096 == c
  {
    if doe == 146_096 {
      assert doe / 36_524 == 4 && doe / 146_096 == 1;
    } else {
      assert doe / 146_096 == 0;
      assert doe / 36_524 == c;
    }
  }

  lemma LeapCycle(c: nat, q: nat)
    requires c <= 3 && q <= 24 && (q < 24 || c == 3)
    ensures Leap(100 * c + 4 * q + 4)
  {
    var y := 100 * c + 4 * q + 4;
    assert y % 4 == 0;
    if q < 24 { assert y % 100 == 4 * q + 4; }
  }

  // ---- month and day of a March-based year ----

  function MonthStart(mp: int): int { (153 * mp + 2) / 5 }

  lemma MonthIsRight(doy: int, year: int)
    requires 0 <= doy <= 365
    ensures
      var mp := (5 * doy + 2) / 153;
      var month := if mp < 10 then mp + 3 else mp - 9;
      && 0 <= mp <= 11 && MonthStart(mp) <= doy
      && 1 <= month <= 12
      && (month >= 3 ==> MonthStart(mp) == DaysToMonth(year, month) - DaysToMonth(year, 3))
      && (month < 3 ==> MonthStart(mp) == 306 + DaysToMonth(year, month))
      && (month != 2 ==> doy - MonthStart(mp) < MonthLength(year, month))
      && (month == 2 ==> doy - MonthStart(mp) == doy - 337)
  {
    hide Leap;
    var mp := (5 * doy + 2) / 153;
    MonthStarts(year);
    assert mp == 0 || mp == 1 || mp == 2 || mp == 3 || mp == 4 || mp == 5 || mp == 6 || mp == 7 || mp == 8 || mp == 9 || mp == 10 || mp == 11;
  }

  lemma MonthStarts(year: int)
    ensures DaysToMonth(year, 1) == 0 && DaysToMonth(year, 2) == 31
    ensures forall m :: 3 <= m <= 12 ==> DaysToMonth(year, m) == DaysToMonth(year, 3) + MonthStart(m - 3)
    ensures DaysToMonth(year, 3) == 31 + MonthLength(year, 2)
  {
    hide Leap;
    assert DaysToMonth(year, 2) == 31;
    assert DaysToMonth(year, 4) == DaysToMonth(year, 3) + 31;
    assert DaysToMonth(year, 5) == DaysToMonth(year, 3) + 61;
    assert DaysToMonth(year, 6) == DaysToMonth(year, 3) + 92;
    assert DaysToMonth(year, 7) == DaysToMonth(year, 3) + 122;
    assert DaysToMonth(year, 8) == DaysToMonth(year, 3) + 153;
    assert DaysToMonth(year, 9) == DaysToMonth(year, 3) + 184;
    assert DaysToMonth(year, 10) == DaysToMonth(year, 3) + 214;
    assert DaysToMonth(year, 11) == DaysToMonth(year, 3) + 245;
    assert DaysToMonth(year, 12) == DaysToMonth(year, 3) + 275;
  }

  // ---- the conversion inverts the calendar ----

  // The date of the day that lies `z` days after 1 March of year 0.
  function DateOf(z: nat): (int, int, int) {
    var yoe := YearOfEra(z % 146_097);
    var doy := z % 146_097 - EraDays(yoe);
    var mp := (5 * doy + 2) / 153;
    var month := if mp < 10 then mp + 3 else mp - 9;
    (yoe + z / 146_097 * 400 + (if month <= 2 then 1 else 0), month, doy - MonthStart(mp) + 1)
  }

  lemma YearIsAfterEpoch(z: nat)
    requires z >= 719_468
    ensures
      var yoe := YearOfEra(z % 146_097);
      var year := yoe + z / 146_097 * 400;
      year >= 1970 || (year == 1969 && z % 146_097 - EraDays(yoe) >= 306)
  {
    var era, doe := z / 146_097, z % 146_097;
    YearOfEraIsRight(doe);
    assert z == 146_097 * era + doe;
  }

  lemma LeapShifts(y: int, era: int)
    ensures Leap(y + 400 * era) == Leap(y)
    ensures LeapDays(y + 400 * era) == LeapDays(y) + 97 * era
  {
    assert (y + 400 * era) % 400 == y % 400 && (y + 400 * era) / 400 == y / 400 + era;
    assert (y + 400 * era) % 100 == y % 100 && (y + 400 * era) / 100 == y / 100 + 4 * era;
    assert (y + 400 * era) % 4 == y % 4 && (y + 400 * era) / 4 == y / 4 + 100 * era;
  }

  lemma DateIsRight(z: nat)
    requires z >= 719_468
    ensures
      var (year, month, day) := DateOf(z);
      year >= 1970 && ValidDate(year, month, day) && DayNumber(year, month, day) == z - 719_468
  {
    hide Leap;
    hide YearOfEra;
    var era, doe := z / 146_097, z % 146_097;
    var yoe := YearOfEra(doe);
    YearOfEraIsRight(doe);
    YearIsAfterEpoch(z);
    var doy := doe - EraDays(yoe);
    assert z == 146_097 * era + EraDays(yoe) + doy;
    DateInYear(z, era, yoe, doy);
  }

  lemma DateInYear(z: nat, era: int, yoe: int, doy: int)
    requires 0 <= yoe < 400 && 0 <= doy <= (if Leap(yoe + 1) then 365 else 364)
    requires z == 146_097 * era + EraDays(yoe) + doy && era == z / 146_097 && yoe == YearOfEra(z % 146_097)
    requires doy == z % 146_097 - EraDays(yoe)
    requires yoe + era * 400 >= 1970 || (yoe + era * 400 == 1969 && doy >= 306)
    ensures
      var (year, month, day) := DateOf(z);
      year >= 1970 && ValidDate(year, month, day) && DayNumber(year, month, day) == z - 719_468
  {
    hide Leap;
    hide YearOfEra;
    hide LeapDays;
    hide EraDays;
    var mp := (5 * doy + 2) / 153;
    var year := yoe + era * 400 + (if mp < 10 then 0 else 1);
    MonthIsRight(doy, year);
    MonthStarts(year);
    YearStart(era, yoe, year);
    LeapShifts(yoe + 1, era);
  }

  // 1 January of a year, counted from 1 March of year 0.
  lemma YearStart(era: int, yoe: int, year: int)
    requires 0 <= yoe < 400 && year >= 1970
    requires year == yoe + era * 400 || year == yoe + era * 400 + 1
    ensures
      DaysToYear(year) + 719_468 == 146_097 * era + EraDays(yoe) +
      (if year == yoe + era * 400 then -59 - (if Leap(year) then 1 else 0) else 306)
  {
    hide Leap;
    hide LeapDays;
    hide DaysToYear;
    DaysToYearClosed(year);
    LeapShifts(yoe, era);
    LeapDaysStep(year);
    assert LeapDays(yoe) == yoe / 4 - yoe / 100 by { LeapDaysInEra(yoe); }
  }

  lemma LeapDaysInEra(yoe: int)
    requires 0 <= yoe < 400
    ensures LeapDays(yoe) == yoe / 4 - yoe / 100
  {
  }

  // For every second since the epoch, the timestamp is a valid Gregorian date and
  // time, and counting back on the calendar returns exactly that second.
  lemma CalendarInverse(secs: nat)
    ensures
      var t := UtcParts(secs);
      t.year >= 1970 && Valid(t) && Seconds(t) == secs
  {
    hide YearOfEra;
    hide Leap;
    hide DaysToYear;
    var z := secs / SECONDS_PER_DAY + 719_468;
    DateIsRight(z);
    var t := UtcParts(secs);
    assert (t.year, t.month, t.day) == DateOf(z);
    TimeOfDay(secs % SECONDS_PER_DAY);
  }

  lemma TimeOfDay(rem: nat)
    requires rem < SECONDS_PER_DAY
    ensures rem / 3_600 < 24 && rem % 3_600 / 60 < 60 && rem == rem / 3_600 * 3_600 + rem % 3_600 / 60 * 60 + rem % 60
  {
    var h := rem / 3_600;
    assert rem % 60 == (rem - 3_600 * h) % 60;
  }

  // ---- calendar order is time order ----

  predicate Earlier(a: Utc, b: Utc) {
    || a.year < b.year
    || (a.year == b.year && (a.month < b.month
    || (a.month == b.month && (a.day < b.day
    || (a.day == b.day && (a.hour < b.hour
    || (a.hour == b.hour && (a.minute < b.minute
    || (a.minute == b.minute && a.second < b.second)))))))))
  }

  lemma {:induction false} MonthsAdvance(year: int, m: int, n: int)
    requires 1 <= m < n <= 12
    ensures DaysToMonth(year, m) + MonthLength(year, m) <= DaysToMonth(year, n)
    decreases n
  {
    if m < n - 1 { MonthsAdvance(year, m, n - 1); }
  }

  lemma {:induction false} YearsAdvance(y: int, z: int)
    requires 1970 <= y < z
    ensures DaysToYear(y) + YearLength(y) <= DaysToYear(z)
    decreases z
  {
    if y < z - 1 { YearsAdvance(y, z - 1); }
  }

  lemma DayWithinYear(year: int, month: int, day: int)
    requires year >= 1970 && ValidDate(year, month, day)
    ensures DaysToYear(year) <= DayNumber(year, month, day) < DaysToYear(year) + YearLength(year)
  {
    hide Leap;
    hide DaysToYear;
    MonthStarts(year);
  }

  lemma EarlierDayIsSmaller(a: Utc, b: Utc)
    requires a.year >= 1970 && b.year >= 1970 && ValidDate(a.year, a.month, a.day) && ValidDate(b.year, b.month, b.day)
    requires a.year < b.year || (a.year == b.year && (a.month < b.month || (a.month == b.month && a.day < b.day)))
    ensures DayNumber(a.year, a.month, a.day) < DayNumber(b.year, b.month, b.day)
  {
    hide Leap;
    hide DaysToYear;
    hide DaysToMonth;
    DayWithinYear(a.year, a.month, a.day);
    DayWithinYear(b.year, b.month, b.day);
    if a.year < b.year {
      YearsAdvance(a.year, b.year);
    } else if a.month < b.month {
      MonthsAdvance(a.year, a.month, b.month);
    }
  }

  lemma EarlierIsSmaller(a: Utc, b: Utc)
    requires a.year >= 1970 && b.year >= 1970 && Valid(a) && Valid(b) && Earlier(a, b)
    ensures Seconds(a) < Seconds(b)
  {
    hide DayNumber;
    hide ValidDate;
    if a.year != b.year || a.month != b.month || a.day != b.day {
      EarlierDayIsSmaller(a, b);
    }
  }

  lemma TimeOrderIsCalendarOrder(s: nat, t: nat)
    ensures s < t <==> Earlier(UtcParts(s), UtcParts(t))
    ensures s == t <==> UtcParts(s) == UtcParts(t)
  {
    hide UtcParts;
    hide Seconds;
    CalendarInverse(s);
    CalendarInverse(t);
    var a, b := UtcParts(s), UtcParts(t);
    if Earlier(a, b) {
      EarlierIsSmaller(a, b);
    } else if Earlier(b, a) {
      EarlierIsSmaller(b, a);
    }
  }

  lemma FourDigitYears(secs: nat)
    ensures UtcParts(secs).year <= 9999 <==> secs < END_OF_NAMES
  {
    hide UtcParts;
    hide DaysToYear;
    hide Leap;
    CalendarInverse(secs);
    var t := UtcParts(secs);
    DayWithinYear(t.year, t.month, t.day);
    DaysToYearClosed(10_000);
    assert DaysToYear(10_000) * SECONDS_PER_DAY == END_OF_NAMES;
    if t.year < 10_000 { YearsAdvance(t.year, 10_000); }
    if t.year > 10_000 { YearsAdvance(10_000, t.year); }
  }
}

module ArchiveNames {
  import opened Text
  import opened Calendar

  const PREFIX := "pebrel-backup-"
  const SUFFIX := ".nbk"

  function Digit(n: nat): char
    requires n < 10
  {
    '0' + n as char
  }

  // The last `width` decimal digits of a number.
  function Digits(n: nat, width: nat): (r: string)
    ensures |r| == width
    ensures forall i :: 0 <= i < width ==> '0' <= r[i] <= '9'
    decreases width
  {
    if width == 0 then "" else Digits(n / 10, width - 1) + [Digit(n % 10)]
  }

  function Decimal(n: nat): (r: string)
    ensures |r| >= 1
  {
    if n < 10 then [Digit(n)] else Decimal(n / 10) + [Digit(n % 10)]
  }

  // `{:04}`: zero-padded to four digits, longer when it has to be.
  function Year(n: nat): string { if n < 10_000 then Digits(n, 4) else Decimal(n) }

  function TwoDigits(n: nat): string { if n < 100 then Digits(n, 2) else Decimal(n) }

  function Timestamp(secs: nat): string {
    CalendarInverse(secs);
    var t := UtcParts(secs);
    Year(t.year) + (TwoDigits(t.month) + (TwoDigits(t.day) + ("-" + (TwoDigits(t.hour) + (TwoDigits(t.minute) + TwoDigits(t.second))))))
  }

  function ArchiveName(secs: nat): string { PREFIX + Timestamp(secs) + SUFFIX }

  predicate IsTimestamp(s: string) {
    |s| == 15 && forall i :: 0 <= i < 15 ==> if i == 8 then s[i] == '-' else '0' <= s[i] <= '9'
  }

  function ArchiveTimestamp(name: string): Option<string> {
    if !(PREFIX <= name) then None
    else
      var rest := name[|PREFIX|..];
      if |rest| < |SUFFIX| || rest[|rest| - |SUFFIX|..] != SUFFIX then None
      else
        var stamp := rest[..|rest| - |SUFFIX|];
        if IsTimestamp(stamp) then Some(stamp) else None
  }

  predicate IsArchiveName(name: string) { ArchiveTimestamp(name).Some? }

  predicate AllDigits(s: string) { forall i :: 0 <= i < |s| ==> '0' <= s[i] <= '9' }

  // pebrel-backup-DDDDDDDD-DDDDDD.nbk
  ghost predicate HasForm(name: string, date: string, time: string) {
    && |date| == 8 && |time| == 6 && AllDigits(date) && AllDigits(time)
    && name == "pebrel-backup-" + (date + "-" + time) + ".nbk"
  }

  lemma StampForm(date: string, time: string)
    requires |date| == 8 && |time| == 6
    ensures IsTimestamp(date + "-" + time) <==> AllDigits(date) && AllDigits(time)
  {
    var stamp := date + "-" + time;
    assert forall i :: 0 <= i < 8 ==> stamp[i] == date[i];
    assert forall i :: 0 <= i < 6 ==> stamp[i + 9] == time[i];
    if AllDigits(date) && AllDigits(time) {
      forall i | 0 <= i < 15 ensures if i == 8 then stamp[i] == '-' else '0' <= stamp[i] <= '9' {
        if i > 8 { assert stamp[i] == time[i - 9]; }
      }
    }
  }

  lemma ArchiveHasForm(name: string) returns (date: string, time: string)
    requires IsArchiveName(name)
    ensures HasForm(name, date, time)
  {
    hide AllDigits;
    var stamp := ArchiveTimestamp(name).value;
    var rest := name[|PREFIX|..];
    date, time := stamp[..8], stamp[9..];
    assert stamp == date + "-" + time;
    StampForm(date, time);
    assert rest == stamp + SUFFIX && name == PREFIX + rest;
    assert name == PREFIX + stamp + SUFFIX;
  }

  lemma FormIsArchive(name: string, date: string, time: string)
    requires HasForm(name, date, time)
    ensures IsArchiveName(name)
  {
    hide AllDigits;
    var stamp := date + "-" + time;
    StampForm(date, time);
    hide IsTimestamp;
    assert name == PREFIX + (stamp + SUFFIX);
    assert name[|PREFIX|..] == stamp + SUFFIX;
    assert (stamp + SUFFIX)[|stamp|..] == SUFFIX && (stamp + SUFFIX)[..|stamp|] == stamp;
  }

  // Exactly the names of this form are archives; every other file of the remote is left
  // alone.
  lemma ArchiveNamesExactly(name: string)
    ensures IsArchiveName(name) <==> exists date, time :: HasForm(name, date, time)
  {
    hide HasForm;
    hide IsArchiveName;
    if IsArchiveName(name) { var date, time := ArchiveHasForm(name); }
    if date, time :| HasForm(name, date, time) { FormIsArchive(name, date, time); }
  }

  function Power10(w: nat): nat { if w == 0 then 1 else 10 * Power10(w - 1) }

  // Fixed-width numbers compare like the numbers they spell.
  lemma {:induction false} DigitsOrder(a: nat, b: nat, w: nat, x: string, y: string)
    requires a < Power10(w) && b < Power10(w)
    ensures LexLess(Digits(a, w) + x, Digits(b, w) + y) <==> a < b || (a == b && LexLess(x, y))
    decreases w
  {
    if w == 0 {
      assert Digits(a, w) + x == x && Digits(b, w) + y == y;
    } else {
      var c, d := Digit(a % 10), Digit(b % 10);
      assert Digits(a, w) + x == Digits(a / 10, w - 1) + ([c] + x);
      assert Digits(b, w) + y == Digits(b / 10, w - 1) + ([d] + y);
      DigitsOrder(a / 10, b / 10, w - 1, [c] + x, [d] + y);
      LexCons(c, d, x, y);
    }
  }

  lemma Powers()
    ensures Power10(2) == 100 && Power10(4) == 10_000
  {
    assert Power10(1) == 10;
    assert Power10(3) == 1_000;
  }

  lemma TimestampOrder(s: nat, t: nat)
    requires s < END_OF_NAMES && t < END_OF_NAMES
    ensures LexLess(Timestamp(s), Timestamp(t)) <==> s < t
  {
    hide UtcParts;
    hide Digits;
    hide LexLess;
    CalendarInverse(s);
    CalendarInverse(t);
    FourDigitYears(s);
    FourDigitYears(t);
    TimeOrderIsCalendarOrder(s, t);
    Powers();
    var a, b := UtcParts(s), UtcParts(t);
    SecondsOrder(a.second, b.second);
    var sa, sb := TwoDigits(a.second), TwoDigits(b.second);
    DigitsOrder(a.minute, b.minute, 2, sa, sb);
    var ma, mb := TwoDigits(a.minute) + sa, TwoDigits(b.minute) + sb;
    DigitsOrder(a.hour, b.hour, 2, ma, mb);
    var ha, hb := TwoDigits(a.hour) + ma, TwoDigits(b.hour) + mb;
    LexSamePrefix("-", ha, hb);
    DigitsOrder(a.day, b.day, 2, "-" + ha, "-" + hb);
    var da, db := TwoDigits(a.day) + ("-" + ha), TwoDigits(b.day) + ("-" + hb);
    DigitsOrder(a.month, b.month, 2, da, db);
    DigitsOrder(a.year, b.year, 4, TwoDigits(a.month) + da, TwoDigits(b.month) + db);
  }

  lemma SecondsOrder(a: nat, b: nat)
    requires a < 60 && b < 60
    ensures LexLess(TwoDigits(a), TwoDigits(b)) <==> a < b
  {
    hide LexLess;
    Powers();
    DigitsOrder(a, b, 2, "", "");
    assert Digits(a, 2) + "" == Digits(a, 2) && Digits(b, 2) + "" == Digits(b, 2);
    LexIrreflexive("");
  }

  lemma TimestampShape(secs: nat)
    ensures IsTimestamp(Timestamp(secs)) <==> secs < END_OF_NAMES
  {
    hide UtcParts;
    hide Digits;
    CalendarInverse(secs);
    FourDigitYears(secs);
    var t := UtcParts(secs);
    if secs >= END_OF_NAMES { DecimalIsLong(t.year); }
  }

  lemma DecimalIsLong(n: nat)
    requires n >= 10_000
    ensures |Decimal(n)| >= 5
  {
    assert |Decimal(n / 10)| >= 4 by {
      assert |Decimal(n / 10 / 10)| >= 3 by { assert |Decimal(n / 10 / 10 / 10)| >= 2; }
    }
  }

  // A name is recognised as an archive exactly while the year has four digits.
  lemma NameIsAccepted(secs: nat)
    ensures IsArchiveName(ArchiveName(secs)) <==> secs < END_OF_NAMES
    ensures secs < END_OF_NAMES ==> ArchiveTimestamp(ArchiveName(secs)) == Some(Timestamp(secs))
  {
    hide Timestamp;
    var stamp := Timestamp(secs);
    TimestampShape(secs);
    var name := ArchiveName(secs);
    assert name[|PREFIX|..] == stamp + SUFFIX;
    assert (stamp + SUFFIX)[|stamp|..] == SUFFIX && (stamp + SUFFIX)[..|stamp|] == stamp;
  }

  // The first second of year 10000.
  lemma FiveDigitYearHappens() returns (secs: nat)
    ensures secs == END_OF_NAMES && !IsArchiveName(ArchiveName(secs))
  {
    hide IsArchiveName;
    hide ArchiveName;
    secs := END_OF_NAMES;
    NameIsAccepted(secs);
  }

  // Comparing names compares times, and no two times share a name.
  lemma NameOrderIsTimeOrder(s: nat, t: nat)
    requires s < END_OF_NAMES && t < END_OF_NAMES
    ensures LexLess(ArchiveName(s), ArchiveName(t)) <==> s < t
    ensures ArchiveName(s) == ArchiveName(t) <==> s == t
  {
    hide Timestamp;
    hide LexLess;
    TimestampOrder(s, t);
    TimestampOrder(t, s);
    TimestampShape(s);
    TimestampShape(t);
    LexSameSuffix(Timestamp(s), Timestamp(t), SUFFIX);
    LexSamePrefix(PREFIX, Timestamp(s) + SUFFIX, Timestamp(t) + SUFFIX);
    assert ArchiveName(s) == PREFIX + (Timestamp(s) + SUFFIX) && ArchiveName(t) == PREFIX + (Timestamp(t) + SUFFIX);
    LexIrreflexive(ArchiveName(s));
    LexSameSuffix(Timestamp(t), Timestamp(s), SUFFIX);
    LexSamePrefix(PREFIX, Timestamp(t) + SUFFIX, Timestamp(s) + SUFFIX);
  }
}
