/** The civil calendar: days and seconds since the Unix epoch. */
module Calendar {
  import opened Arithmetic

  const EPOCH_YEAR := 1970
  const SECONDS_PER_DAY := 86_400

  predicate IsLeapYear(year: nat) {
    year % 4 == 0 && (year % 100 != 0 || year % 400 == 0)
  }

  function DaysInMonth(year: nat, month: nat): nat {
    match month
    case 1 => 31
    case 2 => if IsLeapYear(year) then 29 else 28
    case 3 => 31
    case 4 => 30
    case 5 => 31
    case 6 => 30
    case 7 => 31
    case 8 => 31
    case 9 => 30
    case 10 => 31
    case 11 => 30
    case 12 => 31
    case _ => 0
  }

  datatype Date = Date(year: nat, month: nat, day: nat)
  {
    predicate Valid() {
      year >= EPOCH_YEAR && 1 <= month <= 12 && 1 <= day <= DaysInMonth(year, month)
    }

    predicate Before(that: Date) {
      year < that.year || (year == that.year && (month < that.month || (month == that.month && day < that.day)))
    }
  }

  /** `days_from_epoch`: years counted from March, eras of 400 years. */
  function DaysFromEpoch(d: Date): int {
    var shiftedYear := d.year - (if d.month <= 2 then 1 else 0);
    var era := shiftedYear / 400;
    var yearOfEra := shiftedYear - era * 400;
    var shiftedMonth := if d.month > 2 then d.month - 3 else d.month + 9;
    var dayOfYear := (153 * shiftedMonth + 2) / 5 + d.day - 1;
    var dayOfEra := yearOfEra * 365 + yearOfEra / 4 - yearOfEra / 100 + dayOfYear;
    era * 146_097 + dayOfEra - 719_468
  }

  // ---- The plain definition: lengths added up

  function YearLength(year: nat): nat {
    if IsLeapYear(year) then 366 else 365
  }

  function YearStart(year: nat): nat
    requires year >= EPOCH_YEAR
  {
    if year == EPOCH_YEAR then 0 else YearStart(year - 1) + YearLength(year - 1)
  }

  function MonthStart(year: nat, month: nat): nat
    requires 1 <= month <= 13
  {
    if month == 1 then 0 else MonthStart(year, month - 1) + DaysInMonth(year, month - 1)
  }

  function DayNumber(d: Date): nat
    requires d.Valid()
  {
    YearStart(d.year) + MonthStart(d.year, d.month) + d.day - 1
  }

  /** Leap years up to and including `year`. */
  function Leaps(year: nat): int {
    year / 4 - year / 100 + year / 400
  }

  lemma LeapsStep(year: nat)
    requires year > 0
    ensures Leaps(year) == Leaps(year - 1) + if IsLeapYear(year) then 1 else 0
  {
    QuotientStep(year, 4);
    QuotientStep(year, 100);
    QuotientStep(year, 400);
    Centuries(year);
  }

  lemma Centuries(year: nat)
    ensures year % 400 == 0 ==> year % 100 == 0
    ensures year % 100 == 0 ==> year % 4 == 0
  {
    if year % 400 == 0 { NoRemainder(year, 100, 4 * (year / 400)); }
    if year % 100 == 0 { NoRemainder(year, 4, 25 * (year / 100)); }
  }

  lemma QuotientStep(x: nat, k: nat)
    requires x > 0 && k > 0
    ensures x / k == (x - 1) / k + if x % k == 0 then 1 else 0
  {
    var q, r := x / k, x % k;
    assert x == q * k + r;
    if r > 0 {
      Quotient(x - 1, k, q);
    } else {
      assert q > 0 && (q - 1) * k == q * k - k;
      Quotient(x - 1, k, q - 1);
    }
  }

  lemma {:induction false} YearStartClosed(year: nat)
    requires year >= EPOCH_YEAR
    ensures YearStart(year) == 365 * (year - EPOCH_YEAR) + Leaps(year - 1) - 477
  {
    if year > EPOCH_YEAR {
      YearStartClosed(year - 1);
      LeapsStep(year - 1);
    }
  }

  lemma EraSplit(year: nat)
    ensures var era, rest := year / 400, year - year / 400 * 400;
            era * 146_097 + rest * 365 + rest / 4 - rest / 100 == 365 * year + Leaps(year)
  {
    var era, rest := year / 400, year - year / 400 * 400;
    DivSplit(100 * era, rest, 4);
    DivSplit(4 * era, rest, 100);
  }

  lemma MonthStartClosed(year: nat, month: nat)
    requires 1 <= month <= 12
    ensures month > 2 ==> MonthStart(year, month) == 59 + (if IsLeapYear(year) then 1 else 0) + (153 * (month - 3) + 2) / 5
    ensures month <= 2 ==> MonthStart(year, month) == (153 * (month + 9) + 2) / 5 - 306
  {
  }

  /** The fast formula adds up the lengths of years and months, for every year
      from 1970; in particular its last subtraction never goes below zero. */
  lemma DaysExact(d: Date)
    requires d.Valid()
    ensures DaysFromEpoch(d) == DayNumber(d)
  {
    YearStartClosed(d.year);
    MonthStartClosed(d.year, d.month);
    LeapsStep(d.year);
    EraSplit(if d.month <= 2 then d.year - 1 else d.year);
  }

  // ---- Consecutive dates, bijection

  function NextDay(d: Date): (r: Date)
    requires d.Valid()
    ensures r.Valid()
  {
    if d.day < DaysInMonth(d.year, d.month) then d.(day := d.day + 1)
    else if d.month < 12 then Date(d.year, d.month + 1, 1)
    else Date(d.year + 1, 1, 1)
  }

  lemma MonthsMakeYear(year: nat)
    ensures MonthStart(year, 13) == YearLength(year)
  {
    MonthStartClosed(year, 12);
  }

  lemma NextIsNext(d: Date)
    requires d.Valid()
    ensures DayNumber(NextDay(d)) == DayNumber(d) + 1
  {
    if d.day == DaysInMonth(d.year, d.month) && d.month == 12 {
      MonthsMakeYear(d.year);
    }
  }

  lemma {:induction false} MonthOrder(year: nat, m: nat, n: nat)
    requires 1 <= m < n <= 13
    ensures MonthStart(year, m) + DaysInMonth(year, m) <= MonthStart(year, n)
    decreases n - m
  {
    if m + 1 < n { MonthOrder(year, m, n - 1); }
  }

  lemma {:induction false} YearOrder(y: nat, z: nat)
    requires EPOCH_YEAR <= y < z
    ensures YearStart(y) + YearLength(y) <= YearStart(z)
    decreases z - y
  {
    if y + 1 < z { YearOrder(y, z - 1); }
  }

  lemma WithinYear(d: Date)
    requires d.Valid()
    ensures YearStart(d.year) <= DayNumber(d) < YearStart(d.year) + YearLength(d.year)
  {
    MonthsMakeYear(d.year);
    MonthOrder(d.year, d.month, 13);
  }

  lemma DaysOrder(a: Date, b: Date)
    requires a.Valid() && b.Valid() && a.Before(b)
    ensures DayNumber(a) < DayNumber(b)
  {
    if a.year < b.year {
      WithinYear(a);
      WithinYear(b);
      YearOrder(a.year, b.year);
    } else if a.month < b.month {
      MonthOrder(a.year, a.month, b.month);
    }
  }

  /** The date `n` days after the epoch, found by stepping. */
  function DateOf(n: nat): (d: Date)
    ensures d.Valid() && DayNumber(d) == n
  {
    if n == 0 then
      Date(EPOCH_YEAR, 1, 1)
    else
      NextIsNext(DateOf(n - 1));
      NextDay(DateOf(n - 1))
  }

  /** `days_from_epoch` is a bijection between valid dates and the naturals. */
  lemma DaysBijective(d: Date, n: nat)
    requires d.Valid()
    ensures DaysFromEpoch(d) == n <==> d == DateOf(n)
  {
    DaysExact(d);
    DaysExact(DateOf(n));
    if d.Before(DateOf(n)) { DaysOrder(d, DateOf(n)); }
    if DateOf(n).Before(d) { DaysOrder(DateOf(n), d); }
  }

  // ---- Seconds

  datatype CalendarTime = CalendarTime(year: nat, month: nat, day: nat, hour: nat, minute: nat, second: nat)
  {
    function Day(): Date { Date(year, month, day) }

    /** What `to_unix_seconds` accepts; `second` may be a leap second. */
    predicate Valid() { Day().Valid() && hour <= 23 && minute <= 59 && second <= 60 }

    function SecondOfDay(): nat { hour * 3_600 + minute * 60 + second }

    predicate Before(that: CalendarTime) {
      Day().Before(that.Day()) || (Day() == that.Day() &&
        (hour < that.hour || (hour == that.hour && (minute < that.minute || (minute == that.minute && second < that.second)))))
    }
  }

  datatype RtcError = BeforeEpoch(year: nat) | FieldOutOfRange(field: string, value: nat)

  datatype Result<T> = Ok(value: T) | Err(error: RtcError)

  function ToUnixSeconds(t: CalendarTime): (r: Result<int>)
    ensures r.Ok? <==> t.Valid()
    ensures r.Ok? ==> r.value == DayNumber(t.Day()) * SECONDS_PER_DAY + t.SecondOfDay()
  {
    if t.year < EPOCH_YEAR then Err(BeforeEpoch(t.year))
    else if t.month == 0 || t.month > 12 then Err(FieldOutOfRange("month", t.month))
    else if t.day == 0 || t.day > DaysInMonth(t.year, t.month) then Err(FieldOutOfRange("day", t.day))
    else if t.hour > 23 then Err(FieldOutOfRange("hour", t.hour))
    else if t.minute > 59 then Err(FieldOutOfRange("minute", t.minute))
    else if t.second > 60 then Err(FieldOutOfRange("second", t.second))
    else DaysExact(t.Day()); Ok(DaysFromEpoch(t.Day()) * SECONDS_PER_DAY + t.hour * 3_600 + t.minute * 60 + t.second)
  }

  /** A refusal names the first field out of range, coarsest first, and its
      value. */
  lemma RefusalNames(t: CalendarTime)
    ensures t.year < 1970 ==> ToUnixSeconds(t) == Err(BeforeEpoch(t.year))
    ensures t.year >= 1970 && !(1 <= t.month <= 12) ==> ToUnixSeconds(t) == Err(FieldOutOfRange("month", t.month))
    ensures t.year >= 1970 && 1 <= t.month <= 12 ==>
              if !(1 <= t.day <= DaysInMonth(t.year, t.month)) then ToUnixSeconds(t) == Err(FieldOutOfRange("day", t.day))
              else if t.hour >= 24 then ToUnixSeconds(t) == Err(FieldOutOfRange("hour", t.hour))
              else if t.minute >= 60 then ToUnixSeconds(t) == Err(FieldOutOfRange("minute", t.minute))
              else t.second > 60 ==> ToUnixSeconds(t) == Err(FieldOutOfRange("second", t.second))
  {
  }

  /** Later readings give larger counts, leap seconds aside. */
  lemma SecondsIncrease(a: CalendarTime, b: CalendarTime)
    requires a.Valid() && b.Valid() && a.second <= 59 && b.second <= 59 && a.Before(b)
    ensures ToUnixSeconds(a).value < ToUnixSeconds(b).value
  {
    hide ToUnixSeconds, DaysFromEpoch, DayNumber;
    if a.Day().Before(b.Day()) { DaysOrder(a.Day(), b.Day()); }
  }

  /** The first second of the next minute. */
  function NextMinute(t: CalendarTime): (r: CalendarTime)
    requires t.Valid()
    ensures r.Valid() && r.second == 0
  {
    if t.minute < 59 then t.(minute := t.minute + 1, second := 0)
    else if t.hour < 23 then t.(hour := t.hour + 1, minute := 0, second := 0)
    else
      var d := NextDay(t.Day());
      CalendarTime(d.year, d.month, d.day, 0, 0, 0)
  }

  /** A leap second counts as the first second of the next minute. */
  lemma LeapSecond(t: CalendarTime)
    requires t.Valid()
    ensures ToUnixSeconds(t.(second := 60)) == ToUnixSeconds(NextMinute(t))
  {
    hide ToUnixSeconds, DaysFromEpoch, DayNumber;
    assert t.(second := 60).Day() == t.Day();
    NextIsNext(t.Day());
  }
}
