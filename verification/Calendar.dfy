/** Two conversions of Unix seconds to a calendar date: the closed form of `format_datetime`
    (src/ipc/datetime.rs) and the subtraction loops of `format_http_date` (src/geo/downloader.rs),
    both against the Gregorian calendar counted year by year and month by month. */
module Calendar {
  import opened Bits

  newtype i64 = x: int | -0x8000_0000_0000_0000 <= x < 0x8000_0000_0000_0000

  /** Month and day count from one. */
  datatype DateTime = DateTime(year: nat, month: nat, day: nat, hour: nat, minute: nat, second: nat)

  // ----- the calendar

  predicate IsLeap(year: nat) {
    (year % 4 == 0 && year % 100 != 0) || year % 400 == 0
  }

  function DaysInYear(year: nat): nat {
    if IsLeap(year) then 366 else 365
  }

  function DaysInMonth(year: nat, month: nat): nat {
    if month == 2 then (if IsLeap(year) then 29 else 28)
    else if month == 4 || month == 6 || month == 9 || month == 11 then 30
    else 31
  }

  function DaysBeforeYear(year: nat): nat
    requires year >= 1970
  {
    if year == 1970 then 0 else DaysBeforeYear(year - 1) + DaysInYear(year - 1)
  }

  function DaysBeforeMonth(year: nat, month: nat): nat {
    if month <= 1 then 0 else DaysBeforeMonth(year, month - 1) + DaysInMonth(year, month - 1)
  }

  /** The date `days` days after 1 January 1970. */
  ghost predicate IsDateOf(days: nat, year: nat, month: nat, day: nat) {
    && year >= 1970 && 1 <= month <= 12 && 1 <= day <= DaysInMonth(year, month)
    && days == DaysBeforeYear(year) + DaysBeforeMonth(year, month) + day - 1
  }

  ghost predicate IsDateTimeOf(secs: nat, t: DateTime) {
    && IsDateOf(secs / 86400, t.year, t.month, t.day)
    && t.hour < 24 && t.minute < 60 && t.second < 60
    && secs % 86400 == 3600 * t.hour + 60 * t.minute + t.second
  }

  lemma {:induction false} YearsAscend(y: nat, z: nat)
    requires 1970 <= y < z
    ensures DaysBeforeYear(y) + DaysInYear(y) <= DaysBeforeYear(z)
  {
    if y + 1 < z {
      YearsAscend(y, z - 1);
    }
  }

  lemma {:induction false} MonthsAscend(year: nat, m: nat, n: nat)
    requires 1 <= m < n
    ensures DaysBeforeMonth(year, m) + DaysInMonth(year, m) <= DaysBeforeMonth(year, n)
  {
    if m + 1 < n {
      MonthsAscend(year, m, n - 1);
    }
  }

  lemma MonthTable(year: nat)
    ensures var l := if IsLeap(year) then 1 else 0;
            DaysBeforeMonth(year, 2) == 31 && DaysBeforeMonth(year, 3) == 59 + l
            && DaysBeforeMonth(year, 4) == 90 + l && DaysBeforeMonth(year, 5) == 120 + l
            && DaysBeforeMonth(year, 6) == 151 + l && DaysBeforeMonth(year, 7) == 181 + l
            && DaysBeforeMonth(year, 8) == 212 + l && DaysBeforeMonth(year, 9) == 243 + l
            && DaysBeforeMonth(year, 10) == 273 + l && DaysBeforeMonth(year, 11) == 304 + l
            && DaysBeforeMonth(year, 12) == 334 + l && DaysBeforeMonth(year, 13) == 365 + l
  {
  }

  lemma DateBeforeNextYear(days: nat, year: nat, month: nat, day: nat)
    requires IsDateOf(days, year, month, day)
    ensures DaysBeforeYear(year) <= days < DaysBeforeYear(year) + DaysInYear(year)
  {
    MonthTable(year);
    if month < 13 { MonthsAscend(year, month, 13); }
  }

  lemma DateUnique(days: nat, y: nat, m: nat, d: nat, y': nat, m': nat, d': nat)
    requires IsDateOf(days, y, m, d) && IsDateOf(days, y', m', d')
    ensures y == y' && m == m' && d == d'
  {
    DateBeforeNextYear(days, y, m, d);
    DateBeforeNextYear(days, y', m', d');
    if y < y' { YearsAscend(y, y'); } else if y' < y { YearsAscend(y', y); }
    if m < m' { MonthsAscend(y, m, m'); } else if m' < m { MonthsAscend(y, m', m); }
  }

  /** A second count has exactly one date and time. */
  lemma DateTimeUnique(secs: nat, s: DateTime, t: DateTime)
    requires IsDateTimeOf(secs, s) && IsDateTimeOf(secs, t)
    ensures s == t
  {
    DateUnique(secs / 86400, s.year, s.month, s.day, t.year, t.month, t.day);
  }

  // ----- the closed form

  function YearOfEra(doe: u32): u32
    requires doe < 146097
  {
    (doe - doe / 1460 + doe / 36524 - doe / 146096) / 365
  }

  /** `format_datetime` up to the formatting of its numbers, on the source's machine words. */
  function ClosedForm(unixSecs: u64): DateTime {
    var days := (unixSecs / 86400) as i64;
    var remSecs := (unixSecs % 86400) as u32;
    var (year, m, d) := ClosedFormDate(days);
    DateTime(year as nat, m, d, (remSecs / 3600) as nat, ((remSecs % 3600) / 60) as nat, (remSecs % 60) as nat)
  }

  /** The date part. */
  function ClosedFormDate(days: i64): (r: (i64, nat, nat))
    requires 0 <= days < 0x1_0000_0000_0000
    ensures r.0 >= 0
  {
    var (y, doy) := MarchYearAndDay(days);
    DateInMarchYear(y, doy)
  }

  /** The March-based year of a day, and the day in it.
      The source rounds a negative `z` separately; `z` is never negative here. */
  function MarchYearAndDay(days: i64): (r: (i64, u32))
    requires 0 <= days < 0x1_0000_0000_0000
    ensures 0 <= r.0 < 0x1_0000_0000_0000 && r.1 <= 365 && (r.1 == 365 ==> IsLeap(r.0 as nat + 1))
    ensures MarchDays(r.0 as nat) + r.1 as nat == days as nat + 719468
  {
    var z := days + 719468;
    var era := z / 146097;
    var doe := (z - era * 146097) as u32;
    EraFacts(z as nat, era as nat, doe as nat);
    var yoe := YearOfEra(doe);
    (yoe as i64 + era * 400, doe - (365 * yoe + yoe / 4 - yoe / 100))
  }

  /** Year, month and day of day `doy` of the year that starts on 1 March of year `y`. */
  function DateInMarchYear(y: i64, doy: u32): (r: (i64, nat, nat))
    requires 0 <= y < 0x1_0000_0000_0000 && doy <= 365
    ensures r.0 >= 0
  {
    var mp := (5 * doy + 2) / 153;
    var d := doy - (153 * mp + 2) / 5 + 1;
    var m := if mp < 10 then mp + 3 else mp - 9;
    (if m <= 2 then y + 1 else y, m as nat, d as nat)
  }

  /** Days from 1 March of year 0 to 1 March of year `y`. */
  function MarchDays(y: nat): int {
    365 * y + y / 4 - y / 100 + y / 400
  }

  lemma {:induction false} DaysBeforeYearFormula(year: nat)
    requires year >= 1970
    ensures DaysBeforeYear(year) == MarchDays(year - 1) + 306 - 719468
  {
    if year > 1970 {
      DaysBeforeYearFormula(year - 1);
      MarchYear(year - 1);
    }
  }

  lemma MarchYear(y: nat)
    requires y > 0
    ensures MarchDays(y) - MarchDays(y - 1) == DaysInYear(y)
  {
    DivStep(y, 4);
    DivStep(y, 100);
    DivStep(y, 400);
    Multiple400(y);
  }

  lemma DivStep(y: nat, d: nat)
    requires y > 0 && d > 1
    ensures y / d - (y - 1) / d == if y % d == 0 then 1 else 0
  {
    assert y == y / d * d + y % d;
    if y % d == 0 {
      assert y - 1 == (y / d - 1) * d + (d - 1);
      DivModUnique(y - 1, d, y / d - 1, d - 1);
    } else {
      DivModUnique(y - 1, d, y / d, y % d - 1);
    }
  }

  lemma Multiple400(y: nat)
    ensures y % 400 == 0 ==> y % 100 == 0
    ensures y % 100 == 0 ==> y % 4 == 0
  {
    if y % 400 == 0 { DivModUnique(y, 100, 4 * (y / 400), 0); }
    if y % 100 == 0 { DivModUnique(y, 4, 25 * (y / 100), 0); }
  }

  /** The calendar repeats every 400 years. */
  lemma EraShift(y: nat, era: nat)
    requires y < 400
    ensures MarchDays(y + era * 400) == MarchDays(y) + 146097 * era
    ensures IsLeap(y + era * 400 + 1) <==> IsLeap(y + 1)
  {
    var z := y + era * 400;
    DivModUnique(z, 4, y / 4 + 100 * era, y % 4);
    DivModUnique(z, 100, y / 100 + 4 * era, y % 100);
    DivModUnique(z, 400, era, y);
    DivModUnique(z + 1, 4, (y + 1) / 4 + 100 * era, (y + 1) % 4);
    DivModUnique(z + 1, 100, (y + 1) / 100 + 4 * era, (y + 1) % 100);
    DivModUnique(z + 1, 400, (y + 1) / 400 + era, (y + 1) % 400);
  }

  /** A year that ends on its day 365 ends in a leap February. */
  lemma LeapSplit(c: nat, q: nat)
    requires c <= 3 && q <= 24 && (q < 24 || c == 3)
    ensures IsLeap(100 * c + 4 * q + 4)
  {
    var y := 100 * c + 4 * q + 4;
    DivModUnique(y, 4, 25 * c + q + 1, 0);
    if q < 24 {
      DivModUnique(y, 100, c, 4 * q + 4);
    }
  }

  /** A day of the 400-year era as century, four-year group, year and day of the March-based year. */
  ghost predicate EraSplit(doe: nat, c: nat, q: nat, r: nat, doy: nat) {
    && c <= 3 && q <= 24 && r <= 3 && doy <= 365
    && (doy == 365 ==> r == 3 && (q < 24 || c == 3))
    && doe == 36524 * c + 1461 * q + 365 * r + doy
  }

  lemma EraSplitExists(doe: nat) returns (c: nat, q: nat, r: nat, doy: nat)
    requires doe < 146097
    ensures EraSplit(doe, c, q, r, doy)
  {
    c := if doe / 36524 > 3 then 3 else doe / 36524;
    var s := doe - 36524 * c;
    q := s / 1461;
    var t := s - 1461 * q;
    r := if t / 365 > 3 then 3 else t / 365;
    doy := t - 365 * r;
  }

  lemma YearOfEraExact(doe: u32, c: nat, q: nat, r: nat, doy: nat)
    requires doe < 146097 && EraSplit(doe as nat, c, q, r, doy)
    ensures YearOfEra(doe) as nat == 100 * c + 4 * q + r
  {
    var n := doe as nat;
    var f := if 24 * c + q + 365 * r + doy >= 1460 then 1 else 0;
    DivModUnique(n, 1460, 25 * c + q + f, 24 * c + q + 365 * r + doy - 1460 * f);
    assert n / 36524 - n / 146096 == c;
    DivModUnique(n - n / 1460 + n / 36524 - n / 146096, 365, 100 * c + 4 * q + r, doy - f);
  }

  lemma EraYears(c: nat, q: nat, r: nat)
    requires c <= 3 && q <= 24 && r <= 3
    ensures var yoe := 100 * c + 4 * q + r;
            yoe < 400 && yoe / 4 == 25 * c + q && yoe / 100 == c
            && MarchDays(yoe) == 36524 * c + 1461 * q + 365 * r
  {
    var yoe := 100 * c + 4 * q + r;
    DivModUnique(yoe, 4, 25 * c + q, r);
    DivModUnique(yoe, 100, c, 4 * q + r);
  }

  /** What the era arithmetic yields: the bounds every later step needs to stay in its word. */
  lemma EraFacts(z: nat, era: nat, doe: nat)
    requires era == z / 146097 && doe == z - era * 146097
    ensures doe < 146097
    ensures var yoe := YearOfEra(doe as u32) as nat;
            yoe < 400 && 0 <= doe - (365 * yoe + yoe / 4 - yoe / 100) <= 365
            && MarchDays(yoe + era * 400) + (doe - (365 * yoe + yoe / 4 - yoe / 100)) == z
            && (doe - (365 * yoe + yoe / 4 - yoe / 100) == 365 ==> IsLeap(yoe + era * 400 + 1))
  {
    var c, q, r, doy := EraSplitExists(doe);
    YearOfEraExact(doe as u32, c, q, r, doy);
    var yoe := 100 * c + 4 * q + r;
    EraYears(c, q, r);
    EraShift(yoe, era);
    if doy == 365 { LeapSplit(c, q); }
  }

  /** The day of a March-based year as month and day, in the year the month belongs to. */
  lemma MonthOfMarchYear(y: nat, doy: nat)
    requires doy <= 365 && (doy == 365 ==> IsLeap(y + 1))
    ensures var mp := (5 * doy + 2) / 153;
            var d := doy - (153 * mp + 2) / 5 + 1;
            var m := if mp < 10 then mp + 3 else mp - 9;
            var year := if m <= 2 then y + 1 else y;
            && 1 <= m <= 12 && 1 <= d <= DaysInMonth(year, m)
            && DaysBeforeMonth(year, m) + d - 1
               == if m <= 2 then doy - 306 else doy + 59 + (if IsLeap(y) then 1 else 0)
  {
    MonthTable(y);
    MonthTable(y + 1);
  }

  /** A day counted from 1 March of year 0 has the date its March-based year and day give. */
  lemma MarchDateCorrect(days: nat, y: i64, doy: u32)
    requires 0 <= y < 0x1_0000_0000_0000 && doy <= 365 && (doy == 365 ==> IsLeap(y as nat + 1))
    requires MarchDays(y as nat) + doy as nat == days + 719468
    ensures var (year, m, d) := DateInMarchYear(y, doy); year >= 0 && IsDateOf(days, year as nat, m, d)
  {
    MonthOfMarchYear(y as nat, doy as nat);
    MarchAfter1969(days, y as nat, doy as nat);
    if doy >= 306 {
      DaysBeforeYearFormula(y as nat + 1);
    } else {
      MarchYear(y as nat);
      DaysBeforeYearFormula(y as nat);
    }
  }

  lemma {:induction false} MarchMonotone(y: nat, z: nat)
    requires y <= z
    ensures MarchDays(y) <= MarchDays(z)
  {
    if y < z {
      MarchYear(z);
      MarchMonotone(y, z - 1);
    }
  }

  lemma MarchAfter1969(days: nat, y: nat, doy: nat)
    requires doy <= 365 && MarchDays(y) + doy == days + 719468
    ensures y >= 1969 && (doy < 306 ==> y >= 1970)
  {
    assert MarchDays(1969) == 719162 && MarchDays(1968) == 718797;
    if y < 1969 { MarchMonotone(y, 1968); }
    if y < 1970 { MarchMonotone(y, 1969); }
  }

  lemma SplitSeconds(rem: nat)
    requires rem < 86400
    ensures rem / 3600 < 24 && (rem % 3600) / 60 < 60 && rem % 60 < 60
    ensures rem == 3600 * (rem / 3600) + 60 * ((rem % 3600) / 60) + rem % 60
  {
  }

  lemma ClosedFormDateCorrect(days: i64)
    requires 0 <= days < 0x1_0000_0000_0000
    ensures var (year, m, d) := ClosedFormDate(days); IsDateOf(days as nat, year as nat, m, d)
  {
    var (y, doy) := MarchYearAndDay(days);
    MarchDateCorrect(days as nat, y, doy);
  }

  /** The closed form is the calendar date and time of its argument. */
  lemma ClosedFormCorrect(unixSecs: u64)
    ensures IsDateTimeOf(unixSecs as nat, ClosedForm(unixSecs))
  {
    ClosedFormDateCorrect((unixSecs / 86400) as i64);
    SplitSeconds(unixSecs as nat % 86400);
  }

  // ----- the loops

  const MONTH_DAYS: seq<u64> := [31, 28, 31, 30, 31, 30, 31, 31, 30, 31, 30, 31]

  /** The year loop: takes whole years off a day count. */
  method TakeYears(total: u64) returns (year: u64, days: u64)
    requires total < 0x1_0000_0000_0000
    ensures 1970 <= year && days as nat < DaysInYear(year as nat)
    ensures DaysBeforeYear(year as nat) + days as nat == total as nat
  {
    year, days := 1970, total;
    while true
      invariant year >= 1970 && year as nat + days as nat <= 1970 + total as nat
      invariant DaysBeforeYear(year as nat) + days as nat == total as nat
      decreases days
    {
      var daysInYear: u64 := if IsLeap(year as nat) then 366 else 365;
      if days < daysInYear {
        break;
      }
      days := days - daysInYear;
      year := year + 1;
    }
  }

  /** The month loop: takes whole months off a day of a year. */
  method TakeMonths(year: nat, dayOfYear: u64) returns (monthIdx: nat, days: u64)
    requires dayOfYear as nat < DaysInYear(year)
    ensures monthIdx < 12 && days as nat < DaysInMonth(year, monthIdx + 1)
    ensures DaysBeforeMonth(year, monthIdx + 1) + days as nat == dayOfYear as nat
  {
    var monthDays := MONTH_DAYS;
    if IsLeap(year) {
      monthDays := monthDays[1 := 29];
    }
    days := dayOfYear;
    monthIdx := 0;
    MonthTable(year);
    for i := 0 to 12
      invariant DaysBeforeMonth(year, i + 1) + days as nat == dayOfYear as nat
    {
      assert monthDays[i] as nat == DaysInMonth(year, i + 1);
      if days < monthDays[i] {
        monthIdx := i;
        return;
      }
      days := days - monthDays[i];
    }
    assert false;
  }

  /** `format_http_date` up to the formatting of its numbers: the same date and time as the closed form. */
  method LoopForm(unixSecs: u64) returns (t: DateTime)
    ensures IsDateTimeOf(unixSecs as nat, t)
    ensures t == ClosedForm(unixSecs)
  {
    var secs := unixSecs;
    var sec := secs % 60;
    secs := secs / 60;
    var min := secs % 60;
    secs := secs / 60;
    var hour := secs % 24;
    var days := secs / 24;
    assert days == unixSecs / 86400;
    assert unixSecs % 86400 == 3600 * hour + 60 * min + sec;
    var year;
    year, days := TakeYears(days);
    var monthIdx;
    monthIdx, days := TakeMonths(year as nat, days);
    t := DateTime(year as nat, monthIdx + 1, days as nat + 1, hour as nat, min as nat, sec as nat);
    ClosedFormCorrect(unixSecs);
    DateTimeUnique(unixSecs as nat, t, ClosedForm(unixSecs));
  }
}
