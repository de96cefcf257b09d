/**
 Gregorian dates two ways: the year-by-year loop of `unix_to_ymd`
 (src/bin/gplc_rt.rs) and the closed form of `today_string`
 (src/bin/hft_web3_bench.rs).
 */
module Calendar {

  datatype Date = Date(year: int, month: int, day: int)

  predicate IsLeap(y: int) {
    y % 400 == 0 || (y % 4 == 0 && y % 100 != 0)
  }

  function YearLength(y: int): nat {
    if IsLeap(y) then 366 else 365
  }

  function MonthLength(y: int, m: int): nat {
    if m == 2 then (if IsLeap(y) then 29 else 28)
    else if m == 4 || m == 6 || m == 9 || m == 11 then 30
    else 31
  }

  /** A Gregorian date from 1970 on. */
  predicate Valid(d: Date) {
    d.year >= 1970 && 1 <= d.month <= 12 && 1 <= d.day <= MonthLength(d.year, d.month)
  }

  /** Days from 1 January 1970 to 1 January of year `y`. */
  function YearStart(y: int): nat
    requires y >= 1970
  {
    if y == 1970 then 0 else YearStart(y - 1) + YearLength(y - 1)
  }

  /** Days from 1 January to the first of month `m`. */
  function MonthStart(y: int, m: int): nat
    requires 1 <= m <= 13
  {
    if m == 1 then 0 else MonthStart(y, m - 1) + MonthLength(y, m - 1)
  }

  function DayNumber(d: Date): nat
    requires Valid(d)
  {
    YearStart(d.year) + MonthStart(d.year, d.month) + d.day - 1
  }

  // ---- Day numbers tell dates apart -----------------------------------------

  lemma {:induction false} YearsAhead(y: int, later: int)
    requires 1970 <= y < later
    ensures YearStart(y) + YearLength(y) <= YearStart(later)
    decreases later
  {
    if y < later - 1 {
      YearsAhead(y, later - 1);
    }
  }

  lemma {:induction false} MonthsAhead(y: int, m: int, later: int)
    requires 1 <= m < later <= 13
    ensures MonthStart(y, m) + MonthLength(y, m) <= MonthStart(y, later)
    decreases later
  {
    if m < later - 1 {
      MonthsAhead(y, m, later - 1);
    }
  }

  lemma MonthTable(y: int)
    ensures MonthStart(y, 2) == 31 && MonthStart(y, 3) == MonthStart(y, 2) + MonthLength(y, 2)
    ensures var march := MonthStart(y, 3);
            && MonthStart(y, 4) == march + 31 && MonthStart(y, 5) == march + 61 && MonthStart(y, 6) == march + 92
            && MonthStart(y, 7) == march + 122 && MonthStart(y, 8) == march + 153 && MonthStart(y, 9) == march + 184
            && MonthStart(y, 10) == march + 214 && MonthStart(y, 11) == march + 245 && MonthStart(y, 12) == march + 275
            && MonthStart(y, 13) == YearLength(y)
  {
    assert MonthStart(y, 1) == 0;
    assert MonthStart(y, 5) == MonthStart(y, 4) + 30;
    assert MonthStart(y, 7) == MonthStart(y, 6) + 30;
    assert MonthStart(y, 9) == MonthStart(y, 8) + 31;
    assert MonthStart(y, 11) == MonthStart(y, 10) + 31;
  }

  lemma WithinYear(d: Date)
    requires Valid(d)
    ensures YearStart(d.year) <= DayNumber(d) < YearStart(d.year) + YearLength(d.year)
  {
    MonthTable(d.year);
    MonthsAhead(d.year, d.month, 13);
  }

  /** Two dates with one day number are the same date. */
  lemma DateUnique(a: Date, b: Date)
    requires Valid(a) && Valid(b) && DayNumber(a) == DayNumber(b)
    ensures a == b
  {
    WithinYear(a);
    WithinYear(b);
    if a.year < b.year {
      YearsAhead(a.year, b.year);
    } else if b.year < a.year {
      YearsAhead(b.year, a.year);
    } else if a.month < b.month {
      MonthsAhead(a.year, a.month, b.month);
    } else if b.month < a.month {
      MonthsAhead(a.year, b.month, a.month);
    }
  }

  // ---- The loop -------------------------------------------------------------

  datatype Time = Time(hour: nat, minute: nat, second: nat)

  /** `unix_to_ymd`: the date and time of day that make up the timestamp;
   the date is the one the closed form gives. */
  method UnixToYmd(ts: nat) returns (date: Date, time: Time)
    ensures Valid(date) && time.hour < 24 && time.minute < 60 && time.second < 60
    ensures date == ClosedForm(ts / 86400)
    ensures DayNumber(date) * 86400 + time.hour * 3600 + time.minute * 60 + time.second == ts
  {
    var second := ts % 60;
    var minutes := ts / 60;
    var minute := minutes % 60;
    var hours := minutes / 60;
    var hour := hours % 24;
    var days := hours / 24;
    time := Time(hour, minute, second);
    date := DateOfDay(days);
    assert hours == days * 24 + hour;
    assert minutes == hours * 60 + minute;
    assert ts == minutes * 60 + second;
    assert ts / 86400 == days;
    ClosedFormInverts(date);
  }

  /** The two loops of `unix_to_ymd`: over years, then over a month table. */
  method DateOfDay(dayNumber: nat) returns (date: Date)
    ensures Valid(date) && DayNumber(date) == dayNumber
  {
    var days: nat, y: int := dayNumber, 1970;
    while days >= YearLength(y)
      invariant y >= 1970 && YearStart(y) + days == dayNumber
      decreases days
    {
      days, y := days - YearLength(y), y + 1;
    }
    var month, day := MonthLoop(y, days);
    date := Date(y, month, day);
  }

  method MonthLoop(y: int, dayOfYear: nat) returns (month: int, day: int)
    requires dayOfYear < YearLength(y)
    ensures 1 <= month <= 12 && 1 <= day <= MonthLength(y, month)
    ensures MonthStart(y, month) + day - 1 == dayOfYear
  {
    var months := [31, if IsLeap(y) then 29 else 28, 31, 30, 31, 30, 31, 31, 30, 31, 30, 31];
    var k, days := 0, dayOfYear;
    MonthTable(y);
    while k < 12 && days >= months[k]
      invariant k <= 12
      invariant MonthStart(y, k + 1) + days == dayOfYear
    {
      assert months[k] == MonthLength(y, k + 1);
      days, k := days - months[k], k + 1;
    }
    assert k < 12;
    assert months[k] == MonthLength(y, k + 1);
    month, day := k + 1, days + 1;
  }

  // ---- The closed form ------------------------------------------------------

  /** `today_string`'s arithmetic on a day count, counting years from March. */
  function ClosedForm(days: nat): Date {
    var z := days + 719468;
    var era := z / 146097;
    InEra(era, z - era * 146097)
  }

  /** The date of day `doe` of a 400-year era. */
  function InEra(era: int, doe: int): Date {
    var yoe := YearOfEra(doe);
    FromMarch(yoe + era * 400, doe - (365 * yoe + yoe / 4 - yoe / 100))
  }

  /** The date `doy` days after 1 March of year `y`. */
  function FromMarch(y: int, doy: int): Date {
    var mp := (5 * doy + 2) / 153;
    var day := doy - (153 * mp + 2) / 5 + 1;
    var month := mp + (if mp < 10 then 3 else -9);
    Date(y + (if month <= 2 then 1 else 0), month, day)
  }

  function YearOfEra(doe: int): int {
    (doe - doe / 1460 + doe / 36524 - doe / 146096) / 365
  }

  /**
   A day of a 400-year era lies in century `c`, four-year block `b` of it and
   year `a` of that block, at day `doy` of a year counted from March.
   */
  ghost predicate Splits(doe: int, c: int, b: int, a: int, doy: int) {
    && 0 <= c <= 3 && 0 <= b <= 24 && 0 <= a <= 3
    && doe == 36524 * c + 1461 * b + 365 * a + doy
    && 0 <= doy <= (if a == 3 && (b < 24 || c == 3) then 365 else 364)
  }

  lemma SplitExists(doe: int) returns (c: int, b: int, a: int, doy: int)
    requires 0 <= doe < 146097
    ensures Splits(doe, c, b, a, doy)
  {
    c := if doe == 146096 then 3 else doe / 36524;
    var t := doe - 36524 * c;
    b := t / 1461;
    var s := t - 1461 * b;
    a := if s == 1460 then 3 else s / 365;
    doy := s - 365 * a;
  }

  lemma DivideBy1460(c: int, b: int, s: int)
    requires 0 <= c <= 3 && 0 <= b <= 24 && 0 <= s <= 1460
    ensures (36524 * c + 1461 * b + s) / 1460 == 25 * c + b + (if b + s + 24 * c >= 1460 then 1 else 0)
  {
  }

  lemma DivideBy36524(c: int, b: int, s: int)
    requires 0 <= c <= 3 && 0 <= b <= 24 && 0 <= s <= 1460 && (b == 24 && c < 3 ==> s <= 1459)
    ensures var x := 36524 * c + 1461 * b + s;
            x / 36524 - x / 146096 == c
  {
  }

  /** The rounding corrections of the closed form find the year exactly. */
  lemma YearOfEraIs(doe: int, c: int, b: int, a: int, doy: int)
    requires Splits(doe, c, b, a, doy)
    ensures YearOfEra(doe) == 100 * c + 4 * b + a
  {
    var s := 365 * a + doy;
    DivideBy1460(c, b, s);
    DivideBy36524(c, b, s);
    var e := if b + s + 24 * c >= 1460 then 1 else 0;
    assert doe - doe / 1460 + doe / 36524 - doe / 146096 == 36500 * c + 1460 * b + s - e;
    assert 365 * a <= s - e < 365 * (a + 1);
  }

  function Leaps(n: nat): int {
    n / 4 - n / 100 + n / 400
  }

  lemma QuotientsStep(n: nat)
    requires n >= 1
    ensures n / 4 == (n - 1) / 4 + (if n % 4 == 0 then 1 else 0)
    ensures n / 100 == (n - 1) / 100 + (if n % 100 == 0 then 1 else 0)
    ensures n / 400 == (n - 1) / 400 + (if n % 400 == 0 then 1 else 0)
  {
  }

  lemma Multiples(n: nat)
    ensures n % 400 == 0 ==> n % 100 == 0
    ensures n % 100 == 0 ==> n % 4 == 0
  {
    var q, r := n / 400, n / 100;
    assert n == 400 * q + n % 400;
    assert n == 100 * r + n % 100;
    if n % 400 == 0 {
      assert r == 4 * q;
    }
    if n % 100 == 0 {
      assert n == 4 * (25 * r);
    }
  }

  lemma LeapsStep(n: nat)
    requires n >= 1
    ensures Leaps(n) == Leaps(n - 1) + (if IsLeap(n) then 1 else 0)
  {
    QuotientsStep(n);
    Multiples(n);
  }

  lemma {:induction false} YearStartIs(y: int)
    requires y >= 1970
    ensures YearStart(y) == 365 * (y - 1970) + Leaps(y - 1) - 477
  {
    if y > 1970 {
      YearStartIs(y - 1);
      LeapsStep(y - 1);
    }
  }

  lemma QuotientsOfEra(era: nat, c: nat, b: nat, a: nat)
    requires c <= 3 && b <= 24 && a <= 3
    ensures (400 * era + 100 * c + 4 * b + a) / 4 == 100 * era + 25 * c + b
    ensures (400 * era + 100 * c + 4 * b + a) / 100 == 4 * era + c
    ensures (400 * era + 100 * c + 4 * b + a) / 400 == era
  {
  }

  /** The month arithmetic: `mp` months after March, `day` days into it. */
  lemma MonthOfDay(doy: int) returns (mp: int, day: int)
    requires 0 <= doy <= 365
    ensures mp == (5 * doy + 2) / 153 && 0 <= mp <= 11
    ensures day == doy - (153 * mp + 2) / 5 + 1
    ensures 1 <= day <= (if mp == 1 || mp == 3 || mp == 6 || mp == 8 then 30 else if mp == 11 then 29 else 31)
    ensures mp == 11 && day == 29 ==> doy == 365
  {
    mp := (5 * doy + 2) / 153;
    day := doy - (153 * mp + 2) / 5 + 1;
  }

  lemma FromMarchOnward(y: int, doy: int, days: nat)
    requires y >= 1970 && days == 365 * y + Leaps(y) + doy - 719468
    requires 0 <= doy <= 305
    ensures Valid(FromMarch(y, doy)) && DayNumber(FromMarch(y, doy)) == days
  {
    var mp, day := MonthOfDay(doy);
    YearStartIs(y);
    LeapsStep(y);
    MonthTable(y);
  }

  lemma FromNextJanuary(y: int, doy: int, days: nat)
    requires y >= 1969 && days == 365 * y + Leaps(y) + doy - 719468
    requires 306 <= doy <= (if IsLeap(y + 1) then 365 else 364)
    ensures Valid(FromMarch(y, doy)) && DayNumber(FromMarch(y, doy)) == days
  {
    var mp, day := MonthOfDay(doy);
    YearStartIs(y + 1);
    MonthTable(y + 1);
  }

  /** March-based counting agrees with January-based counting. */
  lemma FromMarchCorrect(y: int, doy: int, days: nat)
    requires y >= 1969 && days == 365 * y + Leaps(y) + doy - 719468
    requires 0 <= doy <= (if IsLeap(y + 1) then 365 else 364)
    ensures Valid(FromMarch(y, doy)) && DayNumber(FromMarch(y, doy)) == days
  {
    if doy <= 305 {
      assert Leaps(1969) == 477;
      FromMarchOnward(y, doy, days);
    } else {
      FromNextJanuary(y, doy, days);
    }
  }

  lemma LeapAfter(era: nat, c: nat, b: nat, a: nat)
    requires c <= 3 && b <= 24 && a <= 3
    ensures IsLeap(400 * era + 100 * c + 4 * b + a + 1) <==> a == 3 && (b < 24 || c == 3)
  {
    var n := 400 * era + 100 * c + 4 * b + a + 1;
    QuotientsOfEra(era, c, b, a);
    QuotientsStep(n);
  }

  lemma EraYearFrom1969(era: nat, doe: int, c: int, b: int, a: int, doy: int)
    requires Splits(doe, c, b, a, doy) && era * 146097 + doe >= 719468
    ensures 400 * era + 100 * c + 4 * b + a >= 1969
  {
    if era == 4 {
      assert doe >= 135080;
      assert c == 3;
      assert b >= 17;
    }
  }

  lemma EraDays(era: nat, c: nat, b: nat, a: nat)
    requires c <= 3 && b <= 24 && a <= 3
    ensures var y := 400 * era + 100 * c + 4 * b + a;
            365 * y + Leaps(y) == 146097 * era + 36524 * c + 1461 * b + 365 * a
  {
    QuotientsOfEra(era, c, b, a);
  }

  lemma InEraIs(era: nat, doe: int, c: int, b: int, a: int, doy: int)
    requires Splits(doe, c, b, a, doy)
    ensures InEra(era, doe) == FromMarch(400 * era + 100 * c + 4 * b + a, doy)
  {
    YearOfEraIs(doe, c, b, a, doy);
    DaysBeforeYear(YearOfEra(doe), c, b, a);
  }

  lemma DaysBeforeYear(yoe: int, c: int, b: int, a: int)
    requires 0 <= c <= 3 && 0 <= b <= 24 && 0 <= a <= 3 && yoe == 100 * c + 4 * b + a
    ensures 365 * yoe + yoe / 4 - yoe / 100 == 36524 * c + 1461 * b + 365 * a
  {
    assert yoe / 4 == 25 * c + b;
    assert yoe / 100 == c;
  }

  lemma InEraCorrect(era: nat, doe: int, days: nat)
    requires 0 <= doe < 146097 && days == era * 146097 + doe - 719468
    ensures Valid(InEra(era, doe)) && DayNumber(InEra(era, doe)) == days
  {
    var c, b, a, doy := SplitExists(doe);
    InEraIs(era, doe, c, b, a, doy);
    EraDays(era, c, b, a);
    EraYearFrom1969(era, doe, c, b, a, doy);
    LeapAfter(era, c, b, a);
    FromMarchCorrect(400 * era + 100 * c + 4 * b + a, doy, days);
  }

  /** The closed form names a valid date with the day number it was given. */
  lemma ClosedFormCorrect(days: nat)
    ensures Valid(ClosedForm(days)) && DayNumber(ClosedForm(days)) == days
  {
    var z := days + 719468;
    InEraCorrect(z / 146097, z - z / 146097 * 146097, days);
  }

  /**
   Dates and day numbers from 1970 on are in bijection, and the closed form is
   the inverse of `DayNumber`.
   */
  lemma ClosedFormInverts(d: Date)
    requires Valid(d)
    ensures ClosedForm(DayNumber(d)) == d
  {
    ClosedFormCorrect(DayNumber(d));
    DateUnique(ClosedForm(DayNumber(d)), d);
  }
}
