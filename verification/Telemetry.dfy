/** Calendar dates from day numbers: the proleptic Gregorian calendar, with day 0 on 1970-01-01. */
module Telemetry {
  import opened Division

  datatype Date = Date(year: int, month: int, day: int)

  // ---------------------------------------------------------------- the calendar

  predicate Leap(y: int) {
    y % 4 == 0 && (y % 100 != 0 || y % 400 == 0)
  }

  function YearLength(y: int): int {
    if Leap(y) then 366 else 365
  }

  function MonthLength(y: int, m: int): int {
    if m == 2 then (if Leap(y) then 29 else 28)
    else if m == 4 || m == 6 || m == 9 || m == 11 then 30
    else 31
  }

  predicate Valid(d: Date) {
    1 <= d.month <= 12 && 1 <= d.day <= MonthLength(d.year, d.month)
  }

  function Tomorrow(d: Date): Date {
    if d.day < MonthLength(d.year, d.month) then Date(d.year, d.month, d.day + 1)
    else if d.month < 12 then Date(d.year, d.month + 1, 1)
    else Date(d.year + 1, 1, 1)
  }

  function Distance(y: int): nat {
    if y >= 1970 then y - 1970 else 1970 - y
  }

  /** Days from 1970-01-01 to the first of January of `y`. */
  function YearStart(y: int): int
    decreases Distance(y)
  {
    if y == 1970 then 0
    else if y > 1970 then YearStart(y - 1) + YearLength(y - 1)
    else YearStart(y + 1) - YearLength(y)
  }

  /** Days from the first of January to the first of month `m`. */
  function MonthStart(y: int, m: int): int
    decreases m
  {
    if m <= 1 then 0 else MonthStart(y, m - 1) + MonthLength(y, m - 1)
  }

  /** Days counted from 1970-01-01. */
  function DayNumber(d: Date): int {
    YearStart(d.year) + MonthStart(d.year, d.month) + d.day - 1
  }

  // ---------------------------------------------------------------- the conversion

  /** Division that truncates toward zero. */
  function TruncDiv(a: int, b: int): int
    requires b > 0
  {
    if a >= 0 then a / b else -(-a / b)
  }

  function EraOf(z: int): int {
    TruncDiv(if z >= 0 then z else z - 146096, 146097)
  }

  function YearOfEra(dayOfEra: int): int {
    (dayOfEra - dayOfEra / 1460 + dayOfEra / 36524 - dayOfEra / 146096) / 365
  }

  function CivilFromDays(days: int): (d: Date) {
    var z := days + 719468;
    var era := EraOf(z);
    var dayOfEra := z - era * 146097;
    var yearOfEra := YearOfEra(dayOfEra);
    FromParts(era, yearOfEra, DayOfYear(dayOfEra, yearOfEra))
  }

  function DayOfYear(dayOfEra: int, yearOfEra: int): int {
    dayOfEra - (365 * yearOfEra + yearOfEra / 4 - yearOfEra / 100)
  }

  /** The date on a day of a year that begins in March. */
  function FromParts(era: int, yearOfEra: int, dayOfYear: int): Date {
    var monthPrime := (5 * dayOfYear + 2) / 153;
    var day := dayOfYear - (153 * monthPrime + 2) / 5 + 1;
    var month := monthPrime + if monthPrime < 10 then 3 else -9;
    var year := yearOfEra + era * 400 + if month <= 2 then 1 else 0;
    Date(year, month, day)
  }

  /** The era is the floor, also for days before year zero. */
  lemma EraIsFloor(z: int)
    ensures EraOf(z) == z / 146097
    ensures 0 <= z - EraOf(z) * 146097 < 146097
  {
  }

  /** Days from the start of the era to the start of its year `k`. */
  function EraYearStart(k: int): int {
    if k == 400 then 146097 else 365 * k + k / 4 - k / 100
  }

  /** Day `s` of the `q`-th group of four years of century `c`; a century's last group is a day
      short, except in the era's last century. */
  ghost predicate InGroup(c: int, q: int, s: int) {
    0 <= c < 4 && 0 <= q < 25 && 0 <= s < 1461 && (q == 24 && c < 3 ==> s < 1460)
  }

  /** The era's days split into centuries and groups of four years. */
  lemma SplitEra(dayOfEra: int) returns (c: int, q: int, s: int)
    requires 0 <= dayOfEra < 146097
    ensures InGroup(c, q, s) && dayOfEra == 36524 * c + 1461 * q + s
  {
    c := if dayOfEra == 146096 then 3 else dayOfEra / 36524;
    var r := dayOfEra - 36524 * c;
    q, s := r / 1461, r % 1461;
  }

  /** The numerator counts 365 days a year up to the group, and the group's own days, less one near
      its end. */
  lemma GroupNumerator(c: int, q: int, s: int)
    requires InGroup(c, q, s)
    ensures var doe := 36524 * c + 1461 * q + s;
            doe - doe / 1460 + doe / 36524 - doe / 146096 ==
            36500 * c + 1460 * q + s - if 24 * c + q + s >= 1460 then 1 else 0
  {
    var doe := 36524 * c + 1461 * q + s;
    var e := if 24 * c + q + s >= 1460 then 1 else 0;
    DivisionUnique(doe, 1460, 25 * c + q + e, 24 * c + q + s - 1460 * e);
    if doe == 146096 {
      DivisionUnique(doe, 36524, 4, 0);
    } else {
      DivisionUnique(doe, 36524, c, 1461 * q + s);
    }
  }

  /** The year of the era that day `s` of a group falls in. */
  lemma YearOfGroup(c: int, q: int, s: int) returns (t: int)
    requires InGroup(c, q, s)
    ensures 0 <= t < 4 && YearOfEra(36524 * c + 1461 * q + s) == 100 * c + 4 * q + t
    ensures 365 * t <= s < 365 * (t + 1) + if t == 3 && !(q == 24 && c < 3) then 1 else 0
  {
    t := if s == 1460 then 3 else s / 365;
    var e := if 24 * c + q + s >= 1460 then 1 else 0;
    GroupNumerator(c, q, s);
    DivisionUnique(36500 * c + 1460 * q + s - e, 365, 100 * c + 4 * q + t, s - e - 365 * t);
  }

  /** Where the `t`-th year of a group starts. */
  lemma GroupYearStart(c: int, q: int, t: int)
    requires 0 <= c < 4 && 0 <= q < 25 && 0 <= t < 4
    ensures EraYearStart(100 * c + 4 * q + t) == 36524 * c + 1461 * q + 365 * t
  {
    var k := 100 * c + 4 * q + t;
    DivisionUnique(k, 4, 25 * c + q, t);
    DivisionUnique(k, 100, c, 4 * q + t);
  }

  /** Where the year after it starts: a group's last year has 366 days, unless it ends a century that
      is not the era's last. */
  lemma GroupYearEnd(c: int, q: int, t: int)
    requires 0 <= c < 4 && 0 <= q < 25 && 0 <= t < 4
    ensures EraYearStart(100 * c + 4 * q + t + 1) ==
            36524 * c + 1461 * q + 365 * (t + 1) + if t == 3 && !(q == 24 && c < 3) then 1 else 0
  {
    if t < 3 {
      GroupYearStart(c, q, t + 1);
    } else if q < 24 {
      GroupYearStart(c, q + 1, 0);
    } else if c < 3 {
      GroupYearStart(c + 1, 0, 0);
    }
  }

  lemma YearOfEraInside(dayOfEra: int)
    requires 0 <= dayOfEra < 146097
    ensures 0 <= YearOfEra(dayOfEra) < 400
    ensures EraYearStart(YearOfEra(dayOfEra)) <= dayOfEra < EraYearStart(YearOfEra(dayOfEra) + 1)
  {
    var c, q, s := SplitEra(dayOfEra);
    var t := YearOfGroup(c, q, s);
    GroupYearStart(c, q, t);
    GroupYearEnd(c, q, t);
  }

  lemma Remainder(a: int, b: int, shift: int)
    requires b > 0
    ensures (b * shift + a) % b == a % b
  {
    DivisionUnique(b * shift + a, b, shift + a / b, a % b);
  }

  /** Leap years repeat every 400 years. */
  lemma LeapRepeats(era: int, y: int)
    ensures Leap(400 * era + y) == Leap(y)
  {
    Remainder(y, 4, 100 * era);
    Remainder(y, 100, 4 * era);
    Remainder(y, 400, era);
  }

  lemma NextQuotient(k: int, b: int)
    requires 0 <= k && b > 1
    ensures (k + 1) / b - k / b == if (k + 1) % b == 0 then 1 else 0
  {
    if (k + 1) % b == 0 {
      DivisionUnique(k, b, (k + 1) / b - 1, b - 1);
    } else {
      DivisionUnique(k, b, (k + 1) / b, (k + 1) % b - 1);
    }
  }

  /** The year from March of year `k` of an era is as long as the civil year that ends it. */
  lemma MarchYearLength(era: int, k: int)
    requires 0 <= k < 400
    ensures EraYearStart(k + 1) - EraYearStart(k) == YearLength(400 * era + k + 1)
  {
    LeapRepeats(era, k + 1);
    NextQuotient(k, 4);
    NextQuotient(k, 100);
  }

  /** Days from the first of March to the start of the `mp`-th month after it. */
  function MonthOffset(mp: int): int {
    (153 * mp + 2) / 5
  }

  lemma MonthPrimeInside(dayOfYear: int)
    requires 0 <= dayOfYear <= 365
    ensures var mp := (5 * dayOfYear + 2) / 153;
            0 <= mp <= 11 && MonthOffset(mp) <= dayOfYear < MonthOffset(mp + 1)
  {
  }

  /** A day of a March-based year gives a valid date. */
  lemma PartsValid(era: int, k: int, dayOfYear: int)
    requires 0 <= k < 400 && 0 <= dayOfYear < YearLength(400 * era + k + 1)
    ensures Valid(FromParts(era, k, dayOfYear))
  {
    MonthPrimeInside(dayOfYear);
  }

  /** Day `day` of the `mp`-th month from March. */
  function MarchDate(era: int, k: int, mp: int, day: int): Date {
    Date(k + era * 400 + if mp >= 10 then 1 else 0, mp + if mp < 10 then 3 else -9, day)
  }

  lemma PartsAt(era: int, k: int, mp: int, dayOfYear: int)
    requires 0 <= mp <= 11 && MonthOffset(mp) <= dayOfYear < MonthOffset(mp + 1)
    ensures FromParts(era, k, dayOfYear) == MarchDate(era, k, mp, dayOfYear - MonthOffset(mp) + 1)
  {
  }

  /** Months from March to January are as long as the offsets say. */
  lemma MonthOffsets(era: int, k: int, mp: int)
    requires 0 <= mp <= 10
    ensures var d := MarchDate(era, k, mp, 1);
            MonthLength(d.year, d.month) == MonthOffset(mp + 1) - MonthOffset(mp)
  {
  }

  /** The next day of the same March-based year is the next date. */
  lemma PartsNext(era: int, k: int, dayOfYear: int)
    requires 0 <= k < 400 && 0 <= dayOfYear && dayOfYear + 1 < YearLength(400 * era + k + 1)
    ensures FromParts(era, k, dayOfYear + 1) == Tomorrow(FromParts(era, k, dayOfYear))
  {
    MonthPrimeInside(dayOfYear);
    var mp := (5 * dayOfYear + 2) / 153;
    PartsAt(era, k, mp, dayOfYear);
    if mp < 11 {
      MonthOffsets(era, k, mp);
    }
    if dayOfYear + 1 < MonthOffset(mp + 1) {
      PartsAt(era, k, mp, dayOfYear + 1);
    } else {
      PartsAt(era, k, mp + 1, dayOfYear + 1);
    }
  }

  /** After the last day of February the next March-based year begins. */
  lemma PartsLast(era: int, k: int)
    requires 0 <= k < 400
    ensures Tomorrow(FromParts(era, k, YearLength(400 * era + k + 1) - 1)) == Date(400 * era + k + 1, 3, 1)
  {
    MonthPrimeInside(YearLength(400 * era + k + 1) - 1);
  }

  lemma {:induction false} EraYearStartGrows(a: int, b: int)
    requires 0 <= a <= b <= 400
    ensures EraYearStart(a) <= EraYearStart(b)
    decreases b - a
  {
    if a < b {
      MarchYearLength(0, b - 1);
      EraYearStartGrows(a, b - 1);
    }
  }

  /** The year of the era is the only one whose days contain the given day. */
  lemma YearOfEraUnique(dayOfEra: int, k: int)
    requires 0 <= dayOfEra < 146097 && 0 <= k < 400 && EraYearStart(k) <= dayOfEra < EraYearStart(k + 1)
    ensures YearOfEra(dayOfEra) == k
  {
    YearOfEraInside(dayOfEra);
    if k < YearOfEra(dayOfEra) {
      EraYearStartGrows(k + 1, YearOfEra(dayOfEra));
    } else if YearOfEra(dayOfEra) < k {
      EraYearStartGrows(YearOfEra(dayOfEra) + 1, k);
    }
  }

  /** The era and the day of the era. */
  lemma EraOfParts(days: int, era: int, dayOfEra: int)
    requires 0 <= dayOfEra < 146097 && days + 719468 == 146097 * era + dayOfEra
    ensures EraOf(days + 719468) == era
  {
    EraIsFloor(days + 719468);
    DivisionUnique(days + 719468, 146097, era, dayOfEra);
  }

  /** The year of the era and the day of the year. */
  lemma YearOfParts(k: int, dayOfYear: int, length: int)
    requires 0 <= k < 400 && 0 <= dayOfYear < length && length == EraYearStart(k + 1) - EraYearStart(k)
    ensures 0 <= EraYearStart(k) + dayOfYear < 146097 && YearOfEra(EraYearStart(k) + dayOfYear) == k
  {
    EraYearStartGrows(0, k);
    EraYearStartGrows(k + 1, 400);
    YearOfEraUnique(EraYearStart(k) + dayOfYear, k);
  }

  lemma DayOfParts(k: int, dayOfYear: int)
    requires 0 <= k < 400
    ensures DayOfYear(EraYearStart(k) + dayOfYear, k) == dayOfYear
  {
  }

  /** The conversion in terms of era, year of era and day of year. */
  lemma CivilIsParts(days: int, era: int, k: int, dayOfYear: int)
    requires 0 <= k < 400 && 0 <= dayOfYear < YearLength(400 * era + k + 1)
    requires days + 719468 == 146097 * era + EraYearStart(k) + dayOfYear
    ensures CivilFromDays(days) == FromParts(era, k, dayOfYear)
  {
    MarchYearLength(era, k);
    YearOfParts(k, dayOfYear, YearLength(400 * era + k + 1));
    EraOfParts(days, era, EraYearStart(k) + dayOfYear);
    DayOfParts(k, dayOfYear);
    assert days + 719468 - era * 146097 == EraYearStart(k) + dayOfYear;
  }

  /** Every day number has such parts. */
  lemma PartsOf(days: int) returns (era: int, k: int, dayOfYear: int)
    ensures 0 <= k < 400 && 0 <= dayOfYear < YearLength(400 * era + k + 1)
    ensures days + 719468 == 146097 * era + EraYearStart(k) + dayOfYear
    ensures CivilFromDays(days) == FromParts(era, k, dayOfYear)
  {
    era := (days + 719468) / 146097;
    var dayOfEra := (days + 719468) % 146097;
    k := YearOfEra(dayOfEra);
    YearOfEraInside(dayOfEra);
    dayOfYear := dayOfEra - EraYearStart(k);
    MarchYearLength(era, k);
    CivilIsParts(days, era, k, dayOfYear);
  }

  lemma NextWithinYear(days: int, era: int, k: int, dayOfYear: int)
    requires 0 <= k < 400 && 0 <= dayOfYear && dayOfYear + 1 < YearLength(400 * era + k + 1)
    requires days + 719468 == 146097 * era + EraYearStart(k) + dayOfYear
    ensures CivilFromDays(days + 1) == Tomorrow(FromParts(era, k, dayOfYear))
  {
    CivilIsParts(days + 1, era, k, dayOfYear + 1);
    PartsNext(era, k, dayOfYear);
  }

  /** The first day of March of year `k` of an era. */
  lemma FirstOfMarch(days: int, era: int, k: int)
    requires 0 <= k < 400 && days + 719468 == 146097 * era + EraYearStart(k)
    ensures CivilFromDays(days) == Date(400 * era + k, 3, 1)
  {
    CivilIsParts(days, era, k, 0);
  }

  lemma NextAfterYear(days: int, era: int, k: int)
    requires 0 <= k < 400
    requires days + 719468 == 146097 * era + EraYearStart(k) + YearLength(400 * era + k + 1) - 1
    ensures CivilFromDays(days + 1) == Date(400 * era + k + 1, 3, 1)
  {
    MarchYearLength(era, k);
    YearBegins(days + 1, era, k + 1);
  }

  lemma YearBegins(days: int, era: int, k: int)
    requires 0 <= k <= 400 && days + 719468 == 146097 * era + EraYearStart(k)
    ensures CivilFromDays(days) == Date(400 * era + k, 3, 1)
  {
    if k < 400 {
      FirstOfMarch(days, era, k);
    } else {
      FirstOfMarch(days, era + 1, 0);
    }
  }

  /** Every day number gives a valid date, and the next number the next date. */
  lemma CivilNext(days: int)
    ensures Valid(CivilFromDays(days))
    ensures CivilFromDays(days + 1) == Tomorrow(CivilFromDays(days))
  {
    var era, k, dayOfYear := PartsOf(days);
    PartsValid(era, k, dayOfYear);
    if dayOfYear + 1 < YearLength(400 * era + k + 1) {
      NextWithinYear(days, era, k, dayOfYear);
    } else {
      NextAfterYear(days, era, k);
      PartsLast(era, k);
    }
  }

  lemma FirstDay()
    ensures CivilFromDays(0) == Date(1970, 1, 1)
  {
    CivilIsParts(0, 4, 369, 306);
  }

  // ---------------------------------------------------------------- the count of days

  lemma YearStartNext(y: int)
    ensures YearStart(y + 1) == YearStart(y) + YearLength(y)
  {
  }

  lemma MonthsMakeYear(y: int)
    ensures MonthStart(y, 12) + MonthLength(y, 12) == YearLength(y)
  {
    assert MonthStart(y, 4) == 31 + MonthLength(y, 2) + 31;
    assert MonthStart(y, 8) == MonthStart(y, 4) + 30 + 31 + 30 + 31;
    assert MonthStart(y, 12) == MonthStart(y, 8) + 31 + 30 + 31 + 30;
  }

  lemma TomorrowCounts(d: Date)
    requires Valid(d)
    ensures Valid(Tomorrow(d)) && DayNumber(Tomorrow(d)) == DayNumber(d) + 1
  {
    YearStartNext(d.year);
    MonthsMakeYear(d.year);
  }

  lemma CountStep(days: int)
    ensures DayNumber(CivilFromDays(days + 1)) == DayNumber(CivilFromDays(days)) + 1
  {
    CivilNext(days);
    TomorrowCounts(CivilFromDays(days));
  }

  /** A sequence of dates that starts at day number 0 and goes on by one counts its own days. */
  lemma {:induction false} CountsUp(f: int -> Date, days: int)
    requires DayNumber(f(0)) == 0 && forall n: int :: DayNumber(f(n + 1)) == DayNumber(f(n)) + 1
    ensures DayNumber(f(days)) == days
    decreases if days < 0 then -days else days
  {
    if days > 0 {
      CountsUp(f, days - 1);
      assert DayNumber(f(days - 1 + 1)) == DayNumber(f(days - 1)) + 1;
    } else if days < 0 {
      CountsUp(f, days + 1);
      assert DayNumber(f(days + 1)) == DayNumber(f(days)) + 1;
    }
  }

  /** The conversion inverts the count of days from 1970-01-01, for every integer. */
  lemma CountOfCivil(days: int)
    ensures DayNumber(CivilFromDays(days)) == days
  {
    FirstDay();
    forall n: int
      ensures DayNumber(CivilFromDays(n + 1)) == DayNumber(CivilFromDays(n)) + 1
    {
      CountStep(n);
    }
    CountsUp(CivilFromDays, days);
  }

  lemma {:induction false} YearStartGrows(a: int, b: int)
    requires a <= b
    ensures YearStart(a) <= YearStart(b)
    decreases b - a
  {
    if a < b {
      YearStartGrows(a, b - 1);
      YearStartNext(b - 1);
    }
  }

  lemma {:induction false} MonthStartGrows(y: int, a: int, b: int)
    requires 1 <= a < b <= 12
    ensures MonthStart(y, a) + MonthLength(y, a) <= MonthStart(y, b)
    decreases b - a
  {
    if a < b - 1 {
      MonthStartGrows(y, a, b - 1);
    }
  }

  lemma DayWithinYear(d: Date)
    requires Valid(d)
    ensures YearStart(d.year) <= DayNumber(d) < YearStart(d.year + 1)
  {
    YearStartNext(d.year);
    MonthsMakeYear(d.year);
    MonthStartNonNegative(d.year, d.month);
    if d.month < 12 {
      MonthStartGrows(d.year, d.month, 12);
    }
  }

  lemma {:induction false} MonthStartNonNegative(y: int, m: int)
    requires 1 <= m <= 12
    ensures MonthStart(y, m) >= 0
    decreases m
  {
    if m > 1 {
      MonthStartNonNegative(y, m - 1);
    }
  }

  /** Different dates have different day numbers. */
  lemma DayNumberInjective(a: Date, b: Date)
    requires Valid(a) && Valid(b) && DayNumber(a) == DayNumber(b)
    ensures a == b
  {
    DayWithinYear(a);
    DayWithinYear(b);
    if a.year < b.year {
      YearStartGrows(a.year + 1, b.year);
    } else if b.year < a.year {
      YearStartGrows(b.year + 1, a.year);
    } else if a.month < b.month {
      MonthStartGrows(a.year, a.month, b.month);
    } else if b.month < a.month {
      MonthStartGrows(a.year, b.month, a.month);
    }
  }

  /** Every valid date is the date of exactly one day number: its count of days. */
  lemma CivilOfCount(d: Date)
    requires Valid(d)
    ensures CivilFromDays(DayNumber(d)) == d
    ensures forall days: int :: CivilFromDays(days) == d ==> days == DayNumber(d)
  {
    var days := DayNumber(d);
    CountOfCivil(days);
    CivilNext(days);
    DayNumberInjective(CivilFromDays(days), d);
    forall other: int | CivilFromDays(other) == d
      ensures other == days
    {
      CountOfCivil(other);
    }
  }
}
