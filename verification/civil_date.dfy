/** Calendar arithmetic behind `Date.prototype.getFullYear` and
    `Date.prototype.getMonth`: an instant is a count of milliseconds since
    1970-01-01T00:00Z, shifted by the viewer's (fixed) zone offset and split
    into a proleptic Gregorian civil date. */
module CivilDate {

  /** One-based month number, as `getMonth() + 1` yields it. */
  type Month = m: int | 1 <= m <= 12 witness 1

  datatype YearMonth = YearMonth(year: int, month: Month)

  datatype Civil = Civil(year: int, month: Month, day: int)

  /** The viewer's time zone, as a fixed offset added to UTC. */
  datatype Zone = Zone(offsetMillis: int)

  const MillisPerDay: int := 86_400_000
  const DaysPerEra: int := 146_097
  /** Days from 0000-03-01 to 1970-01-01. */
  const EpochShift: int := 719_468

  predicate IsLeapYear(y: int) {
    y % 4 == 0 && (y % 100 != 0 || y % 400 == 0)
  }

  function DaysInMonth(y: int, m: Month): (n: int)
    ensures 28 <= n <= 31
  {
    if m == 2 then (if IsLeapYear(y) then 29 else 28)
    else if m == 4 || m == 6 || m == 9 || m == 11 then 30
    else 31
  }

  predicate ValidCivil(c: Civil) {
    1 <= c.day <= DaysInMonth(c.year, c.month)
  }

  /** Day number of a local instant; `/` by a positive constant rounds down,
      so instants before the epoch fall on earlier days. */
  function LocalDay(t: int, zone: Zone): (d: int)
    ensures d * MillisPerDay <= t + zone.offsetMillis < (d + 1) * MillisPerDay
  {
    (t + zone.offsetMillis) / MillisPerDay
  }

  /** Civil date of a day number counted from 1970-01-01. */
  function CivilFromDays(days: int): (c: Civil)
    ensures ValidCivil(c)
  {
    var z := days + EpochShift;
    var era := z / DaysPerEra;
    CivilOfEraDay(era, z - era * DaysPerEra)
  }

  /** Civil date of day `doe` of 400-year era `era`; eras and their years
      start on March 1st, so that February is the last month of a year. */
  function CivilOfEraDay(era: int, doe: int): (c: Civil)
    requires 0 <= doe < DaysPerEra
    ensures ValidCivil(c)
  {
    var yoe := (doe - doe / 1460 + doe / 36524 - doe / 146096) / 365;
    var y := yoe + era * 400;
    var doy := doe - (365 * yoe + yoe / 4 - yoe / 100);
    EraBounds(doe, doe / 1460, doe / 36524, doe / 146096, yoe, yoe / 4, yoe / 100, doy);
    var mp := (5 * doy + 2) / 153;
    var m := if mp < 10 then mp + 3 else mp - 9;
    var d := doy - (153 * mp + 2) / 5 + 1;
    var year := if m <= 2 then y + 1 else y;
    MarchDayBounds(doy);
    if mp < 11 then
      MarchMonthIsMonth(mp, year);
      Civil(year, m, d)
    else
      LeapYearInEra(era, yoe + 1);
      Civil(year, m, d)
  }

  /** A day of the March-based year lies in month `mp` (counted from
      March) on a day no later than that month's longest length. */
  lemma MarchDayBounds(doy: int)
    requires 0 <= doy <= 365
    ensures var mp := (5 * doy + 2) / 153;
      0 <= mp <= 11
      && 1 <= doy - (153 * mp + 2) / 5 + 1 <= MarchMonthLength(mp)
      && (mp == 11 && doy - (153 * mp + 2) / 5 + 1 == 29 ==> doy == 365)
  {
  }

  /** Every month but February has the same length in every year. */
  lemma MarchMonthIsMonth(mp: int, y: int)
    requires 0 <= mp <= 10
    ensures DaysInMonth(y, if mp < 10 then mp + 3 else mp - 9) == MarchMonthLength(mp)
  {
  }

  /** Bounds on the year-of-era and day-of-year steps of `CivilFromDays`,
      with each quotient named together with its defining inequalities. */
  lemma EraBounds(doe: int, a: int, b: int, e: int, yoe: int, p: int, q: int, doy: int)
    requires 0 <= doe <= 146096
    requires 1460 * a <= doe < 1460 * a + 1460
    requires 36524 * b <= doe < 36524 * b + 36524
    requires 146096 * e <= doe < 146096 * e + 146096
    requires 365 * yoe <= doe - a + b - e < 365 * yoe + 365
    requires 4 * p <= yoe < 4 * p + 4
    requires 100 * q <= yoe < 100 * q + 100
    requires doy == doe - (365 * yoe + p - q)
    ensures 0 <= yoe <= 399 && 0 <= doy <= 365
    ensures doy == 365 ==> (yoe + 1) % 4 == 0 && ((yoe + 1) % 100 != 0 || yoe == 399)
  {
    if doe == 146096 {
      assert a == 100 && b == 4 && e == 1;
      assert yoe == 399 && p == 99 && q == 3;
    } else {
      assert e == 0 && 0 <= b <= 3;
      // the day within the century, split into 4-year cycles
      var r1 := doe - 36524 * b;
      var c, r2 := r1 / 1461, r1 % 1461;
      assert r1 == 1461 * c + r2 && 0 <= r2 < 1461;
      CycleLeapCorrection(b, c, r2, a);
      // the year within the 4-year cycle
      var dd := yoe - 100 * b - 4 * c;
      assert 365 * dd <= r2 - (a - 25 * b - c) < 365 * dd + 365;
      assert 0 <= dd <= 3;
      assert p == 25 * b + c;
      assert q == b;
      assert doy == r2 - 365 * dd;
      if doy == 365 {
        // the last day of a 4-year cycle, never the last of a century
        assert dd == 3 && r2 == 1460 && c <= 23;
        assert yoe + 1 == 4 * (25 * b + c + 1);
        assert yoe + 1 == 100 * b + 4 * (c + 1) && 0 < 4 * (c + 1) < 100;
      }
    }
  }

  /** `doe / 1460` counts the 4-year cycles of the century, plus one on the
      last day of a cycle. */
  lemma CycleLeapCorrection(b: int, c: int, r2: int, a: int)
    requires 0 <= b <= 3 && 0 <= r2 < 1461
    requires 0 <= 1461 * c + r2 < 36524
    requires 1460 * a <= 36524 * b + 1461 * c + r2 < 1460 * a + 1460
    ensures 0 <= c <= 24
    ensures 25 * b + c <= a <= 25 * b + c + 1
    ensures r2 == 0 ==> a == 25 * b + c
    ensures r2 == 1460 ==> a == 25 * b + c + 1
  {
    assert 36524 * b + 1461 * c + r2 == 1460 * (25 * b + c) + (24 * b + c + r2);
  }

  /** Year counted from March: January and February belong to the year
      before. */
  function MarchYear(c: Civil): int {
    if c.month <= 2 then c.year - 1 else c.year
  }

  function EraOf(c: Civil): int {
    MarchYear(c) / 400
  }

  /** Day of the 400-year era on which a civil date falls. */
  function DayOfEra(c: Civil): int {
    var yoe := MarchYear(c) - EraOf(c) * 400;
    var mp := if c.month > 2 then c.month - 3 else c.month + 9;
    var doy := (153 * mp + 2) / 5 + c.day - 1;
    yoe * 365 + yoe / 4 - yoe / 100 + doy
  }

  /** Day number (from 1970-01-01) of a civil date. */
  function DaysFromCivil(c: Civil): int {
    EraOf(c) * DaysPerEra + DayOfEra(c) - EpochShift
  }

  /** The pair (`getFullYear()`, `getMonth() + 1`) of an instant. */
  function YearMonthOf(t: int, zone: Zone): YearMonth
  {
    var c := CivilFromDays(LocalDay(t, zone));
    YearMonth(c.year, c.month)
  }

  /** An instant falls in the month of the civil day whose span, shifted by
      the viewer's offset, contains it. */
  lemma MonthOfInstantIn(t: int, c: Civil, zone: Zone)
    requires ValidCivil(c)
    requires DaysFromCivil(c) * MillisPerDay <= t + zone.offsetMillis < (DaysFromCivil(c) + 1) * MillisPerDay
    ensures YearMonthOf(t, zone) == YearMonth(c.year, c.month)
  {
    assert LocalDay(t, zone) == DaysFromCivil(c);
    CivilRoundTrip(c);
  }

  /** The year-of-era step of `CivilFromDays` recovers the year of era that
      `DaysFromCivil` started from, provided day 365 of an era year is only
      used when the following February has 29 days. */
  lemma YearOfEraRecovered(yoe: int, p: int, q: int, doy: int, doe: int, a: int, b: int, e: int, w: int)
    requires 0 <= yoe <= 399
    requires 4 * p <= yoe < 4 * p + 4
    requires 100 * q <= yoe < 100 * q + 100
    requires 0 <= doy <= 365
    requires doy == 365 ==> (yoe + 1) % 4 == 0 && ((yoe + 1) % 100 != 0 || yoe == 399)
    requires doe == 365 * yoe + p - q + doy
    requires 1460 * a <= doe < 1460 * a + 1460
    requires 36524 * b <= doe < 36524 * b + 36524
    requires 146096 * e <= doe < 146096 * e + 146096
    requires 365 * w <= doe - a + b - e < 365 * w + 365
    ensures w == yoe
  {
    // yoe = 100 q + 4 r + s
    var r := p - 25 * q;
    var s := yoe - 4 * p;
    assert 0 <= r <= 24 && 0 <= s <= 3;
    assert doe == 36524 * q + 1461 * r + 365 * s + doy;
    if doy == 365 {
      assert s == 3;
      assert r < 24 || q == 3;
    }
    assert q == 3 && r == 24 && s == 3 && doy == 365 ==> e == 1;
    assert !(q == 3 && r == 24 && s == 3 && doy == 365) ==> e == 0;
    assert b == q + e;
    assert a == 25 * q + r || a == 25 * q + r + 1;
  }

  /** Longest length of the month `mp` places after March. */
  function MarchMonthLength(mp: int): int {
    if mp == 11 then 29 else if mp == 1 || mp == 3 || mp == 6 || mp == 8 then 30 else 31
  }

  /** The month step of `CivilOfEraDay` recovers the month of a day of year. */
  lemma MarchMonthOfDay(mp: int, day: int, doy: int)
    requires 0 <= mp <= 11 && 1 <= day <= MarchMonthLength(mp)
    requires doy == (153 * mp + 2) / 5 + day - 1
    ensures 0 <= doy <= 365
    ensures (5 * doy + 2) / 153 == mp
  {
  }

  /** `CivilOfEraDay` in terms of its intermediate quantities. */
  lemma CivilOfEraDayParts(era: int, doe: int, yoe: int, doy: int, mp: int)
    requires 0 <= doe < DaysPerEra
    requires yoe == (doe - doe / 1460 + doe / 36524 - doe / 146096) / 365
    requires doy == doe - (365 * yoe + yoe / 4 - yoe / 100)
    requires mp == (5 * doy + 2) / 153
    ensures var m := if mp < 10 then mp + 3 else mp - 9;
      CivilOfEraDay(era, doe) == Civil(if m <= 2 then yoe + era * 400 + 1 else yoe + era * 400, m, doy - (153 * mp + 2) / 5 + 1)
  {
  }

  /** Leap years seen from inside a 400-year era. */
  lemma LeapYearInEra(era: int, k: int)
    requires 1 <= k <= 400
    ensures IsLeapYear(400 * era + k) <==> k % 4 == 0 && (k % 100 != 0 || k == 400)
  {
    ShiftedMod4(era, k);
    ShiftedMod100(era, k);
    ShiftedMod400(era, k);
  }

  /** Whole eras do not change a year's residue modulo 4, 100 or 400. */
  lemma ShiftedMod4(era: int, k: int)
    ensures (400 * era + k) % 4 == k % 4
  {
    var q, r := k / 4, k % 4;
    assert 400 * era + k == 4 * (100 * era + q) + r;
  }

  lemma ShiftedMod100(era: int, k: int)
    ensures (400 * era + k) % 100 == k % 100
  {
    var q, r := k / 100, k % 100;
    assert 400 * era + k == 100 * (4 * era + q) + r;
  }

  lemma ShiftedMod400(era: int, k: int)
    ensures (400 * era + k) % 400 == k % 400
  {
    var q, r := k / 400, k % 400;
    assert 400 * era + k == 400 * (era + q) + r;
  }

  /** Splitting a day of an era into a civil date and back is the identity. */
  lemma EraDayRoundTrip(era: int, doe: int)
    requires 0 <= doe < DaysPerEra
    ensures EraOf(CivilOfEraDay(era, doe)) == era
    ensures DayOfEra(CivilOfEraDay(era, doe)) == doe
  {
    var yoe := (doe - doe / 1460 + doe / 36524 - doe / 146096) / 365;
    var y := yoe + era * 400;
    var doy := doe - (365 * yoe + yoe / 4 - yoe / 100);
    EraBounds(doe, doe / 1460, doe / 36524, doe / 146096, yoe, yoe / 4, yoe / 100, doy);
    var mp := (5 * doy + 2) / 153;
    var c := CivilOfEraDay(era, doe);
    assert 0 <= mp <= 11;
    assert MarchYear(c) == y;
    assert y / 400 == era;
    assert (if c.month > 2 then c.month - 3 else c.month + 9) == mp;
  }

  /** `DaysFromCivil` undoes `CivilFromDays`: distinct days have distinct
      civil dates. */
  lemma {:induction false} DaysRoundTrip(days: int)
    ensures DaysFromCivil(CivilFromDays(days)) == days
  {
    var z := days + EpochShift;
    var era := z / DaysPerEra;
    EraDayRoundTrip(era, z - era * DaysPerEra);
  }

  /** A valid civil date lies within its era, and splitting its day of era
      gives it back. */
  lemma CivilEraDayRoundTrip(c: Civil)
    requires ValidCivil(c)
    ensures 0 <= DayOfEra(c) < DaysPerEra
    ensures CivilOfEraDay(EraOf(c), DayOfEra(c)) == c
  {
    var y := MarchYear(c);
    var era := EraOf(c);
    var yoe := y - era * 400;
    var mp := if c.month > 2 then c.month - 3 else c.month + 9;
    var doy := (153 * mp + 2) / 5 + c.day - 1;
    var doe := DayOfEra(c);
    MarchMonthOfDay(mp, c.day, doy);
    if doy == 365 {
      assert mp == 11 && c.day == 29 && IsLeapYear(c.year);
      LeapYearInEra(era, yoe + 1);
    }
    var w := (doe - doe / 1460 + doe / 36524 - doe / 146096) / 365;
    YearOfEraRecovered(yoe, yoe / 4, yoe / 100, doy, doe, doe / 1460, doe / 36524, doe / 146096, w);
    CivilOfEraDayParts(era, doe, yoe, doy, mp);
  }

  /** `CivilFromDays` undoes `DaysFromCivil` on every valid civil date, so the
      two are mutually inverse. */
  lemma {:induction false} CivilRoundTrip(c: Civil)
    requires ValidCivil(c)
    ensures CivilFromDays(DaysFromCivil(c)) == c
  {
    CivilEraDayRoundTrip(c);
    var z := EraOf(c) * DaysPerEra + DayOfEra(c);
    assert z / DaysPerEra == EraOf(c);
  }

  /** The civil date after `c`: the next day of the month, or the first of
      the next month, or New Year's Day. */
  function NextDay(c: Civil): Civil {
    if c.day < DaysInMonth(c.year, c.month) then c.(day := c.day + 1)
    else if c.month == 12 then Civil(c.year + 1, 1, 1)
    else Civil(c.year, c.month + 1, 1)
  }

  /** Day of the March-based year on which a civil date falls. */
  function DayOfMarchYear(c: Civil): int {
    var mp := if c.month > 2 then c.month - 3 else c.month + 9;
    (153 * mp + 2) / 5 + c.day - 1
  }

  /** `DaysFromCivil` without the era split: 365 days a year plus the
      leap days of the 4/100/400 rule, counted in March-based years. */
  lemma DaysFromCivilFlat(c: Civil)
    ensures var y := MarchYear(c);
      DaysFromCivil(c) == 365 * y + y / 4 - y / 100 + y / 400 + DayOfMarchYear(c) - EpochShift
  {
    var y := MarchYear(c);
    var era := EraOf(c);
    var yoe := y - era * 400;
    assert 0 <= yoe < 400;
    assert DayOfEra(c) == yoe * 365 + yoe / 4 - yoe / 100 + DayOfMarchYear(c);
    EraQuotients(y, era, yoe);
  }

  /** Splitting off whole eras shifts the quotients by 4, 100 and 400. */
  lemma EraQuotients(y: int, era: int, yoe: int)
    requires y == 400 * era + yoe && 0 <= yoe < 400
    ensures y / 4 == 100 * era + yoe / 4
    ensures y / 100 == 4 * era + yoe / 100
    ensures y / 400 == era
  {
    var q4, r4 := yoe / 4, yoe % 4;
    assert y == 4 * (100 * era + q4) + r4;
    var q100, r100 := yoe / 100, yoe % 100;
    assert y == 100 * (4 * era + q100) + r100;
  }

  /** Crossing from March-based year `y` into `y + 1` adds one leap day
      exactly when `y + 1` is a leap year, i.e. when its February has 29 days. */
  lemma LeapDayStep(y: int)
    ensures (y + 1) / 4 - y / 4 - ((y + 1) / 100 - y / 100) + ((y + 1) / 400 - y / 400)
      == if IsLeapYear(y + 1) then 1 else 0
  {
    StepDiv4(y);
    StepDiv100(y);
    StepDiv400(y);
  }

  lemma StepDiv4(y: int)
    ensures (y + 1) / 4 - y / 4 == if (y + 1) % 4 == 0 then 1 else 0
  {
    var q, r := y / 4, y % 4;
    assert y == 4 * q + r;
    if r == 3 {
      assert y + 1 == 4 * (q + 1);
    } else {
      assert y + 1 == 4 * q + (r + 1);
    }
  }

  lemma StepDiv100(y: int)
    ensures (y + 1) / 100 - y / 100 == if (y + 1) % 100 == 0 then 1 else 0
  {
    var q, r := y / 100, y % 100;
    assert y == 100 * q + r;
    if r == 99 {
      assert y + 1 == 100 * (q + 1);
    } else {
      assert y + 1 == 100 * q + (r + 1);
    }
  }

  lemma StepDiv400(y: int)
    ensures (y + 1) / 400 - y / 400 == if (y + 1) % 400 == 0 then 1 else 0
  {
    var q, r := y / 400, y % 400;
    assert y == 400 * q + r;
    if r == 399 {
      assert y + 1 == 400 * (q + 1);
    } else {
      assert y + 1 == 400 * q + (r + 1);
    }
  }

  /** The day after a valid date is valid and has the next day number: the
      conversion walks the calendar one date per day. */
  lemma NextDayIsNextNumber(c: Civil)
    requires ValidCivil(c)
    ensures ValidCivil(NextDay(c))
    ensures DaysFromCivil(NextDay(c)) == DaysFromCivil(c) + 1
  {
    var n := NextDay(c);
    DaysFromCivilFlat(c);
    DaysFromCivilFlat(n);
    if c.day < DaysInMonth(c.year, c.month) {
      assert MarchYear(n) == MarchYear(c) && DayOfMarchYear(n) == DayOfMarchYear(c) + 1;
    } else if c.month == 2 {
      // February 28th or 29th: the March-based year ends
      var y := MarchYear(c);
      assert MarchYear(n) == y + 1 && DayOfMarchYear(n) == 0;
      assert DayOfMarchYear(c) == 336 + DaysInMonth(c.year, 2);
      LeapDayStep(y);
    } else {
      assert MarchYear(n) == MarchYear(c);
      assert DayOfMarchYear(n) == DayOfMarchYear(c) + 1;
    }
  }

  /** Consecutive day numbers have consecutive civil dates; with day 0 being
      1970-01-01 this fixes the civil date of every day number. */
  lemma CivilFromDaysStep(days: int)
    ensures CivilFromDays(days + 1) == NextDay(CivilFromDays(days))
  {
    var c := CivilFromDays(days);
    DaysRoundTrip(days);
    NextDayIsNextNumber(c);
    CivilRoundTrip(NextDay(c));
  }

  /** Day number 0 is 1970-01-01. */
  lemma EpochIsDayZero()
    ensures DaysFromCivil(Civil(1970, 1, 1)) == 0
    ensures CivilFromDays(0) == Civil(1970, 1, 1)
  {
    EpochDay(Civil(1970, 1, 1));
  }

  lemma EpochDay(c: Civil)
    requires c == Civil(1970, 1, 1)
    ensures DaysFromCivil(c) == 0
    ensures CivilFromDays(0) == c
  {
    DaysFromCivilFlat(c);
    var y := MarchYear(c);
    assert y == 1969 && DayOfMarchYear(c) == 306;
    assert y / 4 == 492 && y / 100 == 19 && y / 400 == 4;
    CivilRoundTrip(c);
  }

  /** Reference definition of the calendar from 1970 on: count `n` days
      forward from 1970-01-01, one `NextDay` at a time. */
  function CountDaysFromEpoch(n: nat): Civil {
    if n == 0 then Civil(1970, 1, 1) else NextDay(CountDaysFromEpoch(n - 1))
  }

  /** The closed-form conversion agrees with counting days one by one. */
  lemma {:induction false} CivilFromDaysCounts(n: nat)
    ensures CivilFromDays(n) == CountDaysFromEpoch(n)
  {
    if n == 0 {
      EpochIsDayZero();
    } else {
      var p := n - 1;
      CivilFromDaysCounts(p);
      CivilFromDaysStep(p);
      assert CountDaysFromEpoch(n) == NextDay(CountDaysFromEpoch(p));
    }
  }
}
