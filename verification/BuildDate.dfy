/** The build stamp's calendar arithmetic (`build.rs`), checked against a calendar that only
    knows how long each month is and steps one day at a time. */
module BuildDate {
  import opened Arithmetic

  datatype Civil = Civil(year: int, month: int, day: int)

  datatype Stamp = Stamp(date: Civil, hour: int, minute: int, second: int)

  // ----- The program's computation -----

  const DAYS_PER_ERA := 146_097

  function Era(z: int): int {
    TruncDiv(if z >= 0 then z else z - 146_096, DAYS_PER_ERA)
  }

  function YearOfEra(doe: int): int
    requires 0 <= doe < DAYS_PER_ERA
  {
    (doe - doe / 1460 + doe / 36_524 - doe / 146_096) / 365
  }

  /** Days in the era before its year `yoe`, which starts on 1 March. */
  function YearOffset(yoe: int): int {
    365 * yoe + yoe / 4 - yoe / 100
  }

  function MonthIndex(doy: int): int {
    (5 * doy + 2) / 153
  }

  /** Days from 1 March to the start of the `mp`-th month after it. */
  function MonthOffset(mp: int): int {
    (153 * mp + 2) / 5
  }

  /** The date `doy` days after 1 March of `y`. */
  function MarchDate(y: int, doy: int): Civil {
    var mp := MonthIndex(doy);
    var d := doy - MonthOffset(mp) + 1;
    var m := if mp < 10 then mp + 3 else mp - 9;
    Civil(if m <= 2 then y + 1 else y, m, d)
  }

  function DateOfEra(era: int, doe: int): Civil
    requires 0 <= doe < DAYS_PER_ERA
  {
    var yoe := YearOfEra(doe);
    YearOfEraBounds(doe);
    MarchDate(yoe + era * 400, doe - YearOffset(yoe))
  }

  function CivilFromDays(days: int): Civil {
    var z := days + 719_468;
    var era := Era(z);
    EraBounds(z);
    DateOfEra(era, z - era * DAYS_PER_ERA)
  }

  function StampFromSeconds(secs: int): Stamp {
    var rem := secs % 86_400;
    Stamp(CivilFromDays(secs / 86_400), rem / 3600, (rem % 3600) / 60, rem % 60)
  }

  // ----- The calendar it must agree with -----

  predicate IsLeap(y: int) {
    y % 4 == 0 && (y % 100 != 0 || y % 400 == 0)
  }

  function DaysInMonth(y: int, m: int): int {
    if m == 2 then (if IsLeap(y) then 29 else 28)
    else if m in {4, 6, 9, 11} then 30
    else 31
  }

  predicate IsDate(c: Civil) {
    1 <= c.month <= 12 && 1 <= c.day <= DaysInMonth(c.year, c.month)
  }

  function NextDay(c: Civil): Civil {
    if c.day < DaysInMonth(c.year, c.month) then c.(day := c.day + 1)
    else if c.month < 12 then Civil(c.year, c.month + 1, 1)
    else Civil(c.year + 1, 1, 1)
  }

  function PreviousDay(c: Civil): Civil {
    if c.day > 1 then c.(day := c.day - 1)
    else if c.month > 1 then Civil(c.year, c.month - 1, DaysInMonth(c.year, c.month - 1))
    else Civil(c.year - 1, 12, 31)
  }

  const EPOCH := Civil(1970, 1, 1)

  /** The date reached from 1 January 1970 by stepping `n` days, backwards when `n` is negative. */
  ghost function CalendarDay(n: int): Civil
    decreases if n < 0 then -n else n
  {
    if n == 0 then EPOCH
    else if n > 0 then NextDay(CalendarDay(n - 1))
    else PreviousDay(CalendarDay(n + 1))
  }

  function YearLength(y: int): int {
    if IsLeap(y) then 366 else 365
  }

  /** Days from the epoch to 1 January of `y`, one year at a time. */
  ghost function YearStart(y: int): int
    decreases if y < 1970 then 1970 - y else y - 1970
  {
    if y == 1970 then 0
    else if y > 1970 then YearStart(y - 1) + YearLength(y - 1)
    else YearStart(y + 1) - YearLength(y)
  }

  ghost function MonthStart(y: int, m: int): int
    decreases m
  {
    if m <= 1 then 0 else MonthStart(y, m - 1) + DaysInMonth(y, m - 1)
  }

  ghost function DaysFromCivil(c: Civil): int {
    YearStart(c.year) + MonthStart(c.year, c.month) + c.day - 1
  }

  // ----- The era arithmetic -----

  lemma EraBounds(z: int)
    ensures 0 <= z - Era(z) * DAYS_PER_ERA < DAYS_PER_ERA
  {
  }

  /** A day of the era decomposes into centuries, four-year cycles, years and days. */
  lemma YearOfEraIs(doe: int, c: int, f: int, q: int, r: int)
    requires 0 <= c <= 3 && 0 <= f <= 24 && 0 <= q <= 3 && 0 <= r <= 365
    requires r == 365 ==> q == 3 && (f < 24 || c == 3)
    requires doe == 36_524 * c + 1461 * f + 365 * q + r
    ensures 0 <= doe < DAYS_PER_ERA
    ensures YearOfEra(doe) == 100 * c + 4 * f + q
    ensures doe - YearOffset(YearOfEra(doe)) == r
  {
    var yoe := 100 * c + 4 * f + q;
    var e := if 24 * c + f + 365 * q + r >= 1460 then 1 else 0;
    Quotients(doe, c, f, q, r, e);
    assert yoe / 4 == 25 * c + f && yoe / 100 == c;
    assert doe - doe / 1460 + doe / 36_524 - doe / 146_096 == 365 * yoe + (r - e);
  }

  lemma Quotients(doe: int, c: int, f: int, q: int, r: int, e: int)
    requires 0 <= c <= 3 && 0 <= f <= 24 && 0 <= q <= 3 && 0 <= r <= 365
    requires r == 365 ==> q == 3 && (f < 24 || c == 3)
    requires doe == 36_524 * c + 1461 * f + 365 * q + r
    requires e == if 24 * c + f + 365 * q + r >= 1460 then 1 else 0
    ensures 0 <= doe < DAYS_PER_ERA
    ensures doe / 1460 == 25 * c + f + e
    ensures doe / 36_524 - doe / 146_096 == c
  {
    assert doe == 1460 * (25 * c + f) + (24 * c + f + 365 * q + r);
    if doe == 146_096 {
      assert c == 3;
    } else {
      assert doe / 36_524 == c;
    }
  }

  lemma Decompose(doe: int) returns (c: int, f: int, q: int, r: int)
    requires 0 <= doe < DAYS_PER_ERA
    ensures 0 <= c <= 3 && 0 <= f <= 24 && 0 <= q <= 3 && 0 <= r <= 365
    ensures r == 365 ==> q == 3 && (f < 24 || c == 3)
    ensures doe == 36_524 * c + 1461 * f + 365 * q + r
  {
    c := if doe == 146_096 then 3 else doe / 36_524;
    var dc := doe - 36_524 * c;
    f := dc / 1461;
    var df := dc - 1461 * f;
    q := if df == 1460 then 3 else df / 365;
    r := df - 365 * q;
  }

  lemma YearOfEraBounds(doe: int)
    requires 0 <= doe < DAYS_PER_ERA
    ensures 0 <= YearOfEra(doe) <= 399
    ensures 0 <= doe - YearOffset(YearOfEra(doe)) <= 365
  {
    var c, f, q, r := Decompose(doe);
    YearOfEraIs(doe, c, f, q, r);
  }

  lemma MonthIndexIs(doy: int, mp: int)
    requires MonthOffset(mp) <= doy < MonthOffset(mp + 1)
    ensures MonthIndex(doy) == mp
  {
  }

  lemma MonthBounds(doy: int)
    ensures MonthOffset(MonthIndex(doy)) <= doy < MonthOffset(MonthIndex(doy) + 1)
    ensures 0 <= doy <= 365 ==> 0 <= MonthIndex(doy) <= 11
  {
  }

  /** The offsets are the months' lengths added up, February's end left open. */
  lemma MonthLengths(y: int, mp: int)
    requires 0 <= mp <= 11
    ensures mp < 11 ==>
              MonthOffset(mp + 1) - MonthOffset(mp)
                == DaysInMonth(if mp < 10 then y else y + 1, if mp < 10 then mp + 3 else mp - 9)
    ensures MonthOffset(0) == 0 && MonthOffset(11) == 337 && MonthOffset(12) == 367
  {
    hide IsLeap;
  }

  lemma MarchDateIsDate(y: int, doy: int)
    requires 0 <= doy <= 365
    requires doy == 365 ==> IsLeap(y + 1)
    ensures IsDate(MarchDate(y, doy))
  {
    hide IsLeap, MonthIndex, MonthOffset;
    MonthBounds(doy);
    MonthLengths(y, MonthIndex(doy));
  }

  lemma MarchDateStep(y: int, doy: int)
    requires 0 <= doy < 364 + (if IsLeap(y + 1) then 1 else 0)
    ensures MarchDate(y, doy + 1) == NextDay(MarchDate(y, doy))
  {
    hide IsLeap, MonthIndex, MonthOffset;
    var mp := MonthIndex(doy);
    MonthBounds(doy);
    MonthBounds(doy + 1);
    MonthLengths(y, mp);
    if doy + 1 < MonthOffset(mp + 1) {
      MonthIndexIs(doy + 1, mp);
    } else {
      MonthLengths(y, mp + 1);
      assert MonthOffset(mp + 1) < MonthOffset(mp + 2) by { OffsetsGrow(mp + 1); }
      MonthIndexIs(doy + 1, mp + 1);
    }
  }

  lemma OffsetsGrow(mp: int)
    ensures MonthOffset(mp) < MonthOffset(mp + 1)
  {
  }

  lemma MarchYearStep(y: int)
    ensures MarchDate(y + 1, 0) == NextDay(MarchDate(y, 364 + (if IsLeap(y + 1) then 1 else 0)))
  {
    hide IsLeap, MonthIndex, MonthOffset;
    var last := 364 + (if IsLeap(y + 1) then 1 else 0);
    MonthLengths(y, 11);
    OffsetsGrow(0);
    MonthIndexIs(0, 0);
    MonthIndexIs(last, 11);
  }

  lemma Mod4(a: int, q: int, r: int)
    requires a == 4 * q + r && 0 <= r < 4
    ensures a % 4 == r
  {
  }

  lemma Mod100(a: int, q: int, r: int)
    requires a == 100 * q + r && 0 <= r < 100
    ensures a % 100 == r
  {
  }

  lemma Mod400(a: int, q: int, r: int)
    requires a == 400 * q + r && 0 <= r < 400
    ensures a % 400 == r
  {
  }

  lemma LeapShift(y: int, era: int)
    ensures IsLeap(y + 400 * era) == IsLeap(y)
  {
    Mod4(y + 400 * era, y / 4 + 100 * era, y % 4);
    Mod100(y + 400 * era, y / 100 + 4 * era, y % 100);
    Mod400(y + 400 * era, y / 400 + era, y % 400);
  }

  lemma LeapInCycle(c: int, f: int, q: int)
    requires 0 <= c <= 3 && 0 <= f <= 24 && 0 <= q <= 3
    ensures IsLeap(100 * c + 4 * f + q + 1) <==> q == 3 && (f < 24 || c == 3)
  {
    assert (100 * c + 4 * f + q + 1) % 4 == (q + 1) % 4;
  }

  lemma LeapInEra(era: int, c: int, f: int, q: int)
    requires 0 <= c <= 3 && 0 <= f <= 24 && 0 <= q <= 3
    ensures IsLeap(100 * c + 4 * f + q + era * 400 + 1) <==> q == 3 && (f < 24 || c == 3)
  {
    hide IsLeap;
    LeapShift(100 * c + 4 * f + q + 1, era);
    LeapInCycle(c, f, q);
    assert 100 * c + 4 * f + q + era * 400 + 1 == 100 * c + 4 * f + q + 1 + 400 * era;
  }

  lemma DateOfEraIs(era: int, doe: int, c: int, f: int, q: int, r: int)
    requires 0 <= c <= 3 && 0 <= f <= 24 && 0 <= q <= 3 && 0 <= r <= 365
    requires r == 365 ==> q == 3 && (f < 24 || c == 3)
    requires doe == 36_524 * c + 1461 * f + 365 * q + r
    ensures 0 <= doe < DAYS_PER_ERA
    ensures DateOfEra(era, doe) == MarchDate(100 * c + 4 * f + q + era * 400, r)
  {
    YearOfEraIs(doe, c, f, q, r);
  }

  lemma DateOfEraIsDate(era: int, doe: int)
    requires 0 <= doe < DAYS_PER_ERA
    ensures IsDate(DateOfEra(era, doe))
  {
    var c, f, q, r := Decompose(doe);
    DateOfEraIs(era, doe, c, f, q, r);
    LeapInEra(era, c, f, q);
    MarchDateIsDate(100 * c + 4 * f + q + era * 400, r);
  }

  lemma DateOfEraStep(era: int, doe: int)
    requires 0 <= doe < DAYS_PER_ERA - 1
    ensures DateOfEra(era, doe + 1) == NextDay(DateOfEra(era, doe))
  {
    hide DateOfEra, YearOfEra, YearOffset, MarchDate, NextDay;
    var c, f, q, r := Decompose(doe);
    DateOfEraIs(era, doe, c, f, q, r);
    LeapInEra(era, c, f, q);
    var y := 100 * c + 4 * f + q + era * 400;
    if r < 364 || (r == 364 && q == 3 && (f < 24 || c == 3)) {
      DateOfEraIs(era, doe + 1, c, f, q, r + 1);
      MarchDateStep(y, r);
    } else {
      if q < 3 {
        DateOfEraIs(era, doe + 1, c, f, q + 1, 0);
      } else if f < 24 {
        DateOfEraIs(era, doe + 1, c, f + 1, 0, 0);
      } else {
        DateOfEraIs(era, doe + 1, c + 1, 0, 0, 0);
      }
      MarchYearStep(y);
    }
  }

  lemma EraStep(era: int)
    ensures DateOfEra(era + 1, 0) == NextDay(DateOfEra(era, DAYS_PER_ERA - 1))
  {
    hide DateOfEra, MarchDate, NextDay, IsLeap;
    DateOfEraIs(era, DAYS_PER_ERA - 1, 3, 24, 3, 365);
    DateOfEraIs(era + 1, 0, 0, 0, 0, 0);
    LeapInEra(era, 3, 24, 3);
    MarchYearStep(399 + era * 400);
  }

  /** Every day count, negative ones included, gives a real date. */
  lemma CivilFromDaysIsDate(n: int)
    ensures IsDate(CivilFromDays(n))
  {
    hide DateOfEra, IsDate;
    var z := n + 719_468;
    EraBounds(z);
    DateOfEraIsDate(Era(z), z - Era(z) * DAYS_PER_ERA);
  }

  /** One more day is the next day of the calendar. */
  lemma CivilFromDaysSuccessor(n: int)
    ensures CivilFromDays(n + 1) == NextDay(CivilFromDays(n))
  {
    hide DateOfEra, NextDay;
    var z := n + 719_468;
    EraBounds(z);
    EraBounds(z + 1);
    if z + 1 - Era(z) * DAYS_PER_ERA == DAYS_PER_ERA {
      assert Era(z + 1) == Era(z) + 1;
      EraStep(Era(z));
    } else {
      assert Era(z + 1) == Era(z);
      DateOfEraStep(Era(z), z - Era(z) * DAYS_PER_ERA);
    }
  }

  lemma PreviousUndoesNext(c: Civil)
    requires IsDate(c)
    ensures IsDate(NextDay(c)) && PreviousDay(NextDay(c)) == c
    ensures IsDate(PreviousDay(c)) && NextDay(PreviousDay(c)) == c
  {
  }

  lemma EpochIsDayZero()
    ensures CivilFromDays(0) == EPOCH && DaysFromCivil(EPOCH) == 0
  {
    assert Era(719_468) == 4;
    assert YearOfEra(135_080) == 369;
  }

  /** The closed form is the calendar: both directions from the epoch. */
  lemma {:induction false} CivilFromDaysIsCalendarDay(n: int)
    ensures CivilFromDays(n) == CalendarDay(n)
    decreases if n < 0 then -n else n
  {
    hide CivilFromDays, NextDay, PreviousDay, IsDate;
    if n > 0 {
      CivilFromDaysIsCalendarDay(n - 1);
      CivilFromDaysSuccessor(n - 1);
    } else if n < 0 {
      CivilFromDaysIsCalendarDay(n + 1);
      CivilFromDaysSuccessor(n);
      CivilFromDaysIsDate(n);
      PreviousUndoesNext(CivilFromDays(n));
    } else {
      EpochIsDayZero();
    }
  }

  lemma MonthStarts(y: int)
    ensures MonthStart(y, 12) + 31 == YearLength(y)
    ensures forall m :: 1 <= m <= 12 ==> 0 <= MonthStart(y, m) && MonthStart(y, m) + DaysInMonth(y, m) <= YearLength(y)
  {
    assert MonthStart(y, 2) == 31;
    assert MonthStart(y, 3) == 31 + DaysInMonth(y, 2);
    assert MonthStart(y, 4) == MonthStart(y, 3) + 31;
    assert MonthStart(y, 5) == MonthStart(y, 4) + 30;
    assert MonthStart(y, 6) == MonthStart(y, 5) + 31;
    assert MonthStart(y, 7) == MonthStart(y, 6) + 30;
    assert MonthStart(y, 8) == MonthStart(y, 7) + 31;
    assert MonthStart(y, 9) == MonthStart(y, 8) + 31;
    assert MonthStart(y, 10) == MonthStart(y, 9) + 30;
    assert MonthStart(y, 11) == MonthStart(y, 10) + 31;
    assert MonthStart(y, 12) == MonthStart(y, 11) + 30;
  }

  lemma DaysFromCivilNext(c: Civil)
    requires IsDate(c)
    ensures DaysFromCivil(NextDay(c)) == DaysFromCivil(c) + 1
  {
    hide IsLeap;
    if c.day == DaysInMonth(c.year, c.month) && c.month == 12 {
      MonthStarts(c.year);
      assert YearStart(c.year + 1) == YearStart(c.year) + YearLength(c.year);
    }
  }

  /** Counting the days of a date back gives the count it came from. */
  lemma {:induction false} DaysOfCivilFromDays(n: int)
    ensures DaysFromCivil(CivilFromDays(n)) == n
    decreases if n < 0 then -n else n
  {
    hide CivilFromDays, NextDay, IsDate;
    if n > 0 {
      DaysOfCivilFromDays(n - 1);
      CivilFromDaysIsDate(n - 1);
      CivilFromDaysSuccessor(n - 1);
      DaysFromCivilNext(CivilFromDays(n - 1));
    } else if n < 0 {
      DaysOfCivilFromDays(n + 1);
      CivilFromDaysIsDate(n);
      CivilFromDaysSuccessor(n);
      DaysFromCivilNext(CivilFromDays(n));
    } else {
      EpochIsDayZero();
    }
  }

  lemma YearStartsGrow(y1: int, y2: int)
    requires y1 < y2
    ensures YearStart(y1) + YearLength(y1) <= YearStart(y2)
    decreases y2 - y1
  {
    assert YearStart(y1 + 1) == YearStart(y1) + YearLength(y1);
    if y1 + 1 < y2 {
      YearStartsGrow(y1 + 1, y2);
    }
  }

  lemma MonthStartsGrow(y: int, m1: int, m2: int)
    requires 1 <= m1 < m2
    ensures MonthStart(y, m1) + DaysInMonth(y, m1) <= MonthStart(y, m2)
    decreases m2
  {
    if m1 < m2 - 1 {
      MonthStartsGrow(y, m1, m2 - 1);
    }
  }

  /** Days are counted in the order of the calendar. */
  lemma LaterDateLaterDay(a: Civil, b: Civil)
    requires IsDate(a) && IsDate(b)
    ensures (|| a.year < b.year
             || (a.year == b.year && a.month < b.month)
             || (a.year == b.year && a.month == b.month && a.day < b.day)) ==> DaysFromCivil(a) < DaysFromCivil(b)
  {
    hide IsLeap;
    MonthStarts(a.year);
    MonthStarts(b.year);
    if a.year < b.year {
      YearStartsGrow(a.year, b.year);
    } else if a.year == b.year && a.month < b.month {
      MonthStartsGrow(a.year, a.month, b.month);
    }
  }

  lemma DaysFromCivilInjective(a: Civil, b: Civil)
    requires IsDate(a) && IsDate(b) && DaysFromCivil(a) == DaysFromCivil(b)
    ensures a == b
  {
    hide DaysFromCivil, IsDate;
    LaterDateLaterDay(a, b);
    LaterDateLaterDay(b, a);
  }

  /** Every real date is produced, and by exactly the count of its days. */
  lemma CivilOfDaysFromCivil(c: Civil)
    requires IsDate(c)
    ensures CivilFromDays(DaysFromCivil(c)) == c
  {
    var n := DaysFromCivil(c);
    CivilFromDaysIsDate(n);
    DaysOfCivilFromDays(n);
    DaysFromCivilInjective(CivilFromDays(n), c);
  }

  /** A stamp holds a real date and time of day, and no second is lost or shared. */
  lemma StampRecomposes(secs: int)
    ensures var s := StampFromSeconds(secs);
            && IsDate(s.date) && 0 <= s.hour < 24 && 0 <= s.minute < 60 && 0 <= s.second < 60
            && 86_400 * DaysFromCivil(s.date) + 3600 * s.hour + 60 * s.minute + s.second == secs
  {
    hide CivilFromDays, IsDate, DaysFromCivil;
    CivilFromDaysIsDate(secs / 86_400);
    DaysOfCivilFromDays(secs / 86_400);
  }
}
