/** The calendar arithmetic behind the debug history's timestamps. */
module Calendar {
  // The fast form of `days_to_civil`, nested divisions of a day number, is proved to walk the
  // reference calendar one day at a time in both directions. `NextDay` is that reference: the
  // proleptic Gregorian calendar given by nothing but the lengths of the months and the
  // 4/100/400 leap rule.

  datatype Date = Date(year: int, month: int, day: int)

  predicate IsLeap(year: int) {
    year % 4 == 0 && (year % 100 != 0 || year % 400 == 0)
  }

  function DaysInMonth(year: int, month: int): int
    requires 1 <= month <= 12
  {
    if month == 2 then (if IsLeap(year) then 29 else 28)
    else if month in {4, 6, 9, 11} then 30
    else 31
  }

  predicate ValidDate(d: Date) {
    1 <= d.month <= 12 && 1 <= d.day <= DaysInMonth(d.year, d.month)
  }

  function NextDay(d: Date): Date
    requires ValidDate(d)
  {
    if d.day < DaysInMonth(d.year, d.month) then Date(d.year, d.month, d.day + 1)
    else if d.month < 12 then Date(d.year, d.month + 1, 1)
    else Date(d.year + 1, 1, 1)
  }

  /** Rust's `/` on signed integers: rounds toward zero, where Dafny's rounds down. */
  function TruncDiv(a: int, b: int): int
    requires b > 0
  {
    if a >= 0 then a / b else -((-a) / b)
  }

  function Era(z: int): int {
    TruncDiv(if z >= 0 then z else z - 146_096, 146_097)
  }

  function DayOfEra(z: int): int {
    z - Era(z) * 146_097
  }

  function YearOfEra(doe: int): int {
    (doe - doe / 1_460 + doe / 36_524 - doe / 146_096) / 365
  }

  function DayOfYear(doe: int): int {
    doe - (365 * YearOfEra(doe) + YearOfEra(doe) / 4 - YearOfEra(doe) / 100)
  }

  /** Month index (March is 0) and day of the month of day `r` of a March-based year. */
  function MonthIndex(r: int): int { (5 * r + 2) / 153 }

  function DayInMonth(r: int): int { r - (153 * MonthIndex(r) + 2) / 5 + 1 }

  function MonthNumber(mp: int): int { if mp < 10 then mp + 3 else mp - 9 }

  /** The date of day `r` of the March-based year `y`. */
  function MarchDate(y: int, r: int): Date {
    var m := MonthNumber(MonthIndex(r));
    Date(if m <= 2 then y + 1 else y, m, DayInMonth(r))
  }

  /** The date of day `z`, before the casts to 32-bit results. */
  function Civil(z: int): Date {
    var doe := DayOfEra(z);
    MarchDate(YearOfEra(doe) + Era(z) * 400, DayOfYear(doe))
  }

  lemma EraIsFloor(z: int)
    ensures Era(z) == z / 146_097
    ensures 0 <= DayOfEra(z) < 146_097
  {
  }

  /** A day of the era lies in century `c`, four-year cycle `q` of it, year `k` of that, and
      is day `r` of a year that starts in March and ends with the leap day if there is one. */
  ghost predicate Splits(doe: int, c: int, q: int, k: int, r: int) {
    && doe == 36_524 * c + 1_461 * q + 365 * k + r
    && 0 <= c <= 3 && 0 <= q <= 24 && 0 <= k <= 3 && 0 <= r <= 365
    && (r == 365 ==> k == 3 && (q < 24 || c == 3))
  }

  lemma SplitDay(doe: int) returns (c: int, q: int, k: int, r: int)
    requires 0 <= doe < 146_097
    ensures Splits(doe, c, q, k, r)
  {
    c := if doe / 36_524 > 3 then 3 else doe / 36_524;
    var inCentury := doe - 36_524 * c;
    q := inCentury / 1_461;
    var inCycle := inCentury - 1_461 * q;
    k := if inCycle / 365 > 3 then 3 else inCycle / 365;
    r := inCycle - 365 * k;
  }

  lemma YearOfSplit(doe: int, c: int, q: int, k: int, r: int)
    requires Splits(doe, c, q, k, r)
    ensures YearOfEra(doe) == 100 * c + 4 * q + k
    ensures DayOfYear(doe) == r
  {
    var rest := 24 * c + q + 365 * k + r;
    var late := if rest >= 1_460 then 1 else 0;
    var last := if doe == 146_096 then 1 else 0;
    assert doe / 1_460 == 25 * c + q + late by {
      assert doe == 1_460 * (25 * c + q) + rest;
    }
    assert doe / 36_524 == c + last by {
      assert doe == 36_524 * c + (1_461 * q + 365 * k + r);
    }
    assert doe / 146_096 == last;
    assert doe - doe / 1_460 + doe / 36_524 - doe / 146_096 == 365 * (100 * c + 4 * q + k) + (r - late);
    assert 0 <= r - late < 365;
    var y := 100 * c + 4 * q + k;
    assert y / 4 == 25 * c + q;
    assert y / 100 == c;
  }

  /** Every unsigned subtraction of the fast form has a non-negative result. */
  lemma NoUnderflow(z: int)
    ensures var doe := DayOfEra(z);
            var yoe := YearOfEra(doe);
            var doy := DayOfYear(doe);
            var mp := (5 * doy + 2) / 153;
            && 0 <= doe < 146_097
            && doe / 1_460 <= doe
            && doe / 146_096 <= doe - doe / 1_460 + doe / 36_524
            && 0 <= yoe < 400
            && yoe / 100 <= 365 * yoe + yoe / 4
            && 365 * yoe + yoe / 4 - yoe / 100 <= doe
            && (153 * mp + 2) / 5 <= doy
            && (mp >= 10 ==> 9 <= mp)
  {
    EraIsFloor(z);
    var c, q, k, r := SplitDay(DayOfEra(z));
    YearOfSplit(DayOfEra(z), c, q, k, r);
    MonthOfDay(r);
  }

  /** Length of month `mp`; February, the last one, is counted with its leap day. */
  function MarchMonthLength(mp: int): int {
    if mp == 11 then 29 else if mp in {1, 3, 6, 8} then 30 else 31
  }

  lemma MonthOfDay(r: int)
    requires 0 <= r <= 365
    ensures 0 <= MonthIndex(r) <= 11
    ensures 1 <= DayInMonth(r) <= MarchMonthLength(MonthIndex(r))
    ensures (153 * MonthIndex(r) + 2) / 5 <= r
    ensures MonthIndex(r) == 11 ==> DayInMonth(r) == r - 336
    ensures r < 365 ==>
              if DayInMonth(r) < MarchMonthLength(MonthIndex(r))
              then MonthIndex(r + 1) == MonthIndex(r) && DayInMonth(r + 1) == DayInMonth(r) + 1
              else MonthIndex(r + 1) == MonthIndex(r) + 1 && DayInMonth(r + 1) == 1
  {
  }

  /** The year of the era holding `doe` ends with a leap day. */
  lemma LeapOfSplit(c: int, q: int, k: int, era: int)
    requires 0 <= c <= 3 && 0 <= q <= 24 && 0 <= k <= 3
    ensures IsLeap(100 * c + 4 * q + k + 1 + era * 400) <==> k == 3 && (q < 24 || c == 3)
  {
    var s := 4 * q + k + 1;
    var n := 100 * c + s + era * 400;
    Remainder4(n, 25 * c + q + 100 * era, k + 1);
    Remainder100(n, c + 4 * era, s);
    Remainder400(n, era, 100 * c + s);
  }

  lemma Remainder4(n: int, x: int, r: int)
    requires n == 4 * x + r && 0 < r <= 4
    ensures n % 4 == 0 <==> r == 4
  {
  }

  lemma Remainder100(n: int, x: int, r: int)
    requires n == 100 * x + r && 0 < r <= 100
    ensures n % 100 == 0 <==> r == 100
  {
  }

  lemma Remainder400(n: int, x: int, r: int)
    requires n == 400 * x + r && 0 < r <= 400
    ensures n % 400 == 0 <==> r == 400
  {
  }

  /** The day after day `r` of a March-based year, in parts: the years of the era and the
      day numbers move together. */
  lemma NextSplit(doe: int, c: int, q: int, k: int, r: int)
    requires Splits(doe, c, q, k, r)
    ensures var y := 100 * c + 4 * q + k;
            var lastDay := r == 365 || (r == 364 && !(k == 3 && (q < 24 || c == 3)));
            && (doe == 146_096 <==> lastDay && y == 399)
            && (doe < 146_096 ==>
                  && YearOfEra(doe + 1) == (if lastDay then y + 1 else y)
                  && DayOfYear(doe + 1) == (if lastDay then 0 else r + 1))
  {
    var c', q', k', r' := c, q, k, r + 1;
    if r == 365 || (r == 364 && !(k == 3 && (q < 24 || c == 3))) {
      k', r' := k + 1, 0;
      if k' == 4 { k', q' := 0, q + 1; }
      if q' == 25 { q', c' := 0, c + 1; }
    }
    if doe < 146_096 {
      YearOfSplit(doe + 1, c', q', k', r');
    }
  }

  lemma NextEra(z: int)
    ensures if DayOfEra(z) == 146_096
            then Era(z + 1) == Era(z) + 1 && DayOfEra(z + 1) == 0
            else Era(z + 1) == Era(z) && DayOfEra(z + 1) == DayOfEra(z) + 1
  {
    EraIsFloor(z);
    EraIsFloor(z + 1);
  }

  lemma MarchDateIsValid(y: int, r: int)
    requires 0 <= r <= 365 && (r == 365 ==> IsLeap(y + 1))
    ensures ValidDate(MarchDate(y, r))
    ensures NextDay(MarchDate(y, r)) ==
            if r == 365 || (r == 364 && !IsLeap(y + 1)) then MarchDate(y + 1, 0)
            else MarchDate(y, r + 1)
  {
    MonthOfDay(r);
    assert MarchDate(y + 1, 0) == Date(y + 1, 3, 1);
  }

  lemma MarchParts(z: int) returns (y: int, r: int)
    ensures 0 <= r <= 365 && (r == 365 ==> IsLeap(y + 1))
    ensures y == YearOfEra(DayOfEra(z)) + Era(z) * 400
    ensures r == DayOfYear(DayOfEra(z))
    ensures var y' := YearOfEra(DayOfEra(z + 1)) + Era(z + 1) * 400;
            var r' := DayOfYear(DayOfEra(z + 1));
            if r == 365 || (r == 364 && !IsLeap(y + 1)) then y' == y + 1 && r' == 0
            else y' == y && r' == r + 1
  {
    hide Era, DayOfEra, YearOfEra, DayOfYear, IsLeap;
    var doe := DayOfEra(z);
    EraIsFloor(z);
    NextEra(z);
    var c, q, k, s := SplitDay(doe);
    YearOfSplit(doe, c, q, k, s);
    LeapOfSplit(c, q, k, Era(z));
    NextSplit(doe, c, q, k, s);
    y, r := 100 * c + 4 * q + k + Era(z) * 400, s;
    if doe == 146_096 {
      YearOfSplit(0, 0, 0, 0, 0);
    }
  }

  /** The fast form walks the reference calendar: every day number, negative ones included,
      has a valid date, and the next number has the next day's date. */
  lemma CivilIsGregorian(z: int)
    ensures ValidDate(Civil(z))
    ensures Civil(z + 1) == NextDay(Civil(z))
  {
    hide MarchDate, NextDay, ValidDate, IsLeap, Era, DayOfEra, YearOfEra, DayOfYear;
    var y, r := MarchParts(z);
    assert Civil(z) == MarchDate(y, r);
    MarchDateIsValid(y, r);
  }

  /** Order of dates: year, then month, then day. */
  predicate Before(a: Date, b: Date) {
    a.year < b.year || (a.year == b.year &&
      (a.month < b.month || (a.month == b.month && a.day < b.day)))
  }

  /** `f` runs through the reference calendar: a valid date at `z`, and its successor next. */
  ghost predicate StepsAt(f: int -> Date, z: int) {
    ValidDate(f(z)) && f(z + 1) == NextDay(f(z))
  }

  ghost predicate Walks(f: int -> Date) {
    forall z :: StepsAt(f, z)
  }

  lemma CivilWalks()
    ensures Walks(Civil)
  {
    forall z
      ensures StepsAt(Civil, z)
    {
      CivilIsGregorian(z);
    }
  }

  lemma NextDayIsLater(d: Date)
    requires ValidDate(d)
    ensures ValidDate(NextDay(d)) && Before(d, NextDay(d))
  {
  }

  lemma {:induction false} WalkKeepsOrder(f: int -> Date, z: int, z': int)
    requires Walks(f) && z < z'
    ensures Before(f(z), f(z'))
    decreases z' - z
  {
    assert StepsAt(f, z' - 1);
    NextDayIsLater(f(z' - 1));
    if z < z' - 1 {
      WalkKeepsOrder(f, z, z' - 1);
    }
  }

  /** Later day numbers have later dates, so no two share a date. */
  lemma CivilKeepsOrder(z: int, z': int)
    requires z < z'
    ensures Before(Civil(z), Civil(z'))
  {
    CivilWalks();
    WalkKeepsOrder(Civil, z, z');
  }

  /** Days before January 1 of `year`, counted one year at a time from year 0. */
  function DaysBeforeYear(year: nat): nat {
    if year == 0 then 0 else DaysBeforeYear(year - 1) + (if IsLeap(year - 1) then 366 else 365)
  }

  function DaysBeforeMonth(year: int, month: int): nat
    requires 1 <= month <= 12
    decreases month
  {
    if month == 1 then 0 else DaysBeforeMonth(year, month - 1) + DaysInMonth(year, month - 1)
  }

  /** The number of days from January 1 of year 0 to `d`, by counting. */
  function DayNumber(d: Date): nat
    requires ValidDate(d) && d.year >= 0
  {
    DaysBeforeYear(d.year) + DaysBeforeMonth(d.year, d.month) + (d.day - 1)
  }

  lemma YearLength(year: int)
    ensures DaysBeforeMonth(year, 12) == if IsLeap(year) then 335 else 334
  {
    assert DaysBeforeMonth(year, 3) == if IsLeap(year) then 60 else 59;
    assert DaysBeforeMonth(year, 6) == DaysBeforeMonth(year, 3) + 92;
    assert DaysBeforeMonth(year, 9) == DaysBeforeMonth(year, 6) + 92;
    assert DaysBeforeMonth(year, 12) == DaysBeforeMonth(year, 9) + 91;
  }

  lemma NextInMonth(d: Date)
    requires ValidDate(d) && d.year >= 0 && d.day < DaysInMonth(d.year, d.month)
    ensures DayNumber(NextDay(d)) == DayNumber(d) + 1
  {
    hide DaysBeforeYear, DaysBeforeMonth, DaysInMonth;
  }

  lemma MonthCounts(year: int, month: int)
    requires 1 <= month < 12
    ensures DaysBeforeMonth(year, month + 1) == DaysBeforeMonth(year, month) + DaysInMonth(year, month)
  {
    hide DaysInMonth;
  }

  lemma NextInYear(d: Date)
    requires ValidDate(d) && d.year >= 0 && d.day == DaysInMonth(d.year, d.month) && d.month < 12
    ensures DayNumber(NextDay(d)) == DayNumber(d) + 1
  {
    MonthCounts(d.year, d.month);
    hide DaysBeforeYear, DaysBeforeMonth, IsLeap;
  }

  lemma YearCounts(year: nat)
    ensures DaysBeforeYear(year + 1) == DaysBeforeYear(year) + (if IsLeap(year) then 366 else 365)
  {
    hide IsLeap;
  }

  lemma NextYear(d: Date)
    requires ValidDate(d) && d.year >= 0 && d.month == 12 && d.day == 31
    ensures DayNumber(NextDay(d)) == DayNumber(d) + 1
  {
    YearLength(d.year);
    YearCounts(d.year);
    FirstMonth(d.year + 1);
    hide DaysBeforeYear, DaysBeforeMonth, IsLeap;
  }

  lemma FirstMonth(year: int)
    ensures DaysBeforeMonth(year, 1) == 0
  {
  }

  lemma NextDayNumber(d: Date)
    requires ValidDate(d) && d.year >= 0
    ensures DayNumber(NextDay(d)) == DayNumber(d) + 1
  {
    hide DayNumber, NextDay, IsLeap;
    if d.day < DaysInMonth(d.year, d.month) {
      NextInMonth(d);
    } else if d.month < 12 {
      NextInYear(d);
    } else {
      NextYear(d);
    }
  }

  lemma {:induction false} WalkCounts(f: int -> Date, z: int, z': int)
    requires Walks(f) && z <= z' && ValidDate(f(z)) && f(z).year >= 0
    ensures ValidDate(f(z')) && f(z').year >= f(z).year
    ensures DayNumber(f(z')) == DayNumber(f(z)) + (z' - z)
    decreases z' - z
  {
    if z < z' {
      WalkCounts(f, z, z' - 1);
      assert StepsAt(f, z' - 1);
      NextDayIsLater(f(z' - 1));
      NextDayNumber(f(z' - 1));
    }
  }

  const EPOCH_DAY := 719_468

  lemma EpochDate()
    ensures Civil(EPOCH_DAY) == Date(1970, 1, 1)
  {
  }

  /** The fast form inverts counting: day `z` from the epoch on has the date that is
      `z - EPOCH_DAY` days after 1970-01-01. */
  lemma CivilInvertsCounting(z: int)
    requires z >= EPOCH_DAY
    ensures ValidDate(Civil(z)) && Civil(z).year >= 1970
    ensures DayNumber(Civil(z)) == DayNumber(Date(1970, 1, 1)) + (z - EPOCH_DAY)
  {
    CivilWalks();
    EpochDate();
    WalkCounts(Civil, EPOCH_DAY, z);
  }

  /** Truncation of a 64-bit integer to 32 bits (`as i32`). */
  function AsI32(n: int): (r: int)
    ensures -0x8000_0000 <= r < 0x8000_0000
    ensures -0x8000_0000 <= n < 0x8000_0000 ==> r == n
  {
    (n + 0x8000_0000) % 0x1_0000_0000 - 0x8000_0000
  }

  /** `days_to_civil` with its result type: the year is cast to 32 bits. */
  function DaysToCivil(z: int): Date {
    var d := Civil(z);
    Date(AsI32(d.year), d.month, d.day)
  }

  /** First day numbers of the years -2^31 and 2^31. */
  const FIRST_EXACT_DAY := -784_352_296_365
  const FIRST_INEXACT_DAY := 784_352_296_245

  lemma DateOfParts(z: int, era: int, c: int, q: int, k: int, r: int)
    requires Splits(z - 146_097 * era, c, q, k, r)
    ensures Civil(z) == MarchDate(100 * c + 4 * q + k + era * 400, r)
  {
    EraIsFloor(z);
    assert 0 <= z - 146_097 * era < 146_097;
    assert Era(z) == era;
    YearOfSplit(DayOfEra(z), c, q, k, r);
  }

  lemma LimitDates()
    ensures Civil(FIRST_EXACT_DAY) == Date(-0x8000_0000, 1, 1)
    ensures Civil(FIRST_INEXACT_DAY) == Date(0x8000_0000, 1, 1)
  {
    hide NextDay, ValidDate, IsLeap, Era, DayOfEra, YearOfEra, DayOfYear, Civil;
    DateOfParts(FIRST_EXACT_DAY, -5_368_710, 3, 12, 3, 306);
    DateOfParts(FIRST_INEXACT_DAY, 5_368_709, 0, 11, 3, 306);
  }

  lemma YearsBetween(f: int -> Date, lo: int, hi: int, z: int, first: int, last: int)
    requires Walks(f) && f(lo) == Date(first, 1, 1) && f(hi) == Date(last, 1, 1)
    ensures lo <= z < hi <==> first <= f(z).year < last
  {
    assert StepsAt(f, z);
    if z < lo { WalkKeepsOrder(f, z, lo); }
    if lo < z { WalkKeepsOrder(f, lo, z); }
    if z < hi { WalkKeepsOrder(f, z, hi); }
    if hi < z { WalkKeepsOrder(f, hi, z); }
  }

  /** The casts lose nothing exactly for the day numbers of the years a 32-bit integer holds. */
  lemma ExactDays(z: int)
    ensures FIRST_EXACT_DAY <= z < FIRST_INEXACT_DAY <==> DaysToCivil(z) == Civil(z)
  {
    CivilWalks();
    LimitDates();
    YearsBetween(Civil, FIRST_EXACT_DAY, FIRST_INEXACT_DAY, z, -0x8000_0000, 0x8000_0000);
  }
}
