/** `format_event_timestamp`: seconds since the epoch as `YYYY-MM-DDThh:mm:ssZ`, proved
    against a reader that counts days on the reference calendar.

    The reader knows nothing of the divisions in the formatter. It takes the fields back out
    of the text, checks them, counts the days of whole years and months since 1970, and adds
    up seconds. That the count comes back ties both forms together, and that the fields have
    fixed widths up to the year 9999 makes the order of the texts the order of time. */
module Timestamp {
  import opened Options
  import opened Calendar
  import opened Decimal

  /** `{y:04}`: the sign counts towards the width. */
  function FormatYear(y: int): string {
    if y >= 0 then Padded(y, 4) else "-" + Padded(-y, 3)
  }

  function Layout(year: string, mo: nat, d: nat, h: nat, mi: nat, s: nat): string {
    year + ("-" + (Padded(mo, 2) + ("-" + (Padded(d, 2) + ("T" +
    (Padded(h, 2) + (":" + (Padded(mi, 2) + (":" + (Padded(s, 2) + "Z"))))))))))
  }

  function Format(secs: nat): string {
    var hms := secs % 86_400;
    var date := DaysToCivil(secs / 86_400 + EPOCH_DAY);
    CivilIsGregorian(secs / 86_400 + EPOCH_DAY);
    Layout(FormatYear(date.year), date.month, date.day, hms / 3_600, hms % 3_600 / 60, hms % 60)
  }

  /** Seconds since the epoch of a date and a time of day, by counting days. */
  function SecondsAt(date: Date, h: nat, mi: nat, s: nat): int
    requires ValidDate(date) && date.year >= 0
  {
    (DayNumber(date) - DayNumber(Date(1970, 1, 1))) * 86_400 + h * 3_600 + mi * 60 + s
  }

  /** Reads the fields of a timestamp back; `None` when it is not one. */
  function Read(t: string): Option<int> {
    if |t| < 17 then None else
    var n := |t| - 16;
    var year, rest := t[..n], t[n..];
    if !(AllDigits(year) && rest[0] == '-' && rest[3] == '-' && rest[6] == 'T' && rest[9] == ':'
         && rest[12] == ':' && rest[15] == 'Z' && AllDigits(rest[1..3]) && AllDigits(rest[4..6])
         && AllDigits(rest[7..9]) && AllDigits(rest[10..12]) && AllDigits(rest[13..15])) then None else
    var date := Date(Value(year), Value(rest[1..3]), Value(rest[4..6]));
    if !ValidDate(date) then None else
    Some(SecondsAt(date, Value(rest[7..9]), Value(rest[10..12]), Value(rest[13..15])))
  }

  lemma TwoDigits(n: nat)
    requires n < 100
    ensures |Padded(n, 2)| == 2 && Value(Padded(n, 2)) == n
  {
    assert Pow10(2) == 100;
    PaddedLength(n, 2);
    PaddedRoundTrip(n, 2);
  }

  lemma LayoutFields(year: string, mo: nat, d: nat, h: nat, mi: nat, s: nat)
    requires mo < 100 && d < 100 && h < 100 && mi < 100 && s < 100
    ensures var t := Layout(year, mo, d, h, mi, s);
            && |t| == |year| + 16 && t[..|year|] == year
            && var rest := t[|year|..];
            && rest[0] == '-' && rest[1..3] == Padded(mo, 2) && rest[3] == '-' && rest[4..6] == Padded(d, 2)
            && rest[6] == 'T' && rest[7..9] == Padded(h, 2) && rest[9] == ':'
            && rest[10..12] == Padded(mi, 2) && rest[12] == ':' && rest[13..15] == Padded(s, 2)
            && rest[15] == 'Z'
  {
    hide Padded, Value;
    TwoDigits(mo);
    TwoDigits(d);
    TwoDigits(h);
    TwoDigits(mi);
    TwoDigits(s);
  }

  /** Reading a laid out timestamp gives its fields. */
  lemma ReadLayout(y: nat, mo: nat, d: nat, h: nat, mi: nat, s: nat)
    requires mo < 100 && d < 100 && h < 100 && mi < 100 && s < 100
    ensures Read(Layout(FormatYear(y), mo, d, h, mi, s)) ==
            if ValidDate(Date(y, mo, d)) then Some(SecondsAt(Date(y, mo, d), h, mi, s)) else None
  {
    hide Padded, DayNumber, ValidDate, Layout;
    LayoutFields(FormatYear(y), mo, d, h, mi, s);
    PaddedRoundTrip(y, 4);
    TwoDigits(mo);
    TwoDigits(d);
    TwoDigits(h);
    TwoDigits(mi);
    TwoDigits(s);
  }

  lemma {:induction false} YearsKeepOrder(a: nat, b: nat)
    requires a <= b
    ensures DaysBeforeYear(a) <= DaysBeforeYear(b)
    decreases b
  {
    if a < b {
      YearsKeepOrder(a, b - 1);
    }
  }

  lemma {:induction false} MonthsKeepOrder(year: int, a: int, b: int)
    requires 1 <= a <= b <= 12
    ensures DaysBeforeMonth(year, a) <= DaysBeforeMonth(year, b)
    decreases b
  {
    if a < b {
      MonthsKeepOrder(year, a, b - 1);
    }
  }

  lemma DayWithinYear(d: Date)
    requires ValidDate(d) && d.year >= 0
    ensures DayNumber(d) < DaysBeforeYear(d.year + 1)
  {
    YearLength(d.year);
    if d.month < 12 {
      assert DaysBeforeMonth(d.year, d.month + 1) ==
             DaysBeforeMonth(d.year, d.month) + DaysInMonth(d.year, d.month);
      MonthsKeepOrder(d.year, d.month + 1, 12);
    }
  }

  lemma EarlierYearFewerDays(a: Date, b: Date)
    requires ValidDate(a) && ValidDate(b) && 0 <= a.year < b.year
    ensures DayNumber(a) < DayNumber(b)
  {
    DayWithinYear(a);
    YearsKeepOrder(a.year + 1, b.year);
  }

  lemma SecondsOfParts(date: Date, secs: nat)
    requires ValidDate(date) && date.year >= 0
    requires DayNumber(date) == DayNumber(Date(1970, 1, 1)) + secs / 86_400
    ensures SecondsAt(date, secs % 86_400 / 3_600, secs % 86_400 % 3_600 / 60, secs % 86_400 % 60) == secs
  {
    hide DayNumber, ValidDate;
    var hms := secs % 86_400;
    assert hms == hms / 3_600 * 3_600 + hms % 3_600 / 60 * 60 + hms % 60;
  }

  /** The first second of the year 2^31. */
  const LIMIT := (FIRST_INEXACT_DAY - EPOCH_DAY) * 86_400

  /** Day `z` from the epoch on, as the formatter sees it. */
  lemma DayFacts(z: int) returns (date: Date)
    requires z >= EPOCH_DAY
    ensures date == Civil(z) && ValidDate(date) && date.year >= 1970
    ensures DayNumber(date) == DayNumber(Date(1970, 1, 1)) + (z - EPOCH_DAY)
    ensures DaysToCivil(z) == Date(AsI32(date.year), date.month, date.day)
    ensures z < FIRST_INEXACT_DAY <==> AsI32(date.year) == date.year
  {
    date := Civil(z);
    CivilInvertsCounting(z);
    ExactDays(z);
  }

  lemma FormatAsLayout(secs: nat) returns (date: Date, h: nat, mi: nat, s: nat)
    ensures date == Civil(secs / 86_400 + EPOCH_DAY)
    ensures ValidDate(date) && date.year >= 1970 && h < 24 && mi < 60 && s < 60
    ensures h == secs % 86_400 / 3_600 && mi == secs % 86_400 % 3_600 / 60 && s == secs % 86_400 % 60
    ensures SecondsAt(date, h, mi, s) == secs
    ensures Format(secs) == Layout(FormatYear(AsI32(date.year)), date.month, date.day, h, mi, s)
    ensures secs < LIMIT <==> AsI32(date.year) == date.year
  {
    h, mi, s := secs % 86_400 / 3_600, secs % 86_400 % 3_600 / 60, secs % 86_400 % 60;
    date := DayFacts(secs / 86_400 + EPOCH_DAY);
    SecondsOfParts(date, secs);
    assert secs < LIMIT <==> secs / 86_400 + EPOCH_DAY < FIRST_INEXACT_DAY;
  }

  lemma EarlierYearEarlierSecond(a: Date, b: Date, h: nat, mi: nat, s: nat)
    requires ValidDate(a) && ValidDate(b) && 0 <= a.year < b.year
    ensures SecondsAt(a, h, mi, s) < SecondsAt(b, h, mi, s)
  {
    hide DayNumber, ValidDate;
    EarlierYearFewerDays(a, b);
  }

  /** A year with a sign is not read. */
  lemma SignedYearUnread(y: int, mo: nat, d: nat, h: nat, mi: nat, s: nat)
    requires y < 0 && mo < 100 && d < 100 && h < 100 && mi < 100 && s < 100
    ensures Read(Layout(FormatYear(y), mo, d, h, mi, s)) == None
  {
    hide Padded, Layout, ValidDate;
    LayoutFields(FormatYear(y), mo, d, h, mi, s);
    assert FormatYear(y)[0] == '-';
  }

  /** Reading a timestamp back gives the same second count exactly when the year of the
      instant fits the 32 bits it is cast to. */
  lemma RoundTrip(secs: nat)
    ensures Read(Format(secs)) == Some(secs) <==> secs < LIMIT
  {
    hide Read, Format, Layout, FormatYear, SecondsAt, Civil;
    var date, h, mi, s := FormatAsLayout(secs);
    var year := AsI32(date.year);
    if year >= 0 {
      ReadLayout(year, date.month, date.day, h, mi, s);
      if year < date.year && ValidDate(Date(year, date.month, date.day)) {
        EarlierYearEarlierSecond(Date(year, date.month, date.day), date, h, mi, s);
      }
    } else {
      SignedYearUnread(year, date.month, date.day, h, mi, s);
    }
  }

  lemma SeparatorKeepsOrder(c: string, x: string, x': string)
    ensures LexLess(c + x, c + x') <==> LexLess(x, x')
  {
    LexLessOfParts(c, c, x, x');
    IrreflexiveLess(c);
  }

  lemma {:induction false} IrreflexiveLess(a: string)
    ensures !LexLess(a, a)
  {
    if a != [] {
      IrreflexiveLess(a[1..]);
    }
  }

  /** A two-digit field followed by a tail orders by the field, then by the tail. */
  lemma FieldOrder(c: string, n: nat, n': nat, x: string, x': string)
    requires n < 100 && n' < 100
    ensures LexLess(c + (Padded(n, 2) + x), c + (Padded(n', 2) + x')) <==>
            n < n' || (n == n' && LexLess(x, x'))
  {
    SeparatorKeepsOrder(c, Padded(n, 2) + x, Padded(n', 2) + x');
    TwoDigits(n);
    TwoDigits(n');
    LexLessOfParts(Padded(n, 2), Padded(n', 2), x, x');
    LexLessIsNumeric(Padded(n, 2), Padded(n', 2));
  }

  lemma LayoutOrder(y: nat, mo: nat, d: nat, h: nat, mi: nat, s: nat,
                    y': nat, mo': nat, d': nat, h': nat, mi': nat, s': nat)
    requires y < 10_000 && mo < 100 && d < 100 && h < 100 && mi < 100 && s < 100
    requires y' < 10_000 && mo' < 100 && d' < 100 && h' < 100 && mi' < 100 && s' < 100
    ensures LexLess(Layout(FormatYear(y), mo, d, h, mi, s), Layout(FormatYear(y'), mo', d', h', mi', s')) <==>
            y < y' || (y == y' && (mo < mo' || (mo == mo' && (d < d' || (d == d' &&
            (h < h' || (h == h' && (mi < mi' || (mi == mi' && s < s')))))))))
  {
    var z5, z5' := ":" + (Padded(s, 2) + "Z"), ":" + (Padded(s', 2) + "Z");
    FieldOrder(":", s, s', "Z", "Z");
    IrreflexiveLess("Z");
    var z4, z4' := ":" + (Padded(mi, 2) + z5), ":" + (Padded(mi', 2) + z5');
    FieldOrder(":", mi, mi', z5, z5');
    var z3, z3' := "T" + (Padded(h, 2) + z4), "T" + (Padded(h', 2) + z4');
    FieldOrder("T", h, h', z4, z4');
    var z2, z2' := "-" + (Padded(d, 2) + z3), "-" + (Padded(d', 2) + z3');
    FieldOrder("-", d, d', z3, z3');
    FieldOrder("-", mo, mo', z2, z2');
    var z1, z1' := "-" + (Padded(mo, 2) + z2), "-" + (Padded(mo', 2) + z2');
    assert Pow10(4) == 10_000;
    PaddedLength(y, 4);
    PaddedLength(y', 4);
    PaddedRoundTrip(y, 4);
    PaddedRoundTrip(y', 4);
    LexLessOfParts(Padded(y, 4), Padded(y', 4), z1, z1');
    LexLessIsNumeric(Padded(y, 4), Padded(y', 4));
  }

  /** The first second of the year 10000. */
  const YEAR_10000 := 253_402_300_800

  lemma DatesOfDays(z: int, z': int) returns (date: Date, date': Date)
    ensures date == Civil(z) && date' == Civil(z')
    ensures z < z' ==> Before(date, date')
    ensures z' < z ==> Before(date', date)
    ensures z == z' ==> date == date'
  {
    date, date' := Civil(z), Civil(z');
    if z < z' { CivilKeepsOrder(z, z'); }
    if z' < z { CivilKeepsOrder(z', z); }
  }

  /** The fields of two instants of the years up to 9999, and how the dates compare. */
  lemma FieldsOfPair(t: nat, t': nat)
    returns (date: Date, h: nat, mi: nat, s: nat, date': Date, h': nat, mi': nat, s': nat)
    requires t < YEAR_10000 && t' < YEAR_10000
    ensures 0 <= date.year < 10_000 && 0 <= date.month < 100 && 0 <= date.day < 100
    ensures 0 <= date'.year < 10_000 && 0 <= date'.month < 100 && 0 <= date'.day < 100
    ensures h == t % 86_400 / 3_600 && mi == t % 86_400 % 3_600 / 60 && s == t % 86_400 % 60
    ensures h' == t' % 86_400 / 3_600 && mi' == t' % 86_400 % 3_600 / 60 && s' == t' % 86_400 % 60
    ensures Format(t) == Layout(FormatYear(date.year), date.month, date.day, h, mi, s)
    ensures Format(t') == Layout(FormatYear(date'.year), date'.month, date'.day, h', mi', s')
    ensures t / 86_400 < t' / 86_400 ==> Before(date, date')
    ensures t' / 86_400 < t / 86_400 ==> Before(date', date)
    ensures t / 86_400 == t' / 86_400 ==> date == date'
  {
    hide Format, Layout, FormatYear, Civil;
    date, h, mi, s := FormatAsLayout(t);
    date', h', mi', s' := FormatAsLayout(t');
    YearOf10000(t);
    YearOf10000(t');
    var d, d' := DatesOfDays(t / 86_400 + EPOCH_DAY, t' / 86_400 + EPOCH_DAY);
  }

  lemma TimeOfDayOrder(a: nat, b: nat)
    requires a < 86_400 && b < 86_400
    ensures a < b <==>
            a / 3_600 < b / 3_600 || (a / 3_600 == b / 3_600 &&
            (a % 3_600 / 60 < b % 3_600 / 60 || (a % 3_600 / 60 == b % 3_600 / 60 && a % 60 < b % 60)))
  {
    assert a == a / 3_600 * 3_600 + a % 3_600 / 60 * 60 + a % 60;
    assert b == b / 3_600 * 3_600 + b % 3_600 / 60 * 60 + b % 60;
  }

  /** Up to the end of year 9999 the order of the strings is the order of the instants. */
  lemma SortsByTime(t: nat, t': nat)
    requires t < YEAR_10000 && t' < YEAR_10000
    ensures LexLess(Format(t), Format(t')) <==> t < t'
  {
    var date, h, mi, s, date', h', mi', s' := FieldsOfPair(t, t');
    TimeOfDayOrder(t % 86_400, t' % 86_400);
    assert h < 100 && mi < 100 && s < 100 && h' < 100 && mi' < 100 && s' < 100;
    LayoutOrder(date.year, date.month, date.day, h, mi, s, date'.year, date'.month, date'.day, h', mi', s');
  }

  lemma YearOf10000(t: nat)
    ensures t < YEAR_10000 <==> Civil(t / 86_400 + EPOCH_DAY).year < 10_000
  {
    var day := YEAR_10000 / 86_400 + EPOCH_DAY;
    DateOfParts(day, 24, 3, 24, 3, 306);
    assert Civil(day) == Date(10_000, 1, 1);
    var z := t / 86_400 + EPOCH_DAY;
    if z < day { CivilKeepsOrder(z, day); }
    if z > day { CivilKeepsOrder(day, z); }
  }

  /** The bound is sharp: the first second of year 10000 sorts before the second it follows. */
  lemma Year10000SortsFirst()
    ensures LexLess(Format(YEAR_10000), Format(YEAR_10000 - 1))
  {
    var day := YEAR_10000 / 86_400;
    assert (YEAR_10000 - 1) / 86_400 == day - 1;
    assert Splits(day + EPOCH_DAY - 146_097 * 24, 3, 24, 3, 306);
    YearLead(YEAR_10000, 24, 3, 24, 3, 306, 10_000);
    YearLead(YEAR_10000 - 1, 24, 3, 24, 3, 305, 9_999);
    LeadDigit(10_000, 1, 10_000);
    LeadDigit(9_999, 9, 1_000);
  }

  lemma {:induction false} LeadDigit(n: nat, d: nat, scale: nat)
    requires 1 <= d < 10 && scale in {1, 10, 100, 1_000, 10_000}
    requires d * scale <= n < (d + 1) * scale
    ensures Digits(n)[0] == DigitOf(d)
    decreases scale
  {
    if scale > 1 {
      assert d * (scale / 10) <= n / 10 < (d + 1) * (scale / 10);
      LeadDigit(n / 10, d, scale / 10);
      assert Digits(n) == Digits(n / 10) + [DigitOf(n % 10)];
    }
  }

  lemma YearLead(t: nat, era: int, c: int, q: int, k: int, r: int, year: nat)
    requires Splits(t / 86_400 + EPOCH_DAY - 146_097 * era, c, q, k, r)
    requires year == MarchDate(100 * c + 4 * q + k + era * 400, r).year && 1_000 <= year < 0x8000_0000
    ensures Format(t)[0] == Digits(year)[0]
  {
    var date, h, mi, s := FormatAsLayout(t);
    DateOfParts(t / 86_400 + EPOCH_DAY, era, c, q, k, r);
    FourDigits(year);
  }

  lemma FourDigits(year: nat)
    requires 1_000 <= year
    ensures FormatYear(year) == Digits(year)
  {
    assert Digits(year) == Digits(year / 10) + [DigitOf(year % 10)];
    assert Digits(year / 10) == Digits(year / 10 / 10) + [DigitOf(year / 10 % 10)];
    assert Digits(year / 10 / 10) == Digits(year / 10 / 10 / 10) + [DigitOf(year / 10 / 10 % 10)];
  }
}
