/** Numerals and timestamps digit by digit. */
module TimestampCases {
  import opened Calendar
  import opened Decimal
  import opened Timestamp

  lemma {:induction false} OneDigit(n: nat)
    requires n < 10
    ensures Digits(n) == [DigitOf(n)]
  {
  }

  lemma {:induction false} MoreDigits(n: nat)
    requires n >= 10
    ensures Digits(n) == Digits(n / 10) + [DigitOf(n % 10)]
  {
  }

  /** Two digits. */
  lemma {:induction false} Two(n: nat)
    requires n < 100
    ensures Padded(n, 2) == ["0123456789"[n / 10], "0123456789"[n % 10]]
  {
    hide Digits;
    if n < 10 {
      OneDigit(n);
      assert Zeros(1) == "0";
    } else {
      MoreDigits(n);
      OneDigit(n / 10);
      assert Zeros(0) == "";
    }
    TenDigits(n / 10);
    TenDigits(n % 10);
  }

  lemma {:induction false} TenDigits(d: nat)
    requires d < 10
    ensures DigitOf(d) == "0123456789"[d] && DigitOf(0) == '0'
  {
  }

  /** Four digits. */
  lemma {:induction false} Four(n: nat)
    requires 1000 <= n < 10_000
    ensures Padded(n, 4) == ["0123456789"[n / 1000], "0123456789"[n / 100 % 10], "0123456789"[n / 10 % 10],
                             "0123456789"[n % 10]]
  {
    hide Digits;
    MoreDigits(n);
    MoreDigits(n / 10);
    MoreDigits(n / 10 / 10);
    OneDigit(n / 10 / 10 / 10);
    assert n / 10 / 10 == n / 100 && n / 10 / 10 / 10 == n / 1000;
    TenDigits(n / 1000);
    TenDigits(n / 100 % 10);
    TenDigits(n / 10 % 10);
    TenDigits(n % 10);
    assert Zeros(0) == "";
  }

  /** Numerals are written in decimal. */
  lemma {:induction false} DecimalDigits()
    ensures Digits(1_234_567_890) == "1234567890"
  {
    hide Digits;
    MoreDigits(1_234_567_890);
    MoreDigits(123_456_789);
    MoreDigits(12_345_678);
    MoreDigits(1_234_567);
    MoreDigits(123_456);
    MoreDigits(12_345);
    MoreDigits(1_234);
    MoreDigits(123);
    MoreDigits(12);
    OneDigit(1);
  }

  /** The timestamp of an instant from the year 1000 to the year 9999, character by character. */
  lemma {:induction false} Shown(secs: nat, date: Date, h: nat, mi: nat, sec: nat)
    requires DaysToCivil(secs / 86_400 + EPOCH_DAY) == date && ValidDate(date) && 1000 <= date.year < 10_000
    requires h < 24 && mi < 60 && sec < 60 && secs % 86_400 == h * 3_600 + mi * 60 + sec
    ensures var y, digits := date.year, "0123456789";
            Format(secs) == [digits[y / 1000], digits[y / 100 % 10], digits[y / 10 % 10], digits[y % 10]]
                            + ("-" + ([digits[date.month / 10], digits[date.month % 10]]
                            + ("-" + ([digits[date.day / 10], digits[date.day % 10]]
                            + ("T" + ([digits[h / 10], digits[h % 10]]
                            + (":" + ([digits[mi / 10], digits[mi % 10]]
                            + (":" + ([digits[sec / 10], digits[sec % 10]] + "Z"))))))))))
  {
    hide DaysToCivil, Padded;
    TimeOfDay(secs % 86_400, h, mi, sec);
    Four(date.year);
    Two(date.month);
    Two(date.day);
    Two(h);
    Two(mi);
    Two(sec);
  }

  lemma {:induction false} TimeOfDay(n: nat, h: nat, mi: nat, sec: nat)
    requires n == h * 3_600 + mi * 60 + sec && mi < 60 && sec < 60
    ensures n / 3_600 == h && n % 3_600 / 60 == mi && n % 60 == sec
  {
    assert mi * 60 + sec < 3_600;
    Quotient(n, 3_600, h, mi * 60 + sec);
    Quotient(mi * 60 + sec, 60, mi, sec);
    Quotient(n, 60, h * 60 + mi, sec);
  }

  lemma {:induction false} Quotient(n: nat, d: nat, q: nat, r: nat)
    requires n == d * q + r && r < d
    ensures n / d == q && n % d == r
  {
    Unique(n, d, q, r, n / d, n % d);
  }

  lemma {:induction false} Unique(n: nat, d: nat, q: nat, r: nat, x: nat, y: nat)
    requires n == d * q + r && r < d && n == d * x + y && y < d
    ensures q == x && r == y
  {
    Steps(d, q, x);
    Steps(d, x, q);
  }

  lemma {:induction false} Steps(d: nat, q: nat, x: nat)
    ensures q < x ==> d * q + d <= d * x
  {
    if q < x {
      var k := x - q - 1;
      assert d * x == d * q + d + d * k;
    }
  }

  /** The first second of 1970. */
  lemma {:induction false} FirstInstant()
    ensures Format(0) == "1970-01-01T00:00:00Z"
  {
    hide DaysToCivil, Format, Civil;
    EpochDate();
    ExactDays(EPOCH_DAY);
    assert 0 / 86_400 + EPOCH_DAY == EPOCH_DAY;
    Shown(0, Date(1970, 1, 1), 0, 0, 0);
  }

  /** Years wrap around at 32 bits. */
  lemma {:induction false} YearWraps(y: int)
    ensures -2_147_483_648 <= AsI32(y) < 2_147_483_648
    ensures (AsI32(y) - y) % 4_294_967_296 == 0
  {
  }

  /** A negative year has its sign in front of at least three digits. */
  lemma {:induction false} NegativeYear(y: int)
    requires y < 0
    ensures var t := FormatYear(y); |t| >= 4 && t[0] == '-' && AllDigits(t[1..]) && Value(t[1..]) == -y
  {
    hide Digits;
    PaddedRoundTrip(-y, 3);
    assert FormatYear(y)[1..] == Padded(-y, 3);
  }
}
