/**
 Calendar dates as Python's `datetime.date` holds them (years 1 to 9999), their
 canonical `YYYY-MM-DD` text (`strftime('%Y-%m-%d')`), the long form used in
 messages (`strftime('%B %d, %Y')`), and a decoder for canonical text.
 */
module Dates {
  import opened Wrappers
  import opened Text

  datatype Date = Date(year: int, month: int, day: int)

  predicate IsLeapYear(y: int)
  {
    y % 4 == 0 && (y % 100 != 0 || y % 400 == 0)
  }

  function DaysInMonth(y: int, m: int): int
    requires 1 <= m <= 12
  {
    if m == 2 then (if IsLeapYear(y) then 29 else 28)
    else if m == 4 || m == 6 || m == 9 || m == 11 then 30
    else 31
  }

  predicate ValidDate(d: Date)
  {
    && 1 <= d.year <= 9999
    && 1 <= d.month <= 12
    && 1 <= d.day <= DaysInMonth(d.year, d.month)
  }

  /** A date that exists in the proleptic Gregorian calendar. */
  type CalendarDate = d: Date | ValidDate(d) witness Date(2000, 1, 1)

  /** `a < b` on dates: chronological order. */
  predicate Before(a: Date, b: Date)
  {
    || a.year < b.year
    || (a.year == b.year && a.month < b.month)
    || (a.year == b.year && a.month == b.month && a.day < b.day)
  }

  predicate IsDigit(c: char)
  {
    '0' <= c <= '9'
  }

  function DigitChar(n: int): (c: char)
    requires 0 <= n <= 9
    ensures IsDigit(c)
  {
    ('0' as int + n) as char
  }

  function DigitValue(c: char): int
  {
    c as int - '0' as int
  }

  /** Two decimal digits, zero-padded: `%02d`, `%m`, `%d`. */
  function Pad2(n: int): (r: string)
    requires 0 <= n <= 99
    ensures |r| == 2
  {
    [DigitChar(n / 10), DigitChar(n % 10)]
  }

  /** Four decimal digits, zero-padded: `%Y`. */
  function Pad4(n: int): (r: string)
    requires 0 <= n <= 9999
    ensures |r| == 4
  {
    Pad2(n / 100) + Pad2(n % 100)
  }

  /** The canonical form `YYYY-MM-DD`. */
  function Iso(d: CalendarDate): (r: string)
    ensures |r| == 10
  {
    Pad4(d.year) + ("-" + (Pad2(d.month) + ("-" + Pad2(d.day))))
  }

  function MonthName(m: int): string
    requires 1 <= m <= 12
  {
    ["January", "February", "March", "April", "May", "June", "July",
     "August", "September", "October", "November", "December"][m - 1]
  }

  /** The long form `%B %d, %Y`, e.g. `January 05, 2025`. */
  function LongForm(d: CalendarDate): string
  {
    MonthName(d.month) + " " + Pad2(d.day) + ", " + Pad4(d.year)
  }

  /** The value of the two digits of `s` at `i`. */
  function Decode2(s: string, i: nat): int
    requires i + 2 <= |s|
  {
    10 * DigitValue(s[i]) + DigitValue(s[i + 1])
  }

  /** `s` has the shape `DDDD-DD-DD`, each `D` a decimal digit. */
  predicate IsoShaped(s: string)
  {
    && |s| == 10
    && s[4] == '-' && s[7] == '-'
    && forall k :: 0 <= k < 10 && k != 4 && k != 7 ==> IsDigit(s[k])
  }

  /** Reads canonical text back into a date; anything else is `None`. */
  function ParseIso(s: string): (r: Option<CalendarDate>)
    ensures r.Some? ==> IsoShaped(s)
  {
    if IsoShaped(s) then
      var d := Date(100 * Decode2(s, 0) + Decode2(s, 2), Decode2(s, 5), Decode2(s, 8));
      if ValidDate(d) then Some(d) else None
    else None
  }

  /** Text is canonical when it is the `YYYY-MM-DD` form of a real date. */
  predicate IsCanonical(s: string)
  {
    ParseIso(s).Some?
  }

  lemma Pad2Decodes(n: int, s: string, i: nat)
    requires 0 <= n <= 99
    requires i + 2 <= |s| && s[i..i + 2] == Pad2(n)
    ensures Decode2(s, i) == n
  {
    assert s[i] == Pad2(n)[0] && s[i + 1] == Pad2(n)[1];
  }

  /** Decoding the canonical form gives back the date. */
  lemma {:induction false} IsoRoundTrip(d: CalendarDate)
    ensures ParseIso(Iso(d)) == Some(d)
  {
    var s := Iso(d);
    assert s[0..2] == Pad2(d.year / 100);
    assert s[2..4] == Pad2(d.year % 100);
    assert s[5..7] == Pad2(d.month);
    assert s[8..10] == Pad2(d.day);
    Pad2Decodes(d.year / 100, s, 0);
    Pad2Decodes(d.year % 100, s, 2);
    Pad2Decodes(d.month, s, 5);
    Pad2Decodes(d.day, s, 8);
    assert IsoShaped(s);
  }

  lemma Pad2OfDigits(s: string, i: nat)
    requires i + 2 <= |s| && IsDigit(s[i]) && IsDigit(s[i + 1])
    ensures 0 <= Decode2(s, i) <= 99
    ensures Pad2(Decode2(s, i)) == s[i..i + 2]
  {
    var a, b := DigitValue(s[i]), DigitValue(s[i + 1]);
    assert (10 * a + b) / 10 == a && (10 * a + b) % 10 == b;
  }

  /** Only the canonical form of a date decodes to it. */
  lemma {:induction false} ParseIsoCanonical(s: string, d: CalendarDate)
    requires ParseIso(s) == Some(d)
    ensures Iso(d) == s
  {
    Pad2OfDigits(s, 0);
    Pad2OfDigits(s, 2);
    Pad2OfDigits(s, 5);
    Pad2OfDigits(s, 8);
    var hi, lo := Decode2(s, 0), Decode2(s, 2);
    assert (100 * hi + lo) / 100 == hi && (100 * hi + lo) % 100 == lo;
    assert s == s[0..2] + s[2..4] + ("-" + (s[5..7] + ("-" + s[8..10])));
  }

  lemma DigitCharOrder(a: int, b: int)
    requires 0 <= a <= 9 && 0 <= b <= 9
    ensures DigitChar(a) < DigitChar(b) <==> a < b
    ensures DigitChar(a) == DigitChar(b) <==> a == b
  {
  }

  lemma Pad2Order(x: int, y: int)
    requires 0 <= x <= 99 && 0 <= y <= 99
    ensures StrLess(Pad2(x), Pad2(y)) <==> x < y
    ensures Pad2(x) == Pad2(y) <==> x == y
  {
    DigitCharOrder(x / 10, y / 10);
    DigitCharOrder(x % 10, y % 10);
    var p, q := Pad2(x), Pad2(y);
    assert p == [p[0]] + [p[1]] && q == [q[0]] + [q[1]];
    StrLessConcat([p[0]], [p[1]], [q[0]], [q[1]]);
    assert StrLess([p[0]], [q[0]]) <==> p[0] < q[0];
    assert StrLess([p[1]], [q[1]]) <==> p[1] < q[1];
    assert x == 10 * (x / 10) + x % 10 && y == 10 * (y / 10) + y % 10;
  }

  lemma Pad4Order(x: int, y: int)
    requires 0 <= x <= 9999 && 0 <= y <= 9999
    ensures StrLess(Pad4(x), Pad4(y)) <==> x < y
    ensures Pad4(x) == Pad4(y) <==> x == y
  {
    Pad2Order(x / 100, y / 100);
    Pad2Order(x % 100, y % 100);
    StrLessConcat(Pad2(x / 100), Pad2(x % 100), Pad2(y / 100), Pad2(y % 100));
    if Pad4(x) == Pad4(y) {
      assert Pad4(x)[..2] == Pad2(x / 100) && Pad4(y)[..2] == Pad2(y / 100);
      assert Pad4(x)[2..] == Pad2(x % 100) && Pad4(y)[2..] == Pad2(y % 100);
    }
  }

  /** Prefixing the same character keeps order and equality. */
  lemma DashPrefix(a: string, b: string)
    ensures StrLess("-" + a, "-" + b) <==> StrLess(a, b)
    ensures "-" + a == "-" + b <==> a == b
  {
    assert ("-" + a)[1..] == a && ("-" + b)[1..] == b;
  }

  /**
   Zero-padded canonical dates compare as text exactly as the dates compare in
   time, so ordering the stored text orders the appointments by date.
   */
  lemma {:induction false} IsoOrder(a: CalendarDate, b: CalendarDate)
    ensures Before(a, b) <==> StrLess(Iso(a), Iso(b))
  {
    var da, db := Pad2(a.day), Pad2(b.day);
    Pad2Order(a.day, b.day);
    DashPrefix(da, db);
    var ma, mb := Pad2(a.month) + ("-" + da), Pad2(b.month) + ("-" + db);
    Pad2Order(a.month, b.month);
    StrLessConcat(Pad2(a.month), "-" + da, Pad2(b.month), "-" + db);
    if ma == mb {
      assert ma[..2] == Pad2(a.month) && mb[..2] == Pad2(b.month);
      assert ma[2..] == "-" + da && mb[2..] == "-" + db;
    }
    DashPrefix(ma, mb);
    Pad4Order(a.year, b.year);
    StrLessConcat(Pad4(a.year), "-" + ma, Pad4(b.year), "-" + mb);
  }

  /** Equal canonical text means the same date. */
  lemma IsoInjective(a: CalendarDate, b: CalendarDate)
    ensures Iso(a) == Iso(b) <==> a == b
  {
    IsoRoundTrip(a);
    IsoRoundTrip(b);
  }
}
