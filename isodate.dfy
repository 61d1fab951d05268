/**
  Calendar dates written in the complete extended format of ISO 8601
  (section 4.1.2.2 of ISO 8601:2004): four year digits, a hyphen, two month
  digits, a hyphen and two day digits, as `strptime(s, "%Y-%m-%d")` reads
  them and as the measurement table stores them.
 */
module IsoDate {

  import opened Outcomes
  import opened Calendar
  import opened TextOrder

  predicate IsDigit(c: char)
  {
    '0' <= c <= '9'
  }

  function DigitValue(c: char): (v: int)
    requires IsDigit(c)
    ensures 0 <= v <= 9
  {
    c as int - '0' as int
  }

  function DigitChar(v: int): (c: char)
    requires 0 <= v <= 9
    ensures IsDigit(c) && DigitValue(c) == v
  {
    ('0' as int + v) as char
  }

  /** The fixed shape `DDDD-DD-DD` with ASCII digits. */
  predicate HasIsoShape(s: string)
  {
    && |s| == 10
    && s[4] == '-' && s[7] == '-'
    && IsDigit(s[0]) && IsDigit(s[1]) && IsDigit(s[2]) && IsDigit(s[3])
    && IsDigit(s[5]) && IsDigit(s[6]) && IsDigit(s[8]) && IsDigit(s[9])
  }

  /** Two digits, zero-padded. */
  function Pad2(v: int): (s: string)
    requires 0 <= v <= 99
    ensures |s| == 2 && IsDigit(s[0]) && IsDigit(s[1])
  {
    [DigitChar(v / 10), DigitChar(v % 10)]
  }

  /** Four digits, zero-padded. */
  function Pad4(v: int): (s: string)
    requires 0 <= v <= 9999
    ensures |s| == 4 && IsDigit(s[0]) && IsDigit(s[1]) && IsDigit(s[2]) && IsDigit(s[3])
  {
    Pad2(v / 100) + Pad2(v % 100)
  }

  /** The number a string of decimal digits denotes. */
  function DigitsValue(s: string): (v: int)
    requires forall i | 0 <= i < |s| :: IsDigit(s[i])
    ensures v >= 0
  {
    if |s| == 0 then 0 else DigitsValue(s[..|s| - 1]) * 10 + DigitValue(s[|s| - 1])
  }

  lemma DigitRoundTrip(c: char)
    requires IsDigit(c)
    ensures DigitChar(DigitValue(c)) == c
  {
  }

  lemma TwoDigitsValue(s: string)
    requires |s| == 2 && IsDigit(s[0]) && IsDigit(s[1])
    ensures DigitsValue(s) == 10 * DigitValue(s[0]) + DigitValue(s[1])
  {
    var first := s[..1];
    assert first[..0] == [];
    assert DigitsValue(first) == DigitsValue(first[..0]) * 10 + DigitValue(first[0]);
    assert DigitsValue(s) == DigitsValue(first) * 10 + DigitValue(s[1]);
  }

  lemma FourDigitsValue(s: string)
    requires |s| == 4 && IsDigit(s[0]) && IsDigit(s[1]) && IsDigit(s[2]) && IsDigit(s[3])
    ensures DigitsValue(s) == 100 * DigitsValue(s[..2]) + DigitsValue(s[2..])
  {
    TwoDigitsValue(s[..2]);
    TwoDigitsValue(s[2..]);
    assert s[..3][..2] == s[..2];
    assert s[..3] == s[..2] + [s[2]];
    assert DigitsValue(s[..3]) == DigitsValue(s[..2]) * 10 + DigitValue(s[2]);
  }

  lemma Pad2Value(v: int)
    requires 0 <= v <= 99
    ensures DigitsValue(Pad2(v)) == v
  {
    TwoDigitsValue(Pad2(v));
  }

  lemma Pad4Value(v: int)
    requires 0 <= v <= 9999
    ensures DigitsValue(Pad4(v)) == v
  {
    var s := Pad4(v);
    assert s[..2] == Pad2(v / 100) && s[2..] == Pad2(v % 100);
    FourDigitsValue(s);
    Pad2Value(v / 100);
    Pad2Value(v % 100);
  }

  lemma Pad2OfValue(s: string)
    requires |s| == 2 && IsDigit(s[0]) && IsDigit(s[1])
    ensures DigitsValue(s) <= 99 && Pad2(DigitsValue(s)) == s
  {
    TwoDigitsValue(s);
    var v := DigitsValue(s);
    assert v / 10 == DigitValue(s[0]) && v % 10 == DigitValue(s[1]);
    DigitRoundTrip(s[0]);
    DigitRoundTrip(s[1]);
  }

  lemma Pad4OfValue(s: string)
    requires |s| == 4 && IsDigit(s[0]) && IsDigit(s[1]) && IsDigit(s[2]) && IsDigit(s[3])
    ensures DigitsValue(s) <= 9999 && Pad4(DigitsValue(s)) == s
  {
    var hi, lo := s[..2], s[2..];
    Pad2OfValue(hi);
    Pad2OfValue(lo);
    FourDigitsValue(s);
    var v := DigitsValue(s);
    assert v / 100 == DigitsValue(hi) && v % 100 == DigitsValue(lo);
    assert s == hi + lo;
  }

  /** `date.isoformat()`: the year zero-padded to four digits, month and day to two. */
  function Format(d: Date): (s: string)
    requires ValidDate(d)
    ensures HasIsoShape(s)
  {
    Pad4(d.year) + "-" + Pad2(d.month) + "-" + Pad2(d.day)
  }

  /**
    Reads a date; fails (Python's ValueError) unless `s` has the shape
    `DDDD-DD-DD` and names a day of the proleptic Gregorian calendar in
    years 1 to 9999.
   */
  function Parse(s: string): (r: Option<Date>)
    ensures r.Some? ==> ValidDate(r.value) && Format(r.value) == s
  {
    if !HasIsoShape(s) then None
    else
      var d := Date(DigitsValue(s[..4]), DigitsValue(s[5..7]), DigitsValue(s[8..]));
      if ValidDate(d) then
        Pad4OfValue(s[..4]);
        Pad2OfValue(s[5..7]);
        Pad2OfValue(s[8..]);
        assert s == s[..4] + "-" + s[5..7] + "-" + s[8..];
        Some(d)
      else None
  }

  /** Formatting a valid date and reading it back gives the same date. */
  lemma ParseFormat(d: Date)
    requires ValidDate(d)
    ensures Parse(Format(d)) == Some(d)
  {
    var s := Format(d);
    assert s[..4] == Pad4(d.year);
    assert s[5..7] == Pad2(d.month);
    assert s[8..] == Pad2(d.day);
    Pad4Value(d.year);
    Pad2Value(d.month);
    Pad2Value(d.day);
  }

  /** Parsing succeeds exactly on the strings that are the rendering of some valid date. */
  lemma ParseSucceedsIff(s: string, d: Date)
    ensures Parse(s) == Some(d) <==> ValidDate(d) && Format(d) == s
  {
    if ValidDate(d) && Format(d) == s {
      ParseFormat(d);
    }
  }

  /** Strings of the wrong shape are rejected whatever their content. */
  lemma ParseRejectsBadShape(s: string)
    requires !HasIsoShape(s)
    ensures Parse(s) == None
  {
  }

  lemma Pad2Injective(x: int, y: int)
    requires 0 <= x <= 99 && 0 <= y <= 99 && Pad2(x) == Pad2(y)
    ensures x == y
  {
    Pad2Value(x);
    Pad2Value(y);
  }

  /** Two-digit fields compare as strings the way they compare as numbers. */
  lemma Pad2Order(x: int, y: int)
    requires 0 <= x <= 99 && 0 <= y <= 99
    ensures LexLe(Pad2(x), Pad2(y)) <==> x <= y
  {
    var a, b := Pad2(x), Pad2(y);
    assert a == [a[0]] + [a[1]] && b == [b[0]] + [b[1]];
    LexLeConcat([a[0]], [a[1]], [b[0]], [b[1]]);
    assert LexLe([a[0]], [b[0]]) <==> a[0] <= b[0] by {
      assert [a[0]][1..] == [] && [b[0]][1..] == [];
    }
    assert LexLe([a[1]], [b[1]]) <==> a[1] <= b[1] by {
      assert [a[1]][1..] == [] && [b[1]][1..] == [];
    }
  }

  /** Four-digit fields compare as strings the way they compare as numbers. */
  lemma Pad4Order(x: int, y: int)
    requires 0 <= x <= 9999 && 0 <= y <= 9999
    ensures LexLe(Pad4(x), Pad4(y)) <==> x <= y
  {
    LexLeConcat(Pad2(x / 100), Pad2(x % 100), Pad2(y / 100), Pad2(y % 100));
    Pad2Order(x / 100, y / 100);
    Pad2Order(x % 100, y % 100);
    if Pad2(x / 100) == Pad2(y / 100) {
      Pad2Injective(x / 100, y / 100);
    }
  }

  /** The part of the rendering after the year. */
  function MonthDay(d: Date): string
    requires ValidDate(d)
  {
    "-" + Pad2(d.month) + "-" + Pad2(d.day)
  }

  lemma MonthDayOrder(a: Date, b: Date)
    requires ValidDate(a) && ValidDate(b)
    ensures LexLe(MonthDay(a), MonthDay(b)) <==> a.month < b.month || (a.month == b.month && a.day <= b.day)
  {
    var ra, rb := Pad2(a.month) + "-" + Pad2(a.day), Pad2(b.month) + "-" + Pad2(b.day);
    assert MonthDay(a) == "-" + ra && MonthDay(b) == "-" + rb;
    LexLeCommonPrefix("-", ra, rb);
    assert ra == Pad2(a.month) + ("-" + Pad2(a.day)) && rb == Pad2(b.month) + ("-" + Pad2(b.day));
    LexLeConcat(Pad2(a.month), "-" + Pad2(a.day), Pad2(b.month), "-" + Pad2(b.day));
    LexLeCommonPrefix("-", Pad2(a.day), Pad2(b.day));
    Pad2Order(a.month, b.month);
    Pad2Order(a.day, b.day);
    if Pad2(a.month) == Pad2(b.month) {
      Pad2Injective(a.month, b.month);
    }
  }

  /**
    For valid dates, string order of the ISO renderings is calendar order,
    which is why the queries may compare the date column as text.
   */
  lemma FormatOrder(a: Date, b: Date)
    requires ValidDate(a) && ValidDate(b)
    ensures LexLe(Format(a), Format(b)) <==> ToOrdinal(a) <= ToOrdinal(b)
  {
    assert Format(a) == Pad4(a.year) + MonthDay(a);
    assert Format(b) == Pad4(b.year) + MonthDay(b);
    LexLeConcat(Pad4(a.year), MonthDay(a), Pad4(b.year), MonthDay(b));
    Pad4Order(a.year, b.year);
    if Pad4(a.year) == Pad4(b.year) {
      Pad4Value(a.year);
      Pad4Value(b.year);
    }
    MonthDayOrder(a, b);
    ToOrdinalMonotone(a, b);
  }
}
