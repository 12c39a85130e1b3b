/**
 * Calendar dates and their `%m-%d-%Y` text form, the form the permit table
 * stores its date columns in (`strftime("%m-%d-%Y")`), together with the
 * parse that reads such a string back (`pd.to_datetime`).
 */
module Dates {
  import opened Wrappers
  import opened Strings

  datatype Date = Date(year: int, month: int, day: int)

  predicate IsLeapYear(y: int) {
    (y % 4 == 0 && y % 100 != 0) || y % 400 == 0
  }

  function DaysInMonth(y: int, m: int): int {
    if m == 2 then (if IsLeapYear(y) then 29 else 28)
    else if m == 4 || m == 6 || m == 9 || m == 11 then 30
    else 31
  }

  /** A Gregorian date with a four-digit year. */
  predicate Valid(d: Date) {
    1000 <= d.year <= 9999 && 1 <= d.month <= 12 && 1 <= d.day <= DaysInMonth(d.year, d.month)
  }

  /** The dates a pandas timestamp column can hold. */
  type CalendarDate = d: Date | Valid(d) witness Date(2000, 1, 1)

  /** Chronological order: `a` is strictly earlier than `b`. */
  predicate Before(a: Date, b: Date) {
    a.year < b.year ||
    (a.year == b.year && (a.month < b.month || (a.month == b.month && a.day < b.day)))
  }

  // ---------------------------------------------------------------------------
  // Fixed-width decimal digits

  predicate IsDigit(c: char) { '0' <= c <= '9' }

  predicate AllDigits(s: string) {
    forall i :: 0 <= i < |s| ==> IsDigit(s[i])
  }

  function DigitChar(n: int): char
    requires 0 <= n <= 9
  {
    ('0' as int + n) as char
  }

  function Pow10(w: nat): nat {
    if w == 0 then 1 else 10 * Pow10(w - 1)
  }

  /** The last `w` decimal digits of `n`, zero-padded. */
  function Pad(n: nat, w: nat): (s: string)
    ensures |s| == w && AllDigits(s)
  {
    if w == 0 then [] else Pad(n / 10, w - 1) + [DigitChar(n % 10)]
  }

  /** The number a string of digits denotes. */
  function ReadDigits(s: string): (n: nat)
    requires AllDigits(s)
    ensures n < Pow10(|s|)
  {
    if s == [] then 0 else ReadDigits(s[..|s| - 1]) * 10 + (s[|s| - 1] as int - '0' as int)
  }

  lemma {:induction false} ReadPad(n: nat, w: nat)
    requires n < Pow10(w)
    ensures ReadDigits(Pad(n, w)) == n
  {
    if w > 0 {
      ReadPad(n / 10, w - 1);
      assert Pad(n, w)[..w - 1] == Pad(n / 10, w - 1);
    }
  }

  lemma {:induction false} PadRead(s: string)
    requires AllDigits(s)
    ensures Pad(ReadDigits(s), |s|) == s
  {
    if s != [] {
      var init := s[..|s| - 1];
      PadRead(init);
      var n := ReadDigits(s);
      assert n / 10 == ReadDigits(init) && n % 10 == s[|s| - 1] as int - '0' as int;
      assert s == init + [s[|s| - 1]];
    }
  }

  /** A number below 100, padded to two places, is its tens digit then its units digit. */
  lemma PadTwoDigits(x: nat)
    requires x < 100
    ensures Pad(x, 2) == [DigitChar(x / 10), DigitChar(x % 10)]
  {
    assert (x / 10) % 10 == x / 10;
    assert Pad(x / 10, 1) == [DigitChar(x / 10)];
  }

  /** Zero-padded two-digit numbers compare as text exactly as they compare as numbers. */
  lemma PadTwoOrder(x: nat, y: nat)
    requires x < 100 && y < 100
    ensures StrLt(Pad(x, 2), Pad(y, 2)) <==> x < y
    ensures Pad(x, 2) == Pad(y, 2) <==> x == y
  {
    var p, q := Pad(x, 2), Pad(y, 2);
    PadTwoDigits(x);
    PadTwoDigits(y);
    assert x == 10 * (x / 10) + x % 10 && y == 10 * (y / 10) + y % 10;
    assert x < y <==> x / 10 < y / 10 || (x / 10 == y / 10 && x % 10 < y % 10);
    assert p[1..] == [p[1]] && q[1..] == [q[1]];
    assert StrLt(p, q) <==> p[0] < q[0] || (p[0] == q[0] && StrLt(p[1..], q[1..]));
    assert StrLt(p[1..], q[1..]) <==> p[1] < q[1] || (p[1] == q[1] && StrLt(p[1..][1..], q[1..][1..]));
    assert p[1..][1..] == [];
    ReadPad(x, 2);
    ReadPad(y, 2);
  }

  // ---------------------------------------------------------------------------
  // Format and parse

  /** `d.strftime("%m-%d-%Y")`. */
  function Format(d: Date): (s: string)
    requires Valid(d)
    ensures |s| == 10 && s[2] == '-' && s[5] == '-'
  {
    Pad(d.month, 2) + "-" + Pad(d.day, 2) + "-" + Pad(d.year, 4)
  }

  /** `pd.to_datetime` applied to an `mm-dd-yyyy` string; anything else does not parse. */
  function Parse(s: string): (r: Option<Date>)
    ensures r.Some? ==> Valid(r.value) && Format(r.value) == s
  {
    if |s| == 10 && s[2] == '-' && s[5] == '-' &&
       AllDigits(s[..2]) && AllDigits(s[3..5]) && AllDigits(s[6..])
    then
      var d := Date(ReadDigits(s[6..]), ReadDigits(s[..2]), ReadDigits(s[3..5]));
      if Valid(d) then
        FormatFields(s);
        Some(d)
      else None
    else None
  }

  /** A well-formed `mm-dd-yyyy` string is the format of the date its fields denote. */
  lemma FormatFields(s: string)
    requires |s| == 10 && s[2] == '-' && s[5] == '-'
    requires AllDigits(s[..2]) && AllDigits(s[3..5]) && AllDigits(s[6..])
    requires Valid(Date(ReadDigits(s[6..]), ReadDigits(s[..2]), ReadDigits(s[3..5])))
    ensures Format(Date(ReadDigits(s[6..]), ReadDigits(s[..2]), ReadDigits(s[3..5]))) == s
  {
    var mm, dd, yyyy := s[..2], s[3..5], s[6..];
    var d := Date(ReadDigits(yyyy), ReadDigits(mm), ReadDigits(dd));
    assert Pad(d.month, 2) == mm by { PadRead(mm); }
    assert Pad(d.day, 2) == dd by { PadRead(dd); }
    assert Pad(d.year, 4) == yyyy by { PadRead(yyyy); }
    DateFields(s);
  }

  /** A string with dashes at positions 2 and 5 is its three fields joined by dashes. */
  lemma DateFields(s: string)
    requires |s| == 10 && s[2] == '-' && s[5] == '-'
    ensures s == s[..2] + "-" + s[3..5] + "-" + s[6..]
  {
  }

  /** Reading back a formatted date gives the date. */
  lemma ParseFormat(d: Date)
    requires Valid(d)
    ensures Parse(Format(d)) == Some(d)
  {
    var s := Format(d);
    assert s[..2] == Pad(d.month, 2);
    assert s[3..5] == Pad(d.day, 2);
    assert s[6..] == Pad(d.year, 4);
    ReadPad(d.month, 2);
    ReadPad(d.day, 2);
    ReadPad(d.year, 4);
  }

  /** Two valid dates have the same text form only if they are the same date. */
  lemma FormatInjective(a: Date, b: Date)
    requires Valid(a) && Valid(b) && Format(a) == Format(b)
    ensures a == b
  {
    ParseFormat(a);
    ParseFormat(b);
  }

  // ---------------------------------------------------------------------------
  // Text order against chronological order

  /** Comparing `a + s` with `b + t` for equal-length `a`, `b` compares `a`, `b` first. */
  lemma {:induction false} StrLtAppend(a: string, b: string, s: string, t: string)
    requires |a| == |b|
    ensures StrLt(a + s, b + t) <==> StrLt(a, b) || (a == b && StrLt(s, t))
    decreases |a|
  {
    if a == [] {
      assert a + s == s && b + t == t;
    } else {
      assert (a + s)[0] == a[0] && (b + t)[0] == b[0];
      assert (a + s)[1..] == a[1..] + s && (b + t)[1..] == b[1..] + t;
      StrLtAppend(a[1..], b[1..], s, t);
      if a[0] == b[0] && a[1..] == b[1..] {
        assert a == [a[0]] + a[1..] && b == [b[0]] + b[1..];
      }
    }
  }

  /**
   * Within one calendar year, the `mm-dd-yyyy` text order is the
   * chronological order.
   */
  lemma SameYearTextOrder(a: Date, b: Date)
    requires Valid(a) && Valid(b) && a.year == b.year
    ensures StrLt(Format(a), Format(b)) <==> Before(a, b)
  {
    var ma, mb := Pad(a.month, 2), Pad(b.month, 2);
    var ta := "-" + Pad(a.day, 2) + "-" + Pad(a.year, 4);
    var tb := "-" + Pad(b.day, 2) + "-" + Pad(b.year, 4);
    assert Format(a) == ma + ta && Format(b) == mb + tb;
    StrLtAppend(ma, mb, ta, tb);
    PadTwoOrder(a.month, b.month);
    DayTextOrder(a, b);
  }

  /** After the month, the `-dd-yyyy` text of one year orders by day. */
  lemma DayTextOrder(a: Date, b: Date)
    requires Valid(a) && Valid(b) && a.year == b.year
    ensures StrLt("-" + Pad(a.day, 2) + "-" + Pad(a.year, 4), "-" + Pad(b.day, 2) + "-" + Pad(b.year, 4))
      <==> a.day < b.day
  {
    var da, db, ya := Pad(a.day, 2), Pad(b.day, 2), "-" + Pad(a.year, 4);
    assert "-" + da + "-" + Pad(a.year, 4) == "-" + da + ya;
    assert "-" + db + "-" + Pad(b.year, 4) == "-" + db + ya;
    DashedOrder(da, db, ya);
    PadTwoOrder(a.day, b.day);
  }

  /** Between a shared dash and a shared tail, text order is the order of the middle parts. */
  lemma DashedOrder(da: string, db: string, tail: string)
    requires |da| == |db|
    ensures StrLt("-" + da + tail, "-" + db + tail) <==> StrLt(da, db)
  {
    assert "-" + da + tail == "-" + (da + tail);
    assert "-" + db + tail == "-" + (db + tail);
    StrLtAppend("-", "-", da + tail, db + tail);
    StrLtAppend(da, db, tail, tail);
    StrLtIrreflexive(tail);
  }

  /** The two application dates of the ordering example. */
  const FebFirst2016: CalendarDate := Date(2016, 2, 1)
  const JanFifth2020: CalendarDate := Date(2020, 1, 5)

  /**
   * Across years the text order is not chronological: 01-05-2020 sorts
   * before 02-01-2016 although it is four years later.
   */
  lemma TextOrderNotChronological()
    ensures Before(FebFirst2016, JanFifth2020)
    ensures StrLt(Format(JanFifth2020), Format(FebFirst2016))
  {
    var early, late := FebFirst2016, JanFifth2020;
    assert Valid(early) && Valid(late);
    var fe, fl := Format(early), Format(late);
    assert Pad(1, 2) == ['0', '1'] && Pad(2, 2) == ['0', '2'];
    assert fl[..2] == Pad(1, 2) && fe[..2] == Pad(2, 2);
    assert fl[0] == fe[0] && fl[1..][0] == '1' && fe[1..][0] == '2';
  }
}
