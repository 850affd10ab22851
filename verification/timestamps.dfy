/**
 * The two `strftime` layouts the core emits: the policy expiration
 * `%Y-%m-%dT%H:%M:%S.000Z` and the compact signing date `%Y%m%dT%H%M%SZ`.
 * The clock itself is not modelled; a reading is a `UtcTime` value.
 */
module Timestamps {
  import opened Basics

  datatype DateTime = DateTime(year: int, month: int, day: int, hour: int, minute: int, second: int)

  predicate IsLeap(y: int) {
    (y % 4 == 0 && y % 100 != 0) || y % 400 == 0
  }

  function DaysIn(y: int, m: int): int
  {
    if m == 2 then (if IsLeap(y) then 29 else 28)
    else if m == 4 || m == 6 || m == 9 || m == 11 then 30
    else 31
  }

  /** A calendar instant `datetime` can hold, with a four-digit year (see the README). */
  predicate Valid(t: DateTime) {
    && 1000 <= t.year <= 9999
    && 1 <= t.month <= 12
    && 1 <= t.day <= DaysIn(t.year, t.month)
    && 0 <= t.hour <= 23
    && 0 <= t.minute <= 59
    && 0 <= t.second <= 59
  }

  type UtcTime = t: DateTime | Valid(t) witness DateTime(2000, 1, 1, 0, 0, 0)

  predicate IsDigit(c: char) {
    '0' <= c <= '9'
  }

  predicate AllDigits(s: string) {
    forall i :: 0 <= i < |s| ==> IsDigit(s[i])
  }

  function Digit(d: int): (c: char)
    requires 0 <= d <= 9
    ensures IsDigit(c)
  {
    ('0' as int + d) as char
  }

  function DigitValue(c: char): (d: int)
    requires IsDigit(c)
    ensures 0 <= d <= 9 && Digit(d) == c
  {
    c as int - '0' as int
  }

  /** `%02d`. */
  function Pad2(n: int): (s: string)
    requires 0 <= n <= 99
    ensures |s| == 2 && AllDigits(s)
  {
    [Digit(n / 10), Digit(n % 10)]
  }

  /** `%04d`. */
  function Pad4(n: int): (s: string)
    requires 0 <= n <= 9999
    ensures |s| == 4 && AllDigits(s)
  {
    Pad2(n / 100) + Pad2(n % 100)
  }

  function Value2(s: string): int
    requires |s| == 2 && AllDigits(s)
  {
    DigitValue(s[0]) * 10 + DigitValue(s[1])
  }

  function Value4(s: string): int
    requires |s| == 4 && AllDigits(s)
  {
    Value2(s[..2]) * 100 + Value2(s[2..])
  }

  lemma Pad2RoundTrip(n: int)
    requires 0 <= n <= 99
    ensures Value2(Pad2(n)) == n
  {
  }

  lemma Value2RoundTrip(s: string)
    requires |s| == 2 && AllDigits(s)
    ensures 0 <= Value2(s) <= 99 && Pad2(Value2(s)) == s
  {
    var a, b := DigitValue(s[0]), DigitValue(s[1]);
    assert (a * 10 + b) / 10 == a && (a * 10 + b) % 10 == b;
  }

  lemma Pad4RoundTrip(n: int)
    requires 0 <= n <= 9999
    ensures Value4(Pad4(n)) == n
  {
    var s := Pad4(n);
    assert s[..2] == Pad2(n / 100) && s[2..] == Pad2(n % 100);
    Pad2RoundTrip(n / 100);
    Pad2RoundTrip(n % 100);
  }

  lemma Value4RoundTrip(s: string)
    requires |s| == 4 && AllDigits(s)
    ensures 0 <= Value4(s) <= 9999 && Pad4(Value4(s)) == s
  {
    Value2RoundTrip(s[..2]);
    Value2RoundTrip(s[2..]);
    var hi, lo := Value2(s[..2]), Value2(s[2..]);
    assert (hi * 100 + lo) / 100 == hi && (hi * 100 + lo) % 100 == lo;
    assert s == s[..2] + s[2..];
  }

  // ---------------------------------------------------------------------------
  // `%Y-%m-%dT%H:%M:%S.000Z`

  /** The policy expiration string. */
  function IsoMillis(t: UtcTime): (s: string)
    ensures |s| == 24 && s[19..] == ".000Z"
    ensures s[4] == '-' && s[7] == '-' && s[10] == 'T' && s[13] == ':' && s[16] == ':'
  {
    var y, mo, d, h, mi, se := Pad4(t.year), Pad2(t.month), Pad2(t.day), Pad2(t.hour), Pad2(t.minute), Pad2(t.second);
    [y[0], y[1], y[2], y[3], '-', mo[0], mo[1], '-', d[0], d[1], 'T',
     h[0], h[1], ':', mi[0], mi[1], ':', se[0], se[1], '.', '0', '0', '0', 'Z']
  }

  /** Reads an expiration string back; `None` unless it has exactly the layout above. */
  function ParseIsoMillis(s: string): Option<UtcTime>
  {
    if |s| == 24 && s[4] == '-' && s[7] == '-' && s[10] == 'T' && s[13] == ':' && s[16] == ':' && s[19..] == ".000Z"
      && AllDigits(s[0..4]) && AllDigits(s[5..7]) && AllDigits(s[8..10])
      && AllDigits(s[11..13]) && AllDigits(s[14..16]) && AllDigits(s[17..19])
    then
      var t := DateTime(Value4(s[0..4]), Value2(s[5..7]), Value2(s[8..10]),
                        Value2(s[11..13]), Value2(s[14..16]), Value2(s[17..19]));
      if Valid(t) then Some(t) else None
    else None
  }

  lemma IsoMillisParts(t: UtcTime)
    ensures var s := IsoMillis(t);
      && s[0..4] == Pad4(t.year) && s[5..7] == Pad2(t.month) && s[8..10] == Pad2(t.day)
      && s[11..13] == Pad2(t.hour) && s[14..16] == Pad2(t.minute) && s[17..19] == Pad2(t.second)
  {
    var s := IsoMillis(t);
    var y, mo, d, h, mi, se := Pad4(t.year), Pad2(t.month), Pad2(t.day), Pad2(t.hour), Pad2(t.minute), Pad2(t.second);
    assert s[0..4] == [y[0], y[1], y[2], y[3]] == y;
    assert s[5..7] == [mo[0], mo[1]] == mo;
    assert s[8..10] == [d[0], d[1]] == d;
    assert s[11..13] == [h[0], h[1]] == h;
    assert s[14..16] == [mi[0], mi[1]] == mi;
    assert s[17..19] == [se[0], se[1]] == se;
  }

  /** Formatting then parsing gives the instant back. */
  /** The expiration of tests/test_views.py: year, month and day in that order, zero-padded. */
  lemma IsoMillisExample()
    ensures IsoMillis(DateTime(1988, 11, 19, 10, 10, 0)) == "1988-11-19T10:10:00.000Z"
  {
    assert Pad4(1988) == "1988" by { assert Pad2(19) == "19" && Pad2(88) == "88"; }
    assert Pad2(11) == "11" && Pad2(19) == "19" && Pad2(10) == "10" && Pad2(0) == "00";
  }

  /** Single-digit fields are zero-padded. */
  lemma IsoMillisPadsExample()
    ensures IsoMillis(DateTime(2024, 2, 3, 4, 5, 6)) == "2024-02-03T04:05:06.000Z"
  {
    assert Pad4(2024) == "2024" by { assert Pad2(20) == "20" && Pad2(24) == "24"; }
    assert Pad2(2) == "02" && Pad2(3) == "03" && Pad2(4) == "04" && Pad2(5) == "05" && Pad2(6) == "06";
  }

  lemma ParseIsoMillisOfFormat(t: UtcTime)
    ensures ParseIsoMillis(IsoMillis(t)) == Some(t)
  {
    IsoMillisParts(t);
    Pad4RoundTrip(t.year);
    Pad2RoundTrip(t.month);
    Pad2RoundTrip(t.day);
    Pad2RoundTrip(t.hour);
    Pad2RoundTrip(t.minute);
    Pad2RoundTrip(t.second);
  }

  /** Whatever parses is exactly the formatting of what it parses to. */
  lemma FormatOfParseIsoMillis(s: string)
    requires ParseIsoMillis(s).Some?
    ensures IsoMillis(ParseIsoMillis(s).value) == s
  {
    var t := ParseIsoMillis(s).value;
    Value4RoundTrip(s[0..4]);
    Value2RoundTrip(s[5..7]);
    Value2RoundTrip(s[8..10]);
    Value2RoundTrip(s[11..13]);
    Value2RoundTrip(s[14..16]);
    Value2RoundTrip(s[17..19]);
    IsoMillisParts(t);
    var f := IsoMillis(t);
    assert forall i :: 0 <= i < 24 ==> f[i] == s[i] by {
      assert f[0..4] == s[0..4] && f[5..7] == s[5..7] && f[8..10] == s[8..10];
      assert f[11..13] == s[11..13] && f[14..16] == s[14..16] && f[17..19] == s[17..19];
      assert f[19..] == s[19..];
    }
  }

  // ---------------------------------------------------------------------------
  // `%Y%m%dT%H%M%SZ`

  /** The compact date of an AWS signature version 4 request. */
  function CompactDate(t: UtcTime): (s: string)
    ensures |s| == 16 && s[8] == 'T' && s[15] == 'Z'
  {
    var y, mo, d, h, mi, se := Pad4(t.year), Pad2(t.month), Pad2(t.day), Pad2(t.hour), Pad2(t.minute), Pad2(t.second);
    [y[0], y[1], y[2], y[3], mo[0], mo[1], d[0], d[1], 'T', h[0], h[1], mi[0], mi[1], se[0], se[1], 'Z']
  }

  function ParseCompactDate(s: string): Option<UtcTime>
  {
    if |s| == 16 && s[8] == 'T' && s[15] == 'Z'
      && AllDigits(s[0..4]) && AllDigits(s[4..6]) && AllDigits(s[6..8])
      && AllDigits(s[9..11]) && AllDigits(s[11..13]) && AllDigits(s[13..15])
    then
      var t := DateTime(Value4(s[0..4]), Value2(s[4..6]), Value2(s[6..8]),
                        Value2(s[9..11]), Value2(s[11..13]), Value2(s[13..15]));
      if Valid(t) then Some(t) else None
    else None
  }

  lemma CompactDateParts(t: UtcTime)
    ensures var s := CompactDate(t);
      && s[0..4] == Pad4(t.year) && s[4..6] == Pad2(t.month) && s[6..8] == Pad2(t.day)
      && s[9..11] == Pad2(t.hour) && s[11..13] == Pad2(t.minute) && s[13..15] == Pad2(t.second)
  {
    var s := CompactDate(t);
    var y, mo, d, h, mi, se := Pad4(t.year), Pad2(t.month), Pad2(t.day), Pad2(t.hour), Pad2(t.minute), Pad2(t.second);
    assert s[0..4] == [y[0], y[1], y[2], y[3]] == y;
    assert s[4..6] == [mo[0], mo[1]] == mo;
    assert s[6..8] == [d[0], d[1]] == d;
    assert s[9..11] == [h[0], h[1]] == h;
    assert s[11..13] == [mi[0], mi[1]] == mi;
    assert s[13..15] == [se[0], se[1]] == se;
  }

  /** The compact form of the same instants. */
  lemma CompactDateExample()
    ensures CompactDate(DateTime(1988, 11, 19, 10, 10, 0)) == "19881119T101000Z"
  {
    assert Pad4(1988) == "1988" by { assert Pad2(19) == "19" && Pad2(88) == "88"; }
    assert Pad2(11) == "11" && Pad2(19) == "19" && Pad2(10) == "10" && Pad2(0) == "00";
  }

  lemma ParseCompactDateOfFormat(t: UtcTime)
    ensures ParseCompactDate(CompactDate(t)) == Some(t)
  {
    CompactDateParts(t);
    Pad4RoundTrip(t.year);
    Pad2RoundTrip(t.month);
    Pad2RoundTrip(t.day);
    Pad2RoundTrip(t.hour);
    Pad2RoundTrip(t.minute);
    Pad2RoundTrip(t.second);
  }

  lemma FormatOfParseCompactDate(s: string)
    requires ParseCompactDate(s).Some?
    ensures CompactDate(ParseCompactDate(s).value) == s
  {
    var t := ParseCompactDate(s).value;
    Value4RoundTrip(s[0..4]);
    Value2RoundTrip(s[4..6]);
    Value2RoundTrip(s[6..8]);
    Value2RoundTrip(s[9..11]);
    Value2RoundTrip(s[11..13]);
    Value2RoundTrip(s[13..15]);
    CompactDateParts(t);
    var f := CompactDate(t);
    assert forall i :: 0 <= i < 16 ==> f[i] == s[i] by {
      assert f[0..4] == s[0..4] && f[4..6] == s[4..6] && f[6..8] == s[6..8];
      assert f[9..11] == s[9..11] && f[11..13] == s[11..13] && f[13..15] == s[13..15];
    }
  }

  /** Both layouts are plain ASCII, so `str.encode()` is byte-for-character. */
  lemma CompactDateIsAscii(t: UtcTime)
    ensures IsAscii(CompactDate(t))
  {
    var s := CompactDate(t);
    CompactDateParts(t);
    forall i | 0 <= i < 16
      ensures s[i] as int < 128
    {
      if i != 8 && i != 15 {
        assert IsDigit(s[i]) by {
          if i < 4 { assert s[i] == s[0..4][i]; }
          else if i < 6 { assert s[i] == s[4..6][i - 4]; }
          else if i < 8 { assert s[i] == s[6..8][i - 6]; }
          else if i < 11 { assert s[i] == s[9..11][i - 9]; }
          else if i < 13 { assert s[i] == s[11..13][i - 11]; }
          else { assert s[i] == s[13..15][i - 13]; }
        }
      }
    }
  }
}
