/**
  The address of one month of yellow-taxi trip records: a fixed release
  prefix, the year as Python's `str` writes it, and the month formatted with
  the `02d` format specification (sign-aware zero padding to two characters).

  The partner of the formatter is a parser that reads the year and month
  back; the round-trip lemma shows that distinct (year, month) pairs never
  share a URL.
*/
module SourceUrl {
  import opened Wrappers

  /** Where the monthly files are published. */
  const Prefix: string := "https://github.com/DataTalksClub/nyc-tlc-data/releases/download/yellow"
  /** Between the prefix and the year. */
  const FileStem: string := "/yellow_tripdata_"
  /** The compressed CSV extension. */
  const Suffix: string := ".csv.gz"
  /** The width of the `02d` specification applied to the month. */
  const MonthWidth: nat := 2

  predicate IsDigit(c: char) {
    '0' <= c <= '9'
  }

  predicate AllDigits(s: string) {
    forall i :: 0 <= i < |s| ==> IsDigit(s[i])
  }

  predicate AllZeros(s: string) {
    forall i :: 0 <= i < |s| ==> s[i] == '0'
  }

  function DigitValue(c: char): (d: nat)
    requires IsDigit(c)
    ensures d < 10
  {
    c as int - '0' as int
  }

  function DigitChar(d: nat): (c: char)
    requires d < 10
    ensures IsDigit(c) && DigitValue(c) == d
  {
    ('0' as int + d) as char
  }

  /** The decimal digits of n, most significant first, with no leading zero. */
  function Decimal(n: nat): (s: string)
    ensures |s| >= 1 && AllDigits(s)
    ensures (s[0] == '0') <==> n == 0
    ensures (|s| == 1) <==> n < 10
  {
    if n < 10 then [DigitChar(n)] else Decimal(n / 10) + [DigitChar(n % 10)]
  }

  /** The number a string of decimal digits denotes (leading zeros allowed). */
  function Value(s: string): nat
    requires AllDigits(s)
  {
    if |s| == 0 then 0 else Value(s[..|s| - 1]) * 10 + DigitValue(s[|s| - 1])
  }

  function Zeros(k: nat): (z: string)
    ensures |z| == k && AllZeros(z)
  {
    seq(k, _ => '0')
  }

  /** Python's `str` on an integer: a minus sign for negatives, then the digits. */
  function IntToString(i: int): (s: string)
    ensures |s| >= 1
    ensures (s[0] == '-') <==> i < 0
    ensures AllDigits(if i < 0 then s[1..] else s)
  {
    if i < 0 then "-" + Decimal(-i) else Decimal(i)
  }

  /**
    Python's `format(i, "0<width>d")`: the sign, then as many zeros as it takes
    to reach `width` characters, then the digits of the magnitude. Nothing is
    ever cut off.
  */
  function ZeroPadded(i: int, width: nat): (s: string)
    ensures |s| >= width && |s| >= 1
    ensures var unpadded := (if i < 0 then 1 else 0) + |Decimal(if i < 0 then -i else i)|;
      |s| == if width > unpadded then width else unpadded
    ensures (s[0] == '-') <==> i < 0
    ensures AllDigits(if i < 0 then s[1..] else s)
  {
    var sign := if i < 0 then "-" else "";
    var digits := Decimal(if i < 0 then -i else i);
    var pad: int := width - |sign| - |digits|;
    sign + Zeros(if pad > 0 then pad else 0) + digits
  }

  /** The `{year}-{month:02d}` part of the file name. */
  function DateTag(year: int, month: int): string {
    IntToString(year) + "-" + ZeroPadded(month, MonthWidth)
  }

  /** `f"{prefix}/yellow_tripdata_{year}-{month:02d}.csv.gz"`. */
  function SourceUrl(year: int, month: int): string {
    Prefix + FileStem + DateTag(year, month) + Suffix
  }

  // ---------------------------------------------------------------------
  // Parsing back

  /** The number of decimal digits s starts with. */
  function DigitRun(s: string): (k: nat)
    ensures k <= |s| && AllDigits(s[..k])
    ensures k < |s| ==> !IsDigit(s[k])
  {
    if |s| > 0 && IsDigit(s[0]) then
      var k := 1 + DigitRun(s[1..]);
      assert s[..k] == [s[0]] + s[1..][..k - 1];
      k
    else 0
  }

  /** Reads the digits s starts with; gives their value with the rest of s. */
  function ParseNat(s: string): Option<(nat, string)> {
    var k := DigitRun(s);
    if k == 0 then None else Some((Value(s[..k]), s[k..]))
  }

  /** Reads an integer, optionally negative, at the start of s; gives it with the rest of s. */
  function ParseInt(s: string): Option<(int, string)> {
    if |s| > 0 && s[0] == '-' then
      match ParseNat(s[1..])
      case None => None
      case Some((v, rest)) => Some((-(v as int), rest))
    else
      match ParseNat(s)
      case None => None
      case Some((v, rest)) => Some((v as int, rest))
  }

  /** Recovers (year, month) from a date tag `<int>-<int>`. */
  function ParseDateTag(tag: string): Option<(int, int)> {
    match ParseInt(tag)
    case None => None
    case Some((year, rest)) =>
      if |rest| == 0 || rest[0] != '-' then None
      else
        match ParseInt(rest[1..])
        case None => None
        case Some((month, tail)) => if |tail| == 0 then Some((year, month)) else None
  }

  /** Recovers (year, month) from a URL of the shape SourceUrl produces. */
  function ParseSourceUrl(url: string): Option<(int, int)> {
    var head := Prefix + FileStem;
    if |url| < |head| + |Suffix| || url[..|head|] != head || url[|url| - |Suffix|..] != Suffix then None
    else ParseDateTag(url[|head|..|url| - |Suffix|])
  }

  // ---------------------------------------------------------------------
  // Lemmas

  /** Decimal and Value are inverse on the naturals. */
  lemma {:induction false} DecimalValue(n: nat)
    ensures Value(Decimal(n)) == n
  {
    if n >= 10 {
      var d := Decimal(n / 10);
      var s := d + [DigitChar(n % 10)];
      assert s[..|s| - 1] == d;
      DecimalValue(n / 10);
    }
  }

  /** Leading zeros do not change the value of a digit string. */
  lemma {:induction false} ValueIgnoresLeadingZeros(z: string, d: string)
    requires AllZeros(z) && AllDigits(d)
    ensures AllDigits(z + d) && Value(z + d) == Value(d)
  {
    if |d| == 0 {
      assert z + d == z;
      ZerosValue(z);
    } else {
      var s := z + d;
      assert s[..|s| - 1] == z + d[..|d| - 1];
      ValueIgnoresLeadingZeros(z, d[..|d| - 1]);
    }
  }

  lemma {:induction false} ZerosValue(z: string)
    requires AllZeros(z)
    ensures AllDigits(z) && Value(z) == 0
  {
    if |z| > 0 {
      ZerosValue(z[..|z| - 1]);
    }
  }

  /** A digit run followed by a non-digit (or nothing) is read up to that non-digit. */
  lemma {:induction false} DigitRunStopsAt(d: string, rest: string)
    requires AllDigits(d)
    requires |rest| == 0 || !IsDigit(rest[0])
    ensures DigitRun(d + rest) == |d|
  {
    if |d| > 0 {
      assert (d + rest)[1..] == d[1..] + rest;
      DigitRunStopsAt(d[1..], rest);
    }
  }

  /** ParseNat reads a non-empty digit string up to the first non-digit. */
  lemma ParseNatStopsAt(digits: string, rest: string)
    requires |digits| > 0 && AllDigits(digits)
    requires |rest| == 0 || !IsDigit(rest[0])
    ensures ParseNat(digits + rest) == Some((Value(digits), rest))
  {
    var s := digits + rest;
    DigitRunStopsAt(digits, rest);
    assert s[..|digits|] == digits;
    assert s[|digits|..] == rest;
  }

  /** ParseInt reads a minus sign followed by what ParseNat reads as its negation. */
  lemma ParseNegative(body: string)
    requires ParseNat(body).Some?
    ensures ParseInt("-" + body) == Some((-(ParseNat(body).value.0 as int), ParseNat(body).value.1))
  {
    var s := "-" + body;
    assert s[1..] == body;
  }

  /** Zeros followed by the digits of m, then a non-digit (or nothing), are read as m. */
  lemma ParsePaddedMagnitude(z: string, m: nat, rest: string)
    requires AllZeros(z)
    requires |rest| == 0 || !IsDigit(rest[0])
    ensures ParseNat(z + Decimal(m) + rest) == Some((m, rest))
  {
    ValueIgnoresLeadingZeros(z, Decimal(m));
    DecimalValue(m);
    ParseNatStopsAt(z + Decimal(m), rest);
  }

  /** The zeros ZeroPadded inserts between the sign and the digits. */
  function PadZeros(i: int, width: nat): string {
    var sign := if i < 0 then "-" else "";
    var pad: int := width - |sign| - |Decimal(if i < 0 then -i else i)|;
    Zeros(if pad > 0 then pad else 0)
  }

  lemma NegativePadded(i: int, width: nat, rest: string)
    requires i < 0
    ensures ZeroPadded(i, width) + rest == "-" + (PadZeros(i, width) + Decimal(-i) + rest)
  {
    assert ZeroPadded(i, width) == "-" + PadZeros(i, width) + Decimal(-i);
  }

  lemma NonNegativePadded(i: int, width: nat, rest: string)
    requires i >= 0
    ensures ZeroPadded(i, width) + rest == PadZeros(i, width) + Decimal(i) + rest
  {
    assert ZeroPadded(i, width) == "" + PadZeros(i, width) + Decimal(i);
    assert "" + PadZeros(i, width) == PadZeros(i, width);
  }

  /** ParseInt reads back exactly what ZeroPadded wrote, whatever follows if it is no digit. */
  lemma ParseZeroPadded(i: int, width: nat, rest: string)
    requires |rest| == 0 || !IsDigit(rest[0])
    ensures ParseInt(ZeroPadded(i, width) + rest) == Some((i, rest))
  {
    if i < 0 {
      ParseNegativePadded(i, width, rest);
    } else {
      ParseNonNegativePadded(i, width, rest);
    }
  }

  lemma ParseNegativePadded(i: int, width: nat, rest: string)
    requires i < 0
    requires |rest| == 0 || !IsDigit(rest[0])
    ensures ParseInt(ZeroPadded(i, width) + rest) == Some((i, rest))
  {
    var z := PadZeros(i, width);
    var body := z + Decimal(-i) + rest;
    ParsePaddedMagnitude(z, -i, rest);
    NegativePadded(i, width, rest);
    ParseNegative(body);
  }

  lemma ParseNonNegativePadded(i: int, width: nat, rest: string)
    requires i >= 0
    requires |rest| == 0 || !IsDigit(rest[0])
    ensures ParseInt(ZeroPadded(i, width) + rest) == Some((i, rest))
  {
    var z := PadZeros(i, width);
    var body := z + Decimal(i) + rest;
    ParsePaddedMagnitude(z, i, rest);
    NonNegativePadded(i, width, rest);
    assert body[0] == '0' || body[0] == Decimal(i)[0];
  }

  /** Python's `str` is the zero-padded form of width zero. */
  lemma IntToStringUnpadded(i: int)
    ensures IntToString(i) == ZeroPadded(i, 0)
  {
    var m: nat := if i < 0 then -i else i;
    assert Zeros(0) == "";
  }

  /** The date tag determines the year and the month. */
  lemma DateTagRoundTrip(year: int, month: int)
    ensures ParseDateTag(DateTag(year, month)) == Some((year, month))
  {
    var mm := ZeroPadded(month, MonthWidth);
    IntToStringUnpadded(year);
    assert DateTag(year, month) == ZeroPadded(year, 0) + ("-" + mm);
    ParseZeroPadded(year, 0, "-" + mm);
    assert ("-" + mm)[1..] == mm + "";
    ParseZeroPadded(month, MonthWidth, "");
  }

  /** The URL framing is stripped exactly, leaving the date tag. */
  lemma ParseFramed(tag: string)
    ensures ParseSourceUrl(Prefix + FileStem + tag + Suffix) == ParseDateTag(tag)
  {
    var head := Prefix + FileStem;
    var url := head + tag + Suffix;
    assert url[..|head|] == head;
    assert url[|url| - |Suffix|..] == Suffix;
    assert url[|head|..|url| - |Suffix|] == tag;
  }

  /** The URL determines the year and the month (for every pair of integers). */
  lemma SourceUrlRoundTrip(year: int, month: int)
    ensures ParseSourceUrl(SourceUrl(year, month)) == Some((year, month))
  {
    ParseFramed(DateTag(year, month));
    DateTagRoundTrip(year, month);
  }

  /** Two runs for different months or years read different URLs. */
  lemma SourceUrlInjective(y1: int, m1: int, y2: int, m2: int)
    requires SourceUrl(y1, m1) == SourceUrl(y2, m2)
    ensures y1 == y2 && m1 == m2
  {
    SourceUrlRoundTrip(y1, m1);
    SourceUrlRoundTrip(y2, m2);
  }

  /** Months 0 to 9 get exactly one leading zero. */
  lemma OneDigitMonth(month: int)
    requires 0 <= month <= 9
    ensures ZeroPadded(month, MonthWidth) == ['0', DigitChar(month)]
  {
    assert Zeros(1) == "0";
  }

  /** Months 10 to 99 appear as their two digits, unchanged. */
  lemma TwoDigitMonth(month: int)
    requires 10 <= month <= 99
    ensures ZeroPadded(month, MonthWidth) == Decimal(month)
    ensures |Decimal(month)| == 2 && Value(Decimal(month)) == month
  {
    assert Zeros(0) == "";
    DecimalValue(month);
  }

  /** The URL has the fixed prefix and stem, and ends with the compressed-CSV suffix. */
  lemma SourceUrlShape(year: int, month: int)
    ensures SourceUrl(year, month)[..|Prefix + FileStem|] == Prefix + FileStem
    ensures SourceUrl(year, month)[|SourceUrl(year, month)| - |Suffix|..] == Suffix
  {
  }
}
