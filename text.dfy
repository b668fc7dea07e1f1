/** Reading the text cells of the spreadsheet and of the index payload:
    numbers written with a decimal comma, and "%m/%Y" month stamps. */
module Text {
  import opened Wrappers
  import opened Domain

  predicate IsDigit(c: char) {
    '0' <= c <= '9'
  }

  predicate AllDigits(s: string) {
    forall i :: 0 <= i < |s| ==> IsDigit(s[i])
  }

  function DigitValue(c: char): nat
    requires IsDigit(c)
  {
    c as int - '0' as int
  }

  function DigitChar(d: nat): (c: char)
    requires d < 10
    ensures IsDigit(c) && DigitValue(c) == d
  {
    ('0' as int + d) as char
  }

  /** The value of a decimal numeral, most significant digit first. */
  function NumeralValue(s: string): nat
    requires AllDigits(s)
  {
    if s == [] then 0 else 10 * NumeralValue(s[..|s| - 1]) + DigitValue(s[|s| - 1])
  }

  function Pow10(n: nat): (p: nat)
    ensures p >= 1
  {
    if n == 0 then 1 else 10 * Pow10(n - 1)
  }

  /** str.replace(",", "."): every comma becomes a point, every other character stays. */
  function ReplaceCommas(s: string): (r: string)
    ensures |r| == |s|
    ensures forall i :: 0 <= i < |s| ==> r[i] == (if s[i] == ',' then '.' else s[i])
  {
    if s == [] then [] else [if s[0] == ',' then '.' else s[0]] + ReplaceCommas(s[1..])
  }

  /** The position of the first c in s, or |s| when s holds none. */
  function IndexOf(s: string, c: char): (k: nat)
    ensures k <= |s|
    ensures k < |s| ==> s[k] == c
    ensures forall i :: 0 <= i < k ==> s[i] != c
  {
    if s == [] then 0 else if s[0] == c then 0 else 1 + IndexOf(s[1..], c)
  }

  /** The number written as the digits whole, a point and the digits frac. */
  function DecimalValue(whole: string, frac: string): real
    requires AllDigits(whole) && AllDigits(frac)
  {
    NumeralValue(whole) as real + NumeralValue(frac) as real / Pow10(|frac|) as real
  }

  /** Python's float() on an unsigned numeral: "ddd", "ddd.ddd", "ddd." or ".ddd". */
  function ReadUnsigned(s: string): Option<real> {
    var k := IndexOf(s, '.');
    var whole := s[..k];
    var frac := if k < |s| then s[k + 1..] else [];
    if AllDigits(whole) && AllDigits(frac) && |whole| + |frac| > 0 then
      Some(DecimalValue(whole, frac))
    else
      None
  }

  /** Python's float() on a numeral with an optional sign; None where it raises ValueError. */
  function ReadDecimal(s: string): Option<real> {
    if |s| > 0 && s[0] == '-' then
      match ReadUnsigned(s[1..])
      case Some(v) => Some(-v)
      case None => None
    else if |s| > 0 && s[0] == '+' then
      ReadUnsigned(s[1..])
    else
      ReadUnsigned(s)
  }

  /** .str.replace(",", ".").astype(float): a decimal-comma cell read as a number. */
  function ReadDecimalComma(s: string): Option<real> {
    ReadDecimal(ReplaceCommas(s))
  }

  /** The comma swap turns "w,f" and leaves "w.f" alike as "w.f". */
  lemma {:induction false} SwapSeparator(whole: string, sep: char, frac: string)
    requires AllDigits(whole) && AllDigits(frac) && (sep == ',' || sep == '.')
    ensures ReplaceCommas(whole + [sep] + frac) == whole + "." + frac
  {
    var s := whole + [sep] + frac;
    var t := ReplaceCommas(s);
    forall i | 0 <= i < |s| ensures t[i] == (whole + "." + frac)[i] {
      if i < |whole| {
        assert s[i] == whole[i] && IsDigit(whole[i]);
      } else if i > |whole| {
        assert s[i] == frac[i - |whole| - 1] && IsDigit(frac[i - |whole| - 1]);
      }
    }
  }

  /** The comma swap keeps a leading minus sign in front. */
  lemma SwapAfterMinus(s: string)
    ensures ReplaceCommas("-" + s) == "-" + ReplaceCommas(s)
  {
    assert ("-" + s)[1..] == s;
  }

  /** float() on "w.f" (digits, a point, digits) gives w + f / 10^|f|. */
  lemma {:induction false} PointNumeralValue(whole: string, frac: string)
    requires AllDigits(whole) && AllDigits(frac) && |whole| + |frac| > 0
    ensures ReadUnsigned(whole + "." + frac) == Some(DecimalValue(whole, frac))
  {
    var t := whole + "." + frac;
    var k := IndexOf(t, '.');
    assert k == |whole| by {
      assert t[|whole|] == '.';
      assert forall i :: 0 <= i < |whole| ==> t[i] == whole[i] && IsDigit(whole[i]);
    }
    assert t[..k] == whole;
    assert t[k + 1..] == frac;
  }

  /** float() on an unsigned "w.f" gives w + f / 10^|f|: the text does not start with a sign. */
  lemma {:induction false} UnsignedNumeralValue(whole: string, frac: string)
    requires AllDigits(whole) && AllDigits(frac) && |whole| + |frac| > 0
    ensures ReadDecimal(whole + "." + frac) == Some(DecimalValue(whole, frac))
  {
    var t := whole + "." + frac;
    assert t[0] != '-' && t[0] != '+' by {
      if |whole| > 0 { assert t[0] == whole[0] && IsDigit(whole[0]); } else { assert t[0] == '.'; }
    }
    PointNumeralValue(whole, frac);
  }

  /** float() on "-w.f" gives -(w + f / 10^|f|). */
  lemma {:induction false} NegativeNumeralValue(whole: string, frac: string)
    requires AllDigits(whole) && AllDigits(frac) && |whole| + |frac| > 0
    ensures ReadDecimal("-" + (whole + "." + frac)) == Some(-DecimalValue(whole, frac))
  {
    var t := "-" + (whole + "." + frac);
    assert t[0] == '-' && t[1..] == whole + "." + frac;
    PointNumeralValue(whole, frac);
  }

  /** A cell "w,f" (digits, a comma, digits) reads as w + f / 10^|f|. */
  lemma {:induction false} DecimalCommaValue(whole: string, frac: string)
    requires AllDigits(whole) && AllDigits(frac) && |whole| + |frac| > 0
    ensures ReadDecimalComma(whole + "," + frac)
         == Some(DecimalValue(whole, frac))
  {
    assert whole + "," + frac == whole + [','] + frac;
    SwapSeparator(whole, ',', frac);
    UnsignedNumeralValue(whole, frac);
  }

  /** A cell "w.f" already written with a point reads as w + f / 10^|f|. */
  lemma {:induction false} DecimalPointValue(whole: string, frac: string)
    requires AllDigits(whole) && AllDigits(frac) && |whole| + |frac| > 0
    ensures ReadDecimalComma(whole + "." + frac)
         == Some(DecimalValue(whole, frac))
  {
    assert whole + "." + frac == whole + ['.'] + frac;
    SwapSeparator(whole, '.', frac);
    UnsignedNumeralValue(whole, frac);
  }

  /** A negative cell "-w,f" reads as -(w + f / 10^|f|). */
  lemma {:induction false} SignedDecimalCommaValue(whole: string, frac: string)
    requires AllDigits(whole) && AllDigits(frac) && |whole| + |frac| > 0
    ensures ReadDecimalComma("-" + whole + "," + frac)
         == Some(-DecimalValue(whole, frac))
  {
    assert "-" + whole + "," + frac == "-" + (whole + [','] + frac);
    SwapAfterMinus(whole + [','] + frac);
    SwapSeparator(whole, ',', frac);
    NegativeNumeralValue(whole, frac);
  }

  /** A negative value "-w.f", as the index service writes a fall in prices, reads as
      -(w + f / 10^|f|). */
  lemma {:induction false} SignedDecimalPointValue(whole: string, frac: string)
    requires AllDigits(whole) && AllDigits(frac) && |whole| + |frac| > 0
    ensures ReadDecimalComma("-" + whole + "." + frac)
         == Some(-DecimalValue(whole, frac))
  {
    assert "-" + whole + "." + frac == "-" + (whole + ['.'] + frac);
    SwapAfterMinus(whole + ['.'] + frac);
    SwapSeparator(whole, '.', frac);
    NegativeNumeralValue(whole, frac);
  }

  /** A text holding two points is not a numeral. */
  lemma TwoPointsUnreadable(u: string, a: nat, b: nat)
    requires a < b < |u| && u[a] == '.' && u[b] == '.'
    ensures ReadUnsigned(u) == None
  {
    var k := IndexOf(u, '.');
    assert k <= a;
    var frac := u[k + 1..];
    assert frac[b - k - 1] == '.' && !IsDigit(frac[b - k - 1]);
  }

  /** A cell with two commas makes the reading fail. */
  lemma TwoCommasUnreadable(s: string, i: nat, j: nat)
    requires i < j < |s| && s[i] == ',' && s[j] == ','
    ensures ReadDecimalComma(s) == None
  {
    var t := ReplaceCommas(s);
    assert t[i] == '.' && t[j] == '.';
    if |t| > 0 && (t[0] == '-' || t[0] == '+') {
      assert i > 0;
      TwoPointsUnreadable(t[1..], i - 1, j - 1);
    } else {
      TwoPointsUnreadable(t, i, j);
    }
  }

  /** A cell with two separators of either kind, as a thousands-separated price such as
      "1.234,56" or "1,234.56" has, cannot be read: after the swap both are points. */
  lemma TwoSeparatorsUnreadable(s: string, i: nat, j: nat)
    requires i < j < |s| && (s[i] == ',' || s[i] == '.') && (s[j] == ',' || s[j] == '.')
    ensures ReadDecimalComma(s) == None
  {
    var t := ReplaceCommas(s);
    assert t[i] == '.' && t[j] == '.';
    if |t| > 0 && (t[0] == '-' || t[0] == '+') {
      assert i > 0;
      TwoPointsUnreadable(t[1..], i - 1, j - 1);
    } else {
      TwoPointsUnreadable(t, i, j);
    }
  }

  /** The texts pandas' strptime turns into NaT ("not a time") instead of raising:
      the empty text and the spellings of NaT and NaN. */
  predicate IsNaTText(s: string) {
    s == [] || s == "NaT" || s == "nat" || s == "NAT" || s == "nan" || s == "NaN" || s == "NAN"
  }

  /** A NaT text is not a month: the two readings never overlap. */
  lemma NaTIsNoMonth(s: string)
    requires IsNaTText(s)
    ensures ReadMonthYear(s) == None
  {
    if s != [] {
      assert |s| == 3 && s[0] != '/' && s[1] != '/' && s[2] != '/';
      assert IndexOf(s, '/') == 3;
    }
  }

  /** pandas to_datetime(format="%m/%Y") on one cell. strptime's "%m" takes "10" to "12",
      "01" to "09" or "1" to "9", a slash follows, "%Y" takes exactly four digits and
      nothing may be left over; the month must then fit in a nanosecond Timestamp.
      None where pandas raises, and also for the texts it reads as NaT (IsNaTText),
      which the sheet stage sets apart before reading. */
  function ReadMonthYear(s: string): (r: Option<Month>)
    ensures r.Some? ==> FirstTimestampMonth <= r.value <= LastTimestampMonth
  {
    var slash := IndexOf(s, '/');
    if (slash == 1 || slash == 2) && |s| == slash + 5
       && AllDigits(s[..slash]) && AllDigits(s[slash + 1..])
    then
      var month := NumeralValue(s[..slash]);
      var year := NumeralValue(s[slash + 1..]);
      if 1 <= month <= 12 && FirstTimestampMonth <= MonthIndex(year, month) <= LastTimestampMonth then
        Some(MonthIndex(year, month))
      else
        None
    else
      None
  }

  /** strftime("%m/%Y") of a first-of-month date: the text the spreadsheet holds. */
  function FormatMonthYear(m: Month): string
    requires 0 <= m < 10000 * 12
  {
    var year, month := m / 12, m % 12 + 1;
    [DigitChar(month / 10), DigitChar(month % 10), '/',
     DigitChar(year / 1000), DigitChar(year / 100 % 10), DigitChar(year / 10 % 10), DigitChar(year % 10)]
  }

  lemma NumeralValueOfTwo(s: string)
    requires |s| == 2 && AllDigits(s)
    ensures NumeralValue(s) == 10 * DigitValue(s[0]) + DigitValue(s[1])
  {
    var s1 := s[..1];
    assert s1[..0] == [] && s1[0] == s[0];
    assert NumeralValue(s1) == DigitValue(s[0]);
  }

  lemma NumeralValueOfFour(s: string)
    requires |s| == 4 && AllDigits(s)
    ensures NumeralValue(s)
         == 1000 * DigitValue(s[0]) + 100 * DigitValue(s[1]) + 10 * DigitValue(s[2]) + DigitValue(s[3])
  {
    var s3, s2, s1 := s[..3], s[..2], s[..1];
    assert s3[..2] == s2 && s2[..1] == s1 && s1[..0] == [];
    assert NumeralValue(s1) == DigitValue(s[0]);
    assert NumeralValue(s2) == 10 * DigitValue(s[0]) + DigitValue(s[1]);
    assert NumeralValue(s3) == 100 * DigitValue(s[0]) + 10 * DigitValue(s[1]) + DigitValue(s[2]);
  }

  lemma FourDigitSplit(year: int)
    requires 0 <= year < 10000
    ensures 1000 * (year / 1000) + 100 * (year / 100 % 10) + 10 * (year / 10 % 10) + year % 10 == year
  {
    var a, t := year / 10, year % 10;
    var b, r := a / 10, a % 10;
    var c, q := b / 10, b % 10;
    assert year == 100 * b + (10 * r + t);
    HundredsOf(year, b, 10 * r + t);
    assert year == 1000 * c + (100 * q + 10 * r + t);
    ThousandsOf(year, c, 100 * q + 10 * r + t);
  }

  lemma HundredsOf(x: int, q: int, r: int)
    requires 0 <= r < 100 && x == 100 * q + r
    ensures x / 100 == q
  {
  }

  lemma ThousandsOf(x: int, q: int, r: int)
    requires 0 <= r < 1000 && x == 1000 * q + r
    ensures x / 1000 == q
  {
  }

  /** Every month a Timestamp can hold survives writing it as "MM/YYYY" and reading it back. */
  lemma MonthYearRoundTrip(m: Month)
    requires FirstTimestampMonth <= m <= LastTimestampMonth
    ensures ReadMonthYear(FormatMonthYear(m)) == Some(m)
  {
    var s := FormatMonthYear(m);
    var year, month := m / 12, m % 12 + 1;
    assert 1 <= month <= 12 && 0 <= year < 10000;
    var mm, yyyy := s[..2], s[3..];
    assert IsDigit(s[0]) && IsDigit(s[1]) && s[2] == '/';
    assert IndexOf(s, '/') == 2;
    assert AllDigits(mm) && AllDigits(yyyy);
    assert NumeralValue(mm) == month by {
      NumeralValueOfTwo(mm);
      assert DigitValue(mm[0]) == month / 10 && DigitValue(mm[1]) == month % 10;
    }
    assert NumeralValue(yyyy) == year by {
      NumeralValueOfFour(yyyy);
      assert DigitValue(yyyy[0]) == year / 1000 && DigitValue(yyyy[1]) == year / 100 % 10;
      assert DigitValue(yyyy[2]) == year / 10 % 10 && DigitValue(yyyy[3]) == year % 10;
      FourDigitSplit(year);
    }
    assert MonthIndex(year, month) == m;
  }
}
