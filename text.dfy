/**
 * The two fixed text formats of the utility module, `%Y-%m-%d` and
 * `%Y-%m-%d %H:%M:%S`: a zero-padded serialiser and a strict parser that
 * accepts exactly the serialiser's output for real dates and times.
 */
module Text {
  import opened Calendar

  datatype Option<T> = None | Some(value: T)

  /** A naive wall-clock reading: the fields Python keeps in a `struct_time`. */
  datatype LocalTime = LocalTime(date: Date, hour: int, minute: int, second: int)

  predicate ValidLocal(t: LocalTime) {
    ValidDate(t.date) && 0 <= t.hour < 24 && 0 <= t.minute < 60 && 0 <= t.second < 60
  }

  /** The years a Python `datetime` can hold (MINYEAR to MAXYEAR). */
  predicate InYearRange(d: Date) {
    1 <= d.year <= 9999
  }

  predicate IsDigit(c: char) {
    '0' <= c <= '9'
  }

  predicate AllDigits(s: string) {
    forall i :: 0 <= i < |s| ==> IsDigit(s[i])
  }

  function Pow10(w: nat): (p: nat)
    ensures p >= 1
  {
    if w == 0 then 1 else 10 * Pow10(w - 1)
  }

  function DigitChar(n: nat): (c: char)
    requires n < 10
    ensures IsDigit(c)
  {
    (48 + n) as char
  }

  function DigitValue(c: char): (n: nat)
    requires IsDigit(c)
    ensures n < 10
  {
    (c as int) - 48
  }

  /** The last w decimal digits of n, padded on the left with zeros. */
  function Numeral(n: nat, w: nat): (s: string)
    ensures |s| == w && AllDigits(s)
  {
    if w == 0 then [] else Numeral(n / 10, w - 1) + [DigitChar(n % 10)]
  }

  /** The number a string of decimal digits denotes. */
  function NumeralValue(s: string): (n: nat)
    requires AllDigits(s)
    ensures n < Pow10(|s|)
  {
    if s == [] then 0 else 10 * NumeralValue(s[..|s| - 1]) + DigitValue(s[|s| - 1])
  }

  lemma {:induction false} NumeralValueOfNumeral(n: nat, w: nat)
    requires n < Pow10(w)
    ensures NumeralValue(Numeral(n, w)) == n
  {
    if w > 0 {
      var s := Numeral(n, w);
      assert s[..w - 1] == Numeral(n / 10, w - 1);
      NumeralValueOfNumeral(n / 10, w - 1);
    }
  }

  lemma {:induction false} NumeralOfNumeralValue(s: string)
    requires AllDigits(s)
    ensures Numeral(NumeralValue(s), |s|) == s
  {
    if s != [] {
      var p, c := s[..|s| - 1], s[|s| - 1];
      NumeralOfNumeralValue(p);
      var n := NumeralValue(s);
      assert n / 10 == NumeralValue(p) && n % 10 == DigitValue(c);
      assert DigitChar(n % 10) == c;
      assert Numeral(n, |s|) == Numeral(NumeralValue(p), |p|) + [c];
      assert s == p + [c];
    }
  }

  /** `strftime("%Y-%m-%d")`. */
  function FormatDate(d: Date): (s: string)
    requires ValidDate(d) && InYearRange(d)
    ensures |s| == 10
  {
    Numeral(d.year, 4) + "-" + Numeral(d.month, 2) + "-" + Numeral(d.day, 2)
  }

  /** `strftime("%Y-%m-%d %H:%M:%S")`. */
  function FormatLocal(t: LocalTime): (s: string)
    requires ValidLocal(t) && InYearRange(t.date)
    ensures |s| == 19
    ensures s[..10] == FormatDate(t.date) && s[10] == ' '
  {
    FormatDate(t.date) + " " + Numeral(t.hour, 2) + ":" + Numeral(t.minute, 2) + ":" + Numeral(t.second, 2)
  }

  /** `strptime(s, "%Y-%m-%d")`, strict: four-digit year, two-digit month and day, a real date. */
  function ParseDate(s: string): (r: Option<Date>)
    ensures r.Some? ==> |s| == 10 && ValidDate(r.value) && InYearRange(r.value)
  {
    if |s| == 10 && s[4] == '-' && s[7] == '-'
       && AllDigits(s[0..4]) && AllDigits(s[5..7]) && AllDigits(s[8..10])
    then
      var d := Date(NumeralValue(s[0..4]), NumeralValue(s[5..7]), NumeralValue(s[8..10]));
      if ValidDate(d) && InYearRange(d) then Some(d) else None
    else None
  }

  /** `strptime(s, "%Y-%m-%d %H:%M:%S")`, strict in the same way; out-of-range fields fail. */
  function ParseLocal(s: string): (r: Option<LocalTime>)
    ensures r.Some? ==> |s| == 19 && ValidLocal(r.value) && InYearRange(r.value.date)
    ensures r.Some? ==> ParseDate(s[..10]) == Some(r.value.date)
  {
    if |s| == 19 && s[10] == ' ' && s[13] == ':' && s[16] == ':'
       && AllDigits(s[11..13]) && AllDigits(s[14..16]) && AllDigits(s[17..19])
    then
      match ParseDate(s[..10])
      case None => None
      case Some(d) =>
        var t := LocalTime(d, NumeralValue(s[11..13]), NumeralValue(s[14..16]), NumeralValue(s[17..19]));
        if ValidLocal(t) then Some(t) else None
    else None
  }

  /** Every real date in range survives formatting and parsing. */
  lemma ParseFormatDate(d: Date)
    requires ValidDate(d) && InYearRange(d)
    ensures ParseDate(FormatDate(d)) == Some(d)
  {
    var s := FormatDate(d);
    assert s[0..4] == Numeral(d.year, 4);
    assert s[5..7] == Numeral(d.month, 2);
    assert s[8..10] == Numeral(d.day, 2);
    NumeralValueOfNumeral(d.year, 4);
    NumeralValueOfNumeral(d.month, 2);
    NumeralValueOfNumeral(d.day, 2);
  }

  /** The parser accepts nothing but the canonical text of the date it returns. */
  lemma FormatParseDate(s: string)
    requires ParseDate(s).Some?
    ensures ValidDate(ParseDate(s).value) && InYearRange(ParseDate(s).value)
    ensures FormatDate(ParseDate(s).value) == s
  {
    NumeralOfNumeralValue(s[0..4]);
    NumeralOfNumeralValue(s[5..7]);
    NumeralOfNumeralValue(s[8..10]);
    assert s == s[0..4] + "-" + s[5..7] + "-" + s[8..10];
  }

  lemma ParseFormatLocal(t: LocalTime)
    requires ValidLocal(t) && InYearRange(t.date)
    ensures ParseLocal(FormatLocal(t)) == Some(t)
  {
    var s := FormatLocal(t);
    ParseFormatDate(t.date);
    assert s[11..13] == Numeral(t.hour, 2);
    assert s[14..16] == Numeral(t.minute, 2);
    assert s[17..19] == Numeral(t.second, 2);
    NumeralValueOfNumeral(t.hour, 2);
    NumeralValueOfNumeral(t.minute, 2);
    NumeralValueOfNumeral(t.second, 2);
  }

  lemma FormatParseLocal(s: string)
    requires ParseLocal(s).Some?
    ensures ValidLocal(ParseLocal(s).value) && InYearRange(ParseLocal(s).value.date)
    ensures FormatLocal(ParseLocal(s).value) == s
  {
    FormatParseDate(s[..10]);
    NumeralOfNumeralValue(s[11..13]);
    NumeralOfNumeralValue(s[14..16]);
    NumeralOfNumeralValue(s[17..19]);
    assert s == s[..10] + " " + s[11..13] + ":" + s[14..16] + ":" + s[17..19];
  }

  /** The leap day of 2020 is accepted, as in the module's own worked example. */
  lemma ParseLeapDay2020()
    ensures ParseLocal("2020-02-29 14:14:54") == Some(LocalTime(Date(2020, 2, 29), 14, 14, 54))
  {
    var t := LocalTime(Date(2020, 2, 29), 14, 14, 54);
    FormatLeapDay2020();
    ParseFormatLocal(t);
  }

  lemma FormatLeapDay2020()
    ensures ValidLocal(LocalTime(Date(2020, 2, 29), 14, 14, 54))
    ensures FormatLocal(LocalTime(Date(2020, 2, 29), 14, 14, 54)) == "2020-02-29 14:14:54"
  {
    var t := LocalTime(Date(2020, 2, 29), 14, 14, 54);
    assert IsLeapYear(2020) && ValidLocal(t) && InYearRange(t.date);
    LeapDayNumerals();
    LeapDayPieces();
    assert FormatDate(t.date) == "2020-02-29";
  }

  lemma LeapDayNumerals()
    ensures Numeral(2020, 4) == "2020" && Numeral(2, 2) == "02" && Numeral(29, 2) == "29"
    ensures Numeral(14, 2) == "14" && Numeral(54, 2) == "54"
  {
  }

  lemma LeapDayPieces()
    ensures "2020" + "-" + "02" + "-" + "29" == "2020-02-29"
    ensures "2020-02-29" + " " + "14" + ":" + "14" + ":" + "54" == "2020-02-29 14:14:54"
  {
    assert "2020" + "-" == "2020-";
    assert "2020-" + "02" == "2020-02";
    assert "2020-02" + "-" == "2020-02-";
    assert "2020-02-" + "29" == "2020-02-29";
    assert "2020-02-29" + " " == "2020-02-29 ";
    assert "2020-02-29 " + "14" == "2020-02-29 14";
    assert "2020-02-29 14" + ":" == "2020-02-29 14:";
    assert "2020-02-29 14:" + "14" == "2020-02-29 14:14";
    assert "2020-02-29 14:14" + ":" == "2020-02-29 14:14:";
  }

  /** 29 February 2019 does not exist, so its text is refused. */
  lemma RejectLeapDay2019()
    ensures ParseDate("2019-02-29") == None
    ensures ParseLocal("2019-02-29 14:14:54") == None
  {
    var d := "2019-02-29";
    assert d[0..4] == "2019" && d[5..7] == "02" && d[8..10] == "29";
    assert AllDigits("2019") && AllDigits("02") && AllDigits("29");
    assert NumeralValue("2019") == 2019 by {
      assert "2019"[..3] == "201" && "201"[..2] == "20" && "20"[..1] == "2" && "2"[..0] == [];
    }
    assert NumeralValue("02") == 2 by {
      assert "02"[..1] == "0" && "0"[..0] == [];
    }
    assert NumeralValue("29") == 29 by {
      assert "29"[..1] == "2" && "2"[..0] == [];
    }
    assert !ValidDate(Date(2019, 2, 29));
    assert "2019-02-29 14:14:54"[..10] == d;
  }

  /** A one-digit month does not match the fixed format. */
  lemma RejectShortMonth()
    ensures ParseLocal("2020-2-29 14:14:54") == None
    ensures ParseDate("2020-2-29") == None
  {
  }
}
