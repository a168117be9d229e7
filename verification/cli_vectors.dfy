/** The cases of cmd/goloc/cli_test.go, and further strings that show where
    the validators draw their lines. */
module CliVectors {
  import opened Lexical
  import opened GoText
  import opened CoordinatePattern
  import opened Cli

  /** Appending a digit to a numeral multiplies its value by ten and adds
      the digit. */
  lemma DigitsValueSnoc(s: string, c: char)
    requires AllDigits(s) && IsDigit(c)
    ensures AllDigits(s + [c]) && DigitsValue(s + [c]) == DigitsValue(s) * 10 + DigitValue(c)
  {
    assert (s + [c])[..|s|] == s;
  }

  lemma Fraction23354166()
    ensures AllDigits("23354166") && DigitsValue("23354166") == 23354166
  {
    var s := [];
    DigitsValueSnoc(s, '2'); s := s + ['2'];
    DigitsValueSnoc(s, '3'); s := s + ['3'];
    DigitsValueSnoc(s, '3'); s := s + ['3'];
    DigitsValueSnoc(s, '5'); s := s + ['5'];
    DigitsValueSnoc(s, '4'); s := s + ['4'];
    DigitsValueSnoc(s, '1'); s := s + ['1'];
    DigitsValueSnoc(s, '6'); s := s + ['6'];
    DigitsValueSnoc(s, '6'); s := s + ['6'];
    assert s == "23354166";
  }

  lemma Fraction54223445()
    ensures AllDigits("54223445") && DigitsValue("54223445") == 54223445
  {
    var s := [];
    DigitsValueSnoc(s, '5'); s := s + ['5'];
    DigitsValueSnoc(s, '4'); s := s + ['4'];
    DigitsValueSnoc(s, '2'); s := s + ['2'];
    DigitsValueSnoc(s, '2'); s := s + ['2'];
    DigitsValueSnoc(s, '3'); s := s + ['3'];
    DigitsValueSnoc(s, '4'); s := s + ['4'];
    DigitsValueSnoc(s, '4'); s := s + ['4'];
    DigitsValueSnoc(s, '5'); s := s + ['5'];
    assert s == "54223445";
  }

  lemma Whole22()
    ensures AllDigits("22") && DigitsValue("22") == 22
  {
    DigitsValueSnoc("2", '2');
    assert "2" + ['2'] == "22";
  }

  /** `22.` followed by eight fraction digits parses to its exact value. */
  lemma ParseTwentyTwo(frac: string, n: nat)
    requires |frac| == 8 && AllDigits(frac) && DigitsValue(frac) == n
    ensures ParseFloat("22." + frac) == Some(22.0 + n as real / 100000000.0)
  {
    Whole22();
    ParseFloatNumeral("", "22", frac);
    assert "22." + frac == "" + "22" + (['.'] + frac);
    assert Pow10(8) == 100000000;
  }

  /** An unsigned latitude `w.f`. */
  lemma LatitudeOf(w: string, f: string)
    requires LatWhole(w) && 1 <= |f| <= 8 && AllDigits(f)
    ensures Latitude(w + "." + f)
  {
    var t := w + "." + f;
    assert t[..|w|] == w && t[|w|..] == "." + f && ("." + f)[1..] == f;
    assert LatBody(t);
    assert t[..0] == [] && t[0..] == t;
  }

  /** An unsigned longitude `w.f`. */
  lemma LongitudeOf(w: string, f: string)
    requires LonWhole(w) && 1 <= |f| <= 8 && AllDigits(f)
    ensures Longitude(w + "." + f)
  {
    var t := w + "." + f;
    assert t[..|w|] == w && t[|w|..] == "." + f && ("." + f)[1..] == f;
    assert LonBody(t);
    assert t[..0] == [] && t[0..] == t;
  }

  lemma TestLatitude()
    ensures Latitude("22.23354166")
  {
    Fraction23354166();
    LatitudeOf("22", "23354166");
    SpelledTest();
  }

  lemma TestLatitudeValue()
    ensures ParseFloat("22.23354166") == Some(22.23354166)
  {
    Fraction23354166();
    ParseTwentyTwo("23354166", 23354166);
    assert "22.23354166" == "22." + "23354166";
  }

  lemma TestLongitude()
    ensures Longitude("22.54223445")
  {
    Fraction54223445();
    LongitudeOf("22", "54223445");
    SpelledTest();
  }

  lemma TestLongitudeValue()
    ensures ParseFloat("22.54223445") == Some(22.54223445)
  {
    Fraction54223445();
    ParseTwentyTwo("54223445", 54223445);
    assert "22.54223445" == "22." + "54223445";
  }

  /** TestValidateCoordinates: both halves come back as the numbers written. */
  lemma CoordinatesAccepted()
    ensures ValidateCoordinates("22.23354166,22.54223445")
            == Validated(22.23354166, 22.54223445, None)
  {
    var lat, lon := "22.23354166", "22.54223445";
    TestLatitude();
    TestLatitudeValue();
    TestLongitude();
    TestLongitudeValue();
    SpelledTest();
    ValidateMatched(lat, "", lon);
  }

  lemma SpelledTest()
    ensures "22" + "." + "23354166" == "22.23354166"
    ensures "22" + "." + "54223445" == "22.54223445"
    ensures "22.23354166" + "," + "" + "22.54223445" == "22.23354166,22.54223445"
  {
  }

  lemma SpelledOneFive()
    ensures "1" + "." + "5" == "1.5" && "2" + "." + "5" == "2.5"
    ensures "1.5" + "," + " " + "2.5" == "1.5, 2.5"
  {
  }

  /** White space after the comma: the pattern admits it, the second
      ParseFloat does not. */
  lemma SpaceAfterComma()
    ensures ValidateCoordinates("1.5, 2.5") == Failure(InvalidLongitude)
  {
    assert AllDigits("5") && LatWhole("1") && LonWhole("2");
    LatitudeOf("1", "5");
    LongitudeOf("2", "5");
    SpelledOneFive();
    assert AllSpaces(" ");
    ValidateMatched("1.5", " ", "2.5");
  }

  /** A string whose latitude half, up to its first comma, is not a
      latitude the pattern admits is a format error. */
  lemma RejectedLatitude(s: string, i: nat)
    requires i < |s| && s[i] == ',' && ',' !in s[..i]
    requires !RecognizeLatBody(Unsigned(s[..i]))
    ensures ValidateCoordinates(s) == Failure(InvalidFormat)
  {
    FirstCommaAt(s, i);
  }

  /** The same for the longitude half, when no white space follows the comma. */
  lemma RejectedLongitude(s: string, i: nat)
    requires i + 1 < |s| && s[i] == ',' && ',' !in s[..i] && !IsSpace(s[i + 1])
    requires !RecognizeLonBody(Unsigned(s[i + 1..]))
    ensures ValidateCoordinates(s) == Failure(InvalidFormat)
  {
    FirstCommaAt(s, i);
  }

  /** 91 is out of range, but it is the pattern that turns it away, so the
      error is the format error and not the range error. */
  lemma LatitudeNinetyOne()
    ensures ValidateCoordinates("91.0,0.0") == Failure(InvalidFormat)
  {
    var s := "91.0,0.0";
    assert s[..4] == "91.0" && s[4] == ',';
    assert Unsigned("91.0") == "91.0";
    DotAt("91.0", 2);
    assert "91.0"[..2] == "91";
    RejectedLatitude(s, 4);
  }

  /** The same for a longitude beyond 180. */
  lemma LongitudeBeyond180()
    ensures ValidateCoordinates("0,180.5") == Failure(InvalidFormat)
  {
    var s := "0,180.5";
    assert s[..1] == "0" && s[1] == ',' && s[2..] == "180.5";
    assert Unsigned("180.5") == "180.5";
    DotAt("180.5", 3);
    assert "180.5"[..3] == "180" && "180.5"[3..] == ".5";
    assert ".5"[1..] == "5" && "5"[0] != '0' && "180"[1] == '8';
    assert !IsSpace(s[2]) && ',' !in s[..1];
    RejectedLongitude(s, 1);
  }

  /** A leading zero before another digit is not a latitude. */
  lemma LeadingZero()
    ensures ValidateCoordinates("09,0") == Failure(InvalidFormat)
  {
    var s := "09,0";
    assert s[..2] == "09" && s[2] == ',';
    assert Unsigned("09") == "09";
    DotAt("09", 2);
    assert "09"[..2] == "09" && "09"[2..] == [];
    RejectedLatitude(s, 2);
  }

  /** A '.' must be followed by at least one digit. */
  lemma BareDot()
    ensures ValidateCoordinates("1.,2") == Failure(InvalidFormat)
  {
    var s := "1.,2";
    assert s[..2] == "1." && s[2] == ',';
    assert Unsigned("1.") == "1.";
    DotAt("1.", 1);
    assert "1."[1..] == ".";
    RejectedLatitude(s, 2);
  }

  /** At most eight digits follow the '.'. */
  lemma NineFractionDigits()
    ensures ValidateCoordinates("0.123456789,0") == Failure(InvalidFormat)
  {
    var s := "0.123456789,0";
    assert s[..11] == "0.123456789" && s[11] == ',';
    assert Unsigned("0.123456789") == "0.123456789";
    DotAt("0.123456789", 1);
    assert |"0.123456789"[1..]| == 10;
    assert "0.123456789"[..1] != "90";
    RejectedLatitude(s, 11);
  }

  /** A second comma ends up inside the longitude half. */
  lemma ThreeParts()
    ensures ValidateCoordinates("1,2,3") == Failure(InvalidFormat)
  {
    var s := "1,2,3";
    assert s[..1] == "1" && s[1] == ',' && s[2..] == "2,3";
    assert Unsigned("2,3") == "2,3";
    assert IndexOf("2,3", '.') == 3;
    assert "2,3"[..3] == "2,3" && "2,3"[3..] == [];
    assert !IsSpace(s[2]) && ',' !in s[..1];
    assert !RecognizeLonBody(Unsigned(s[1 + 1..]));
    RejectedLongitude(s, 1);
  }

  // ---------------------------------------------------------------------------
  // TestValidateDate

  // How Format spells each field of the test date, one field per lemma:
  // computed apart, each is a small closed fact, whereas spelling them all
  // inside DateAccepted leaves the solver too much to unfold.
  lemma Spelled2024() ensures PadDigits(2024, 4) == "2024" {}
  lemma Spelled04() ensures PadDigits(4, 2) == "04" {}
  lemma Spelled01() ensures PadDigits(1, 2) == "01" {}
  lemma Spelled12() ensures PadDigits(12, 2) == "12" {}
  lemma Spelled00() ensures PadDigits(0, 2) == "00" {}

  lemma SpelledDate()
    ensures "2024" + "-" + "04" + "-" + "01" + "T" + "12" + ":" + "00" + ":" + "00"
            + [] + (['+'] + "00" + ":" + "00")
            == "2024-04-01T12:00:00+00:00"
  {
  }

  /** "Valid ISO 8601 date". */
  lemma DateAccepted(strictOffset: bool)
    ensures ValidateDate("2024-04-01T12:00:00+00:00", strictOffset)
  {
    var dt := Rfc3339.DateTime(2024, 4, 1, 12, 0, 0, [], Rfc3339.Numeric(true, 0, 0));
    ValidateDateComplete(dt, strictOffset);
    Spelled2024();
    Spelled04();
    Spelled01();
    Spelled12();
    Spelled00();
    SpelledDate();
  }

  /** "Invalid date format": a date alone, a time alone, no offset, an
      offset followed by `Z`, and '/' between the date fields. */
  lemma DatesRejected(strictOffset: bool)
    ensures !ValidateDate("2024-04-01", strictOffset)
    ensures !ValidateDate("12:00:00+00:00", strictOffset)
    ensures !ValidateDate("2024-04-01T12:00:00", strictOffset)
    ensures !ValidateDate("2024-04-01T12:00:00+00:00Z", strictOffset)
    ensures !ValidateDate("2024/04/01T12:00:00+00:00", strictOffset)
  {
    assert !FitsSlot(DatePattern[4], "2024/04/01T12:00:00+00:00"[4]);
  }

  // ---------------------------------------------------------------------------
  // isValidUsername

  /** Eight letters and digits, letters first. */
  lemma UsernameAccepted()
    ensures IsValidUsername("user1212")
  {
  }

  /** The same characters, digits first: the order is not checked. */
  lemma UsernameDigitsFirst()
    ensures IsValidUsername("1212user")
  {
  }

  /** Three characters are too few ... */
  lemma UsernameTooShort()
    ensures !IsValidUsername("ab1")
  {
  }

  /** ... seventeen too many ... */
  lemma UsernameTooLong()
    ensures !IsValidUsername("abcdefghijklmnopq")
  {
  }

  /** ... and '_' is not a letter or digit. */
  lemma UsernameUnderscore()
    ensures !IsValidUsername("user_1212")
  {
    assert !IsAsciiAlnum("user_1212"[4]);
  }
}
