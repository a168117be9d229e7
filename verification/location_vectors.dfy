/** Strings that show what the location service's validateDate lets
    through: the pattern is necessary but not sufficient. */
module LocationVectors {
  import opened Lexical
  import Rfc3339
  import opened LocationService
  import CliVectors

  /** Month 13 fits the pattern, and the RFC 3339 check turns it away. */
  lemma MonthThirteen(strictOffset: bool)
    ensures FitsShape("2024-13-01T12:00:00Z", UtcPattern)
    ensures !ValidateDate("2024-13-01T12:00:00Z", strictOffset)
  {
    var s := "2024-13-01T12:00:00Z";
    assert s[5..7] == "13";
    assert DigitsValue("13") == 13;
  }

  /** So does 30 February. */
  lemma ThirtiethOfFebruary(strictOffset: bool)
    ensures FitsShape("2024-02-30T12:00:00Z", UtcPattern)
    ensures !ValidateDate("2024-02-30T12:00:00Z", strictOffset)
  {
    var s := "2024-02-30T12:00:00Z";
    assert s[5..7] == "02" && s[8..10] == "30";
    assert DigitsValue("02") == 2 && DigitsValue("30") == 30;
  }

  // How Format spells each field of the leap day, one field per lemma (as in
  // CliVectors): computed apart, each is a small closed fact, whereas
  // spelling them all inside LeapDay leaves the solver too much to unfold.
  lemma Spelled02() ensures PadDigits(2, 2) == "02" {}
  lemma Spelled29() ensures PadDigits(29, 2) == "29" {}

  lemma SpelledLeapDay()
    ensures "2024" + "-" + "02" + "-" + "29" + "T" + "00" + ":" + "00" + ":" + "00" + [] + "Z"
            == "2024-02-29T00:00:00Z"
  {
  }

  /** 29 February is accepted in a leap year ... */
  lemma LeapDay(strictOffset: bool)
    ensures ValidateDate("2024-02-29T00:00:00Z", strictOffset)
  {
    var dt := Rfc3339.DateTime(2024, 2, 29, 0, 0, 0, [], Rfc3339.Utc);
    ValidateDateComplete(dt, strictOffset);
    CliVectors.Spelled2024();
    Spelled02();
    Spelled29();
    CliVectors.Spelled00();
    SpelledLeapDay();
  }

  lemma Value2023() ensures AllDigits("2023") && DigitsValue("2023") == 2023 {
    assert "2023"[..3] == "202" && "202"[..2] == "20" && "20"[..1] == "2";
  }

  /** ... and not in another. */
  lemma NoLeapDay(strictOffset: bool)
    ensures !ValidateDate("2023-02-29T00:00:00Z", strictOffset)
  {
    var s := "2023-02-29T00:00:00Z";
    Value2023();
    assert s[0..4] == "2023" && s[5..7] == "02" && s[8..10] == "29";
    assert DigitsValue("02") == 2 && DigitsValue("29") == 29;
  }

  /** A numeric offset behind UTC fits neither alternative. */
  lemma MinusOffset(strictOffset: bool)
    ensures !ValidateDate("2024-04-01T12:00:00-05:00", strictOffset)
  {
    ValidateDateRejectsMinus("2024-04-01T12:00:00-05:00", strictOffset);
  }
}
