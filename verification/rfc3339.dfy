/** `time.Parse(time.RFC3339, s)` as a grammar check: the `date-time`
    production of section 5.6 of RFC 3339,

      date-time = full-date "T" full-time
      full-date = date-fullyear "-" date-month "-" date-mday
      full-time = partial-time time-offset
      partial-time = time-hour ":" time-minute ":" time-second [time-secfrac]
      time-secfrac = "." 1*DIGIT
      time-offset = "Z" / time-numoffset
      time-numoffset = ("+" / "-") time-hour ":" time-minute

    with the restrictions of section 5.7 (month 01-12, day within the month
    with the leap-year rule of Appendix C, hour 00-23, minute 00-59,
    second 00-59). `Format` prints a date-time back, and the two round trips
    `ParseFormat` and `FormatParse` show that Parse accepts exactly the
    formatted valid date-times. */
module Rfc3339 {
  import opened Lexical

  datatype Offset = Utc | Numeric(plus: bool, hour: nat, minute: nat)

  datatype DateTime = DateTime(
    year: nat, month: nat, day: nat,
    hour: nat, minute: nat, second: nat,
    secfrac: string,  // the digits after '.', empty when there is no fraction
    offset: Offset)

  /** Appendix C of RFC 3339. */
  predicate IsLeapYear(y: nat) {
    y % 4 == 0 && (y % 100 != 0 || y % 400 == 0)
  }

  function DaysInMonth(y: nat, m: nat): (d: nat)
    requires 1 <= m <= 12
    ensures 28 <= d <= 31
    ensures d == 29 <==> m == 2 && IsLeapYear(y)
  {
    if m == 2 then (if IsLeapYear(y) then 29 else 28)
    else if m == 4 || m == 6 || m == 9 || m == 11 then 30
    else 31
  }

  /** Every field fits the width the grammar gives it. */
  predicate WellFormed(dt: DateTime) {
    && dt.year < 10000 && dt.month < 100 && dt.day < 100
    && dt.hour < 100 && dt.minute < 100 && dt.second < 100
    && AllDigits(dt.secfrac)
    && (dt.offset.Numeric? ==> dt.offset.hour < 100 && dt.offset.minute < 100)
  }

  /** Section 5.7's restrictions. Go releases differ on whether they range-check
      the hours and minutes of a numeric offset, so that check is the
      parameter `strictOffset`. */
  predicate Valid(dt: DateTime, strictOffset: bool) {
    && WellFormed(dt)
    && 1 <= dt.month <= 12 && 1 <= dt.day <= DaysInMonth(dt.year, dt.month)
    && dt.hour < 24 && dt.minute < 60 && dt.second < 60
    && (strictOffset && dt.offset.Numeric? ==> dt.offset.hour < 24 && dt.offset.minute < 60)
  }

  // ---------------------------------------------------------------------------
  // Printing

  function FormatFields(dt: DateTime): (p: string)
    requires WellFormed(dt)
    ensures |p| == 19
  {
    PadDigits(dt.year, 4) + "-" + PadDigits(dt.month, 2) + "-" + PadDigits(dt.day, 2)
    + "T" + PadDigits(dt.hour, 2) + ":" + PadDigits(dt.minute, 2) + ":" + PadDigits(dt.second, 2)
  }

  function FormatFraction(frac: string): string {
    if frac == [] then [] else "." + frac
  }

  function FormatOffset(o: Offset): (t: string)
    requires o.Numeric? ==> o.hour < 100 && o.minute < 100
    ensures |t| > 0 && !IsDigit(t[0]) && t[0] != '.'
  {
    match o
    case Utc => "Z"
    case Numeric(plus, h, m) => [if plus then '+' else '-'] + PadDigits(h, 2) + ":" + PadDigits(m, 2)
  }

  function Format(dt: DateTime): string
    requires WellFormed(dt)
  {
    FormatFields(dt) + FormatFraction(dt.secfrac) + FormatOffset(dt.offset)
  }

  // ---------------------------------------------------------------------------
  // Parsing

  /** `full-date "T" time-hour ":" time-minute ":" time-second`: the
      fixed-width first 19 characters. */
  predicate FixedPrefix(s: string) {
    && |s| >= 19
    && AllDigits(s[0..4]) && s[4] == '-' && AllDigits(s[5..7]) && s[7] == '-' && AllDigits(s[8..10])
    && s[10] == 'T'
    && AllDigits(s[11..13]) && s[13] == ':' && AllDigits(s[14..16]) && s[16] == ':' && AllDigits(s[17..19])
  }

  /** `time-offset` */
  function ParseOffset(t: string): (r: Option<Offset>)
    ensures r.Some? && r.value.Numeric? ==> r.value.hour < 100 && r.value.minute < 100
  {
    if t == "Z" then Some(Utc)
    else if |t| == 6 && IsSign(t[0]) && AllDigits(t[1..3]) && t[3] == ':' && AllDigits(t[4..6]) then
      Some(Numeric(t[0] == '+', DigitsValue(t[1..3]), DigitsValue(t[4..6])))
    else None
  }

  /** The date-time whose fields are written in `s`'s fixed prefix. */
  function Assemble(s: string, frac: string, offset: Offset): (dt: DateTime)
    requires FixedPrefix(s) && AllDigits(frac)
    requires offset.Numeric? ==> offset.hour < 100 && offset.minute < 100
    ensures WellFormed(dt)
  {
    DateTime(DigitsValue(s[0..4]), DigitsValue(s[5..7]), DigitsValue(s[8..10]),
             DigitsValue(s[11..13]), DigitsValue(s[14..16]), DigitsValue(s[17..19]),
             frac, offset)
  }

  /** Where the optional `time-secfrac` that starts at index 19 ends. */
  function FractionEnd(s: string): (e: nat)
    requires |s| >= 20
    ensures 19 <= e <= |s|
  {
    if s[19] == '.' then SkipDigits(s, 20) else 19
  }

  function Parse(s: string, strictOffset: bool): (r: Option<DateTime>)
    ensures r.Some? ==> Valid(r.value, strictOffset)
  {
    if |s| < 20 || !FixedPrefix(s) then None
    else
      var e := FractionEnd(s);
      var frac := if s[19] == '.' then s[20..e] else [];
      if s[19] == '.' && frac == [] then None
      else
        match ParseOffset(s[e..])
        case None => None
        case Some(offset) =>
          var dt := Assemble(s, frac, offset);
          if Valid(dt, strictOffset) then Some(dt) else None
  }

  // ---------------------------------------------------------------------------
  // Round trips

  lemma OffsetRoundTrip(o: Offset)
    requires o.Numeric? ==> o.hour < 100 && o.minute < 100
    ensures ParseOffset(FormatOffset(o)) == Some(o)
  {
    if o.Numeric? {
      var t := FormatOffset(o);
      assert t[1..3] == PadDigits(o.hour, 2);
      assert t[4..6] == PadDigits(o.minute, 2);
      PadDigitsValue(o.hour, 2);
      PadDigitsValue(o.minute, 2);
    }
  }

  lemma OffsetTextRoundTrip(t: string)
    requires ParseOffset(t).Some?
    ensures FormatOffset(ParseOffset(t).value) == t
  {
    if t != "Z" {
      DigitsValuePad(t[1..3]);
      DigitsValuePad(t[4..6]);
      assert t == [t[0]] + t[1..3] + ":" + t[4..6];
    }
  }

  lemma FieldsRoundTrip(dt: DateTime, rest: string)
    requires WellFormed(dt)
    ensures var s := FormatFields(dt) + rest;
            FixedPrefix(s) && Assemble(s, dt.secfrac, dt.offset) == dt
  {
    var s := FormatFields(dt) + rest;
    assert s[0..4] == PadDigits(dt.year, 4);
    assert s[5..7] == PadDigits(dt.month, 2);
    assert s[8..10] == PadDigits(dt.day, 2);
    assert s[11..13] == PadDigits(dt.hour, 2);
    assert s[14..16] == PadDigits(dt.minute, 2);
    assert s[17..19] == PadDigits(dt.second, 2);
    PadDigitsValue(dt.year, 4);
    PadDigitsValue(dt.month, 2);
    PadDigitsValue(dt.day, 2);
    PadDigitsValue(dt.hour, 2);
    PadDigitsValue(dt.minute, 2);
    PadDigitsValue(dt.second, 2);
  }

  lemma PrefixRoundTrip(s: string, frac: string, o: Offset)
    requires FixedPrefix(s) && AllDigits(frac)
    requires o.Numeric? ==> o.hour < 100 && o.minute < 100
    ensures FormatFields(Assemble(s, frac, o)) == s[..19]
  {
    DigitsValuePad(s[0..4]);
    DigitsValuePad(s[5..7]);
    DigitsValuePad(s[8..10]);
    DigitsValuePad(s[11..13]);
    DigitsValuePad(s[14..16]);
    DigitsValuePad(s[17..19]);
    assert s[..19] == s[0..4] + "-" + s[5..7] + "-" + s[8..10] + "T"
                      + s[11..13] + ":" + s[14..16] + ":" + s[17..19];
  }

  /** Where the fraction ends in a printed fraction and offset that follow
      a 19-character prefix. */
  lemma TailLayout(p: string, frac: string, o: Offset)
    requires |p| == 19 && AllDigits(frac)
    requires o.Numeric? ==> o.hour < 100 && o.minute < 100
    ensures var s := p + FormatFraction(frac) + FormatOffset(o);
            && |s| >= 20 && (s[19] == '.' <==> frac != [])
            && FractionEnd(s) == 19 + |FormatFraction(frac)|
            && (frac != [] ==> s[20..FractionEnd(s)] == frac)
            && s[FractionEnd(s)..] == FormatOffset(o)
  {
    var offText := FormatOffset(o);
    var s := p + FormatFraction(frac) + offText;
    if frac == [] {
      assert s == p + offText;
      assert s[19] == offText[0];
      assert s[19..] == offText;
    } else {
      var n := |frac|;
      assert s == p + ['.'] + frac + offText;
      assert s[19] == '.';
      assert s[20..20 + n] == frac;
      assert s[20 + n] == offText[0];
      assert s[20 + n..] == offText;
      SkipDigitsTo(s, 20, 20 + n);
    }
  }

  /** Every valid date-time is read back from its printed form. */
  lemma ParseFormat(dt: DateTime, strictOffset: bool)
    requires Valid(dt, strictOffset)
    ensures Parse(Format(dt), strictOffset) == Some(dt)
  {
    var s := Format(dt);
    FieldsRoundTrip(dt, FormatFraction(dt.secfrac) + FormatOffset(dt.offset));
    assert s == FormatFields(dt) + (FormatFraction(dt.secfrac) + FormatOffset(dt.offset));
    TailLayout(FormatFields(dt), dt.secfrac, dt.offset);
    OffsetRoundTrip(dt.offset);
  }

  /** What Parse has found in a string it accepts. */
  lemma ParseParts(s: string, strictOffset: bool)
    requires Parse(s, strictOffset).Some?
    ensures |s| >= 20 && FixedPrefix(s)
    ensures var e := FractionEnd(s);
            var frac := if s[19] == '.' then s[20..e] else [];
            && AllDigits(frac) && (s[19] == '.' ==> frac != [])
            && ParseOffset(s[e..]).Some?
            && Parse(s, strictOffset).value == Assemble(s, frac, ParseOffset(s[e..]).value)
  {
  }

  /** The optional fraction Parse read is printed back as it was written. */
  lemma FractionText(s: string)
    requires |s| >= 20
    requires s[19] == '.' ==> s[20..FractionEnd(s)] != []
    ensures var e := FractionEnd(s);
            FormatFraction(if s[19] == '.' then s[20..e] else []) == s[19..e]
  {
    var e := FractionEnd(s);
    if s[19] == '.' {
      assert s[19..e] == [s[19]] + s[20..e];
    }
  }

  /** Everything Parse accepts is the printed form of what it returns. */
  lemma FormatParse(s: string, strictOffset: bool)
    requires Parse(s, strictOffset).Some?
    ensures Format(Parse(s, strictOffset).value) == s
  {
    ParseParts(s, strictOffset);
    var e := FractionEnd(s);
    var frac := if s[19] == '.' then s[20..e] else [];
    var offset := ParseOffset(s[e..]).value;
    OffsetTextRoundTrip(s[e..]);
    FractionText(s);
    FormatAssembled(s, e, frac, offset);
  }

  /** A string whose prefix, fraction and offset each print back as written
      is the printed form of the date-time assembled from them. */
  lemma FormatAssembled(s: string, e: nat, frac: string, offset: Offset)
    requires FixedPrefix(s) && 19 <= e <= |s| && AllDigits(frac)
    requires offset.Numeric? ==> offset.hour < 100 && offset.minute < 100
    requires FormatFraction(frac) == s[19..e] && FormatOffset(offset) == s[e..]
    ensures Format(Assemble(s, frac, offset)) == s
  {
    PrefixRoundTrip(s, frac, offset);
    assert s == s[..19] + s[19..e] + s[e..];
  }

  // ---------------------------------------------------------------------------
  // The printed form, character by character

  /** The length of a printed date-time and the character at index 19, where
      the optional fraction or else the offset begins. */
  lemma FormatLayout(dt: DateTime)
    requires WellFormed(dt)
    ensures var s := Format(dt);
            && |s| == 19 + |FormatFraction(dt.secfrac)| + (if dt.offset.Utc? then 1 else 6)
            && s[19] == if dt.secfrac != [] then '.'
                        else if dt.offset.Utc? then 'Z'
                        else if dt.offset.plus then '+' else '-'
  {
    var s := Format(dt);
    assert s[19] == (FormatFraction(dt.secfrac) + FormatOffset(dt.offset))[0];
  }

  /** A string that fits a shape, a separator, then a digit string. */
  lemma FitsThenDigits(x: string, sx: string, c: char, y: string, sy: string)
    requires FitsShape(x, sx) && AllDigits(y) && |y| == |sy| && c != '#' && c != '±'
    requires forall i :: 0 <= i < |sy| ==> sy[i] == '#'
    ensures FitsShape(x + [c] + y, sx + [c] + sy)
  {
    DigitsFitShape(y, sy);
    FitsShapeConcat(x, sx, [c], [c]);
    FitsShapeConcat(x + [c], sx + [c], y, sy);
  }

  /** The fixed prefix of a printed date-time fits `####-##-##T##:##:##`. */
  lemma FieldsFitShape(dt: DateTime)
    requires WellFormed(dt)
    ensures FitsShape(FormatFields(dt), "####-##-##T##:##:##")
  {
    var y, mo, d := PadDigits(dt.year, 4), PadDigits(dt.month, 2), PadDigits(dt.day, 2);
    var h, mi, se := PadDigits(dt.hour, 2), PadDigits(dt.minute, 2), PadDigits(dt.second, 2);
    DigitsFitShape(y, "####");
    FitsThenDigits(y, "####", '-', mo, "##");
    FitsThenDigits(y + "-" + mo, "####-##", '-', d, "##");
    FitsThenDigits(y + "-" + mo + "-" + d, "####-##-##", 'T', h, "##");
    FitsThenDigits(y + "-" + mo + "-" + d + "T" + h, "####-##-##T##", ':', mi, "##");
    FitsThenDigits(y + "-" + mo + "-" + d + "T" + h + ":" + mi, "####-##-##T##:##", ':', se, "##");
  }

  /** A printed numeric offset fits `±##:##`, and `+##:##` when it is ahead of UTC. */
  lemma OffsetFitsShape(o: Offset)
    requires o.Numeric? && o.hour < 100 && o.minute < 100
    ensures FitsShape(FormatOffset(o), "±##:##")
    ensures o.plus ==> FitsShape(FormatOffset(o), "+##:##")
  {
    var h, m := PadDigits(o.hour, 2), PadDigits(o.minute, 2);
    var sign := [if o.plus then '+' else '-'];
    DigitsFitShape(h, "##");
    DigitsFitShape(m, "##");
    FitsShapeConcat(sign, "±", h, "##");
    FitsShapeConcat(sign + h, "±##", ":", ":");
    FitsShapeConcat(sign + h + ":", "±##:", m, "##");
    if o.plus {
      FitsShapeConcat(sign, "+", h, "##");
      FitsShapeConcat(sign + h, "+##", ":", ":");
      FitsShapeConcat(sign + h + ":", "+##:", m, "##");
    }
  }

  /** A printed date-time without fraction and with a numeric offset fits
      `####-##-##T##:##:##±##:##`, and `####-##-##T##:##:##+##:##` when the
      offset is ahead of UTC. */
  lemma NumericFormatFitsShape(dt: DateTime)
    requires WellFormed(dt) && dt.secfrac == [] && dt.offset.Numeric?
    ensures FitsShape(Format(dt), "####-##-##T##:##:##±##:##")
    ensures dt.offset.plus ==> FitsShape(Format(dt), "####-##-##T##:##:##+##:##")
  {
    var p, o := FormatFields(dt), FormatOffset(dt.offset);
    assert Format(dt) == p + o;
    FieldsFitShape(dt);
    OffsetFitsShape(dt.offset);
    FitsShapeConcat(p, "####-##-##T##:##:##", o, "±##:##");
    assert "####-##-##T##:##:##±##:##" == "####-##-##T##:##:##" + "±##:##";
    if dt.offset.plus {
      FitsShapeConcat(p, "####-##-##T##:##:##", o, "+##:##");
      assert "####-##-##T##:##:##+##:##" == "####-##-##T##:##:##" + "+##:##";
    }
  }

  /** A printed date-time in UTC without fraction fits `####-##-##T##:##:##Z`. */
  lemma UtcFormatFitsShape(dt: DateTime)
    requires WellFormed(dt) && dt.secfrac == [] && dt.offset.Utc?
    ensures FitsShape(Format(dt), "####-##-##T##:##:##Z")
  {
    var p := FormatFields(dt);
    assert Format(dt) == p + "Z";
    FieldsFitShape(dt);
    FitsShapeConcat(p, "####-##-##T##:##:##", "Z", "Z");
    assert "####-##-##T##:##:##Z" == "####-##-##T##:##:##" + "Z";
  }
}
