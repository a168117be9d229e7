/** The validators of the `goloc` command-line client (cmd/goloc/cli.go):
    validateCoordinates, validateDate (numeric offsets only) and
    isValidUsername. */
module Cli {
  import opened Lexical
  import opened GoText
  import opened CoordinatePattern
  import Rfc3339

  // ---------------------------------------------------------------------------
  // validateCoordinates

  /** Pattern check, split on ',', then the two halves. */
  function ValidateCoordinates(coordStr: string): (r: Validated)
    ensures r.err.Some? ==> r.latitude == 0.0 && r.longitude == 0.0
    ensures r.err.None? ==> -90.0 <= r.latitude <= 90.0 && -180.0 <= r.longitude <= 180.0
    ensures r.err == Some(InvalidFormat) <==> !Matches(coordStr)
  {
    RecognizeIsMatches(coordStr);
    if !Recognize(coordStr) then Failure(InvalidFormat)
    else ValidateParts(Split(coordStr, ','))
  }

  /** What follows the pattern check: ParseFloat of `parts[0]` and
      `parts[1]`, then the two range checks. */
  function ValidateParts(parts: seq<string>): (r: Validated)
    requires |parts| >= 2
    ensures r.err != Some(InvalidFormat)
    ensures r.err.Some? ==> r.latitude == 0.0 && r.longitude == 0.0
    ensures r.err.None? ==> -90.0 <= r.latitude <= 90.0 && -180.0 <= r.longitude <= 180.0
  {
    match ParseFloat(parts[0])
    case None => Failure(InvalidLatitude)
    case Some(latitude) =>
      match ParseFloat(parts[1])
      case None => Failure(InvalidLongitude)
      case Some(longitude) =>
        if latitude < -90.0 || latitude > 90.0 then Failure(LatitudeOutOfRange)
        else if longitude < -180.0 || longitude > 180.0 then Failure(LongitudeOutOfRange)
        else Validated(latitude, longitude, None)
  }

  /** Once the pattern has matched, validation is that of the split. */
  lemma ValidateRecognized(s: string)
    requires Recognize(s)
    ensures |Split(s, ',')| >= 2
    ensures ValidateCoordinates(s) == ValidateParts(Split(s, ','))
  {
  }

  /** Two halves that parse within range validate to their values. */
  lemma ValidatePartsInRange(a: string, b: string)
    requires ParseFloat(a).Some? && -90.0 <= ParseFloat(a).value <= 90.0
    requires ParseFloat(b).Some? && -180.0 <= ParseFloat(b).value <= 180.0
    ensures ValidateParts([a, b]) == Validated(ParseFloat(a).value, ParseFloat(b).value, None)
  {
  }

  /** A second half that starts with white space is an invalid longitude. */
  lemma ValidatePartsSpace(a: string, b: string)
    requires ParseFloat(a).Some?
    requires |b| > 0 && IsSpace(b[0])
    ensures ValidateParts([a, b]) == Failure(InvalidLongitude)
  {
    assert ParseFloat(b).None?;
  }

  /** Validation of a string the pattern matches at comma `i`, with the
      longitude starting at `j`. */
  lemma ValidateAt(s: string, i: nat, j: nat)
    requires 0 <= i < j <= |s| && Latitude(s[..i]) && s[i] == ','
    requires AllSpaces(s[i + 1..j]) && Longitude(s[j..])
    ensures ParseFloat(s[..i]).Some? && ParseFloat(s[j..]).Some?
    ensures ValidateCoordinates(s)
            == if j == i + 1 then Validated(ParseFloat(s[..i]).value, ParseFloat(s[j..]).value, None)
               else Failure(InvalidLongitude)
  {
    MatchedHalves(s, i, j);
    LatitudeValue(s[..i]);
    LongitudeValue(s[j..]);
    ValidateRecognized(s);
    if j > i + 1 {
      assert s[i + 1..][0] == s[i + 1];
      ValidatePartsSpace(s[..i], s[i + 1..]);
    } else {
      ValidatePartsInRange(s[..i], s[j..]);
    }
  }

  /** A string the pattern matches is `lat "," ws lon`. With no white space
      after the comma both halves parse to the numbers written; with some,
      the second part of the split starts with it and is reported as an
      invalid longitude. */
  lemma ValidateMatched(lat: string, ws: string, lon: string)
    requires Latitude(lat) && AllSpaces(ws) && Longitude(lon)
    ensures ParseFloat(lat).Some? && ParseFloat(lon).Some?
    ensures ValidateCoordinates(lat + "," + ws + lon)
            == if ws == [] then Validated(ParseFloat(lat).value, ParseFloat(lon).value, None)
               else Failure(InvalidLongitude)
  {
    var s := lat + "," + ws + lon;
    var i, j := |lat|, |lat| + 1 + |ws|;
    assert s[..i] == lat && s[i] == ',' && s[i + 1..j] == ws && s[j..] == lon;
    ValidateAt(s, i, j);
  }

  /** Every string falls in one of three cases: it does not match (format
      error), it matches with white space after the comma (longitude error),
      or it validates. The latitude error and both range errors cannot occur. */
  lemma ValidateOutcomes(coordStr: string)
    ensures ValidateCoordinates(coordStr).err in {None, Some(InvalidFormat), Some(InvalidLongitude)}
  {
    if Matches(coordStr) {
      var i, j :| 0 <= i < j <= |coordStr| && Latitude(coordStr[..i]) && coordStr[i] == ','
                  && AllSpaces(coordStr[i + 1..j]) && Longitude(coordStr[j..]);
      ValidateAt(coordStr, i, j);
    }
  }

  /** On success the string is `lat "," lon` and the results are the numbers
      written in the two halves. */
  lemma ValidateSuccess(coordStr: string)
    requires ValidateCoordinates(coordStr).err.None?
    ensures exists i :: 0 <= i < |coordStr| && Latitude(coordStr[..i]) && coordStr[i] == ','
                        && Longitude(coordStr[i + 1..])
                        && ParseFloat(coordStr[..i]) == Some(ValidateCoordinates(coordStr).latitude)
                        && ParseFloat(coordStr[i + 1..]) == Some(ValidateCoordinates(coordStr).longitude)
  {
    var i, j :| 0 <= i < j <= |coordStr| && Latitude(coordStr[..i]) && coordStr[i] == ','
                && AllSpaces(coordStr[i + 1..j]) && Longitude(coordStr[j..]);
    ValidateAt(coordStr, i, j);
  }

  // ---------------------------------------------------------------------------
  // validateDate

  /** `^\d{4}-\d{2}-\d{2}T\d{2}:\d{2}:\d{2}[+-]\d{2}:\d{2}$` */
  const DatePattern := "####-##-##T##:##:##±##:##"

  /** The pattern, then `time.Parse(time.RFC3339, date)`. */
  function ValidateDate(date: string, strictOffset: bool): (ok: bool)
    ensures ok ==> |date| == 25 && IsSign(date[19])
  {
    FitsShape(date, DatePattern) && Rfc3339.Parse(date, strictOffset).Some?
  }

  /** What is accepted is a valid date-time with no fraction of a second and a
      numeric offset, written exactly as Format writes it. */
  lemma ValidateDateSound(date: string, strictOffset: bool)
    requires ValidateDate(date, strictOffset)
    ensures var r := Rfc3339.Parse(date, strictOffset);
            && r.Some? && Rfc3339.Valid(r.value, strictOffset)
            && r.value.secfrac == [] && r.value.offset.Numeric?
            && Rfc3339.Format(r.value) == date
  {
    var dt := Rfc3339.Parse(date, strictOffset).value;
    Rfc3339.FormatParse(date, strictOffset);
    Rfc3339.FormatLayout(dt);
  }

  /** Every valid date-time with no fraction and a numeric offset is accepted
      in its printed form. */
  lemma ValidateDateComplete(dt: Rfc3339.DateTime, strictOffset: bool)
    requires Rfc3339.Valid(dt, strictOffset) && dt.secfrac == [] && dt.offset.Numeric?
    ensures ValidateDate(Rfc3339.Format(dt), strictOffset)
  {
    Rfc3339.ParseFormat(dt, strictOffset);
    Rfc3339.NumericFormatFitsShape(dt);
  }

  /** A `Z` suffix is never accepted: the pattern wants a numeric offset. */
  lemma ValidateDateRejectsUtcSuffix(date: string, strictOffset: bool)
    requires |date| > 0 && date[|date| - 1] == 'Z'
    ensures !ValidateDate(date, strictOffset)
  {
  }

  // ---------------------------------------------------------------------------
  // isValidUsername

  /** `[a-zA-Z0-9]` */
  predicate IsAsciiAlnum(c: char) {
    ('a' <= c <= 'z') || ('A' <= c <= 'Z') || ('0' <= c <= '9')
  }

  /** Matches `^[a-zA-Z0-9]{min,max}$` one character at a time. */
  predicate MatchRepeat(s: string, min: nat, max: nat)
    decreases |s|
  {
    if s == [] then min == 0
    else max > 0 && IsAsciiAlnum(s[0]) && MatchRepeat(s[1..], if min > 0 then min - 1 else 0, max - 1)
  }

  lemma {:induction false} MatchRepeatMeans(s: string, min: nat, max: nat)
    ensures MatchRepeat(s, min, max)
            <==> min <= |s| <= max && forall i :: 0 <= i < |s| ==> IsAsciiAlnum(s[i])
    decreases |s|
  {
    if s != [] {
      MatchRepeatMeans(s[1..], if min > 0 then min - 1 else 0, if max > 0 then max - 1 else 0);
      if forall i :: 0 <= i < |s[1..]| ==> IsAsciiAlnum(s[1..][i]) {
        if IsAsciiAlnum(s[0]) {
          forall i | 0 <= i < |s| ensures IsAsciiAlnum(s[i]) {
            if i > 0 { assert s[i] == s[1..][i - 1]; }
          }
        }
      }
    }
  }

  /** `^[a-zA-Z0-9]{4,16}$`: 4 to 16 ASCII letters and digits, in any order. */
  function IsValidUsername(username: string): (ok: bool)
    ensures ok <==> 4 <= |username| <= 16
                    && forall i :: 0 <= i < |username| ==> IsAsciiAlnum(username[i])
  {
    MatchRepeatMeans(username, 4, 16);
    MatchRepeat(username, 4, 16)
  }
}
