/** The coordinate pattern shared by both copies of validateCoordinates:

      ^[-+]?([1-8]?\d(\.\d{1,8})?|90(\.0{1,8})?),\s*[-+]?(180(\.0{1,8})?|((1[0-7]\d)|([1-9]?\d))(\.\d{1,8})?)$

    `Matches` follows the pattern's structure, one existential split point per
    concatenation; `Recognize` is a deterministic recognizer that finds every
    split point directly. `RecognizeIsMatches` proves the two equal, and
    `LatitudeValue`/`LongitudeValue` prove that the pattern alone bounds the
    numbers it admits. */
module CoordinatePattern {
  import opened Lexical
  import opened GoText

  /** The errors validateCoordinates reports, one per `fmt.Errorf` message. */
  datatype CoordError =
    | InvalidFormat        // "Invalid coordinates format. Use decimal format (latitude,longitude)"
    | InvalidLatitude      // "Invalid latitude"
    | InvalidLongitude     // "Invalid longitude"
    | LatitudeOutOfRange   // "Latitude out of range (-90 to 90)"
    | LongitudeOutOfRange  // "Longitude out of range (-180 to 180)"

  /** The three results `(latitude, longitude float64, err error)`. */
  datatype Validated = Validated(latitude: real, longitude: real, err: Option<CoordError>)

  /** An error return: `return 0, 0, fmt.Errorf(...)`. */
  function Failure(e: CoordError): (r: Validated)
    ensures r.err == Some(e) && r.latitude == 0.0 && r.longitude == 0.0
  {
    Validated(0.0, 0.0, Some(e))
  }

  // ---------------------------------------------------------------------------
  // The pattern, piece by piece

  /** `[-+]?` */
  predicate OptSign(t: string) { t == [] || (|t| == 1 && IsSign(t[0])) }

  /** `(\.\d{1,8})?` */
  predicate OptFraction(t: string) {
    t == [] || (2 <= |t| <= 9 && t[0] == '.' && AllDigits(t[1..]))
  }

  /** `(\.0{1,8})?` */
  predicate OptZeroFraction(t: string) {
    t == [] || (2 <= |t| <= 9 && t[0] == '.' && AllZeros(t[1..]))
  }

  /** `[1-8]?\d` */
  predicate LatWhole(t: string) {
    || (|t| == 1 && IsDigit(t[0]))
    || (|t| == 2 && '1' <= t[0] <= '8' && IsDigit(t[1]))
  }

  /** `(1[0-7]\d)|([1-9]?\d)` */
  predicate LonWhole(t: string) {
    || (|t| == 3 && t[0] == '1' && '0' <= t[1] <= '7' && IsDigit(t[2]))
    || (|t| == 1 && IsDigit(t[0]))
    || (|t| == 2 && '1' <= t[0] <= '9' && IsDigit(t[1]))
  }

  /** `[1-8]?\d(\.\d{1,8})?|90(\.0{1,8})?` */
  predicate LatBody(t: string) {
    || (exists k :: 0 <= k <= |t| && LatWhole(t[..k]) && OptFraction(t[k..]))
    || (|t| >= 2 && t[..2] == "90" && OptZeroFraction(t[2..]))
  }

  /** `180(\.0{1,8})?|((1[0-7]\d)|([1-9]?\d))(\.\d{1,8})?` */
  predicate LonBody(t: string) {
    || (|t| >= 3 && t[..3] == "180" && OptZeroFraction(t[3..]))
    || (exists k :: 0 <= k <= |t| && LonWhole(t[..k]) && OptFraction(t[k..]))
  }

  /** The latitude half: `[-+]?` followed by LatBody. */
  predicate Latitude(t: string) {
    exists k :: 0 <= k <= |t| && OptSign(t[..k]) && LatBody(t[k..])
  }

  /** The longitude half: `[-+]?` followed by LonBody. */
  predicate Longitude(t: string) {
    exists k :: 0 <= k <= |t| && OptSign(t[..k]) && LonBody(t[k..])
  }

  /** The whole anchored pattern: latitude, ',', `\s*`, longitude. */
  predicate Matches(s: string) {
    exists i, j :: 0 <= i < j <= |s| && Latitude(s[..i]) && s[i] == ','
                   && AllSpaces(s[i + 1..j]) && Longitude(s[j..])
  }

  // ---------------------------------------------------------------------------
  // The recognizer

  predicate RecognizeLatBody(b: string) {
    var d := IndexOf(b, '.');
    (LatWhole(b[..d]) && OptFraction(b[d..])) || (b[..d] == "90" && OptZeroFraction(b[d..]))
  }

  predicate RecognizeLonBody(b: string) {
    var d := IndexOf(b, '.');
    (b[..d] == "180" && OptZeroFraction(b[d..])) || (LonWhole(b[..d]) && OptFraction(b[d..]))
  }

  /** Splits at the first comma, skips the white space after it, and checks
      each half with the split at its first '.'. */
  predicate Recognize(s: string) {
    var i := IndexOf(s, ',');
    i < |s| && RecognizeLatBody(Unsigned(s[..i]))
    && RecognizeLonBody(Unsigned(s[SkipSpaces(s, i + 1)..]))
  }

  // ---------------------------------------------------------------------------
  // Recognizer and pattern agree

  /** Every character of a numeral is a sign, a digit or a '.'. */
  predicate NumeralChars(t: string) {
    forall m :: 0 <= m < |t| ==> IsSign(t[m]) || IsDigit(t[m]) || t[m] == '.'
  }

  /** When `t[..k]` is all digits and `t[k..]` is empty or starts with '.',
      the first '.' of `t` is at `k`. */
  lemma DotAt(t: string, k: nat)
    requires k <= |t| && AllDigits(t[..k])
    requires k < |t| ==> t[k] == '.'
    ensures IndexOf(t, '.') == k
  {
    forall m | 0 <= m < k ensures t[m] != '.' {
      assert t[m] == t[..k][m];
    }
  }

  lemma FractionChars(t: string)
    requires OptFraction(t) || OptZeroFraction(t)
    ensures NumeralChars(t) && (t != [] ==> t[0] == '.')
  {
    forall m | 0 <= m < |t| ensures IsSign(t[m]) || IsDigit(t[m]) || t[m] == '.' {
      if m > 0 { assert t[m] == t[1..][m - 1]; }
    }
  }

  lemma WholeThenFraction(t: string, k: nat)
    requires k <= |t| && 0 < k && AllDigits(t[..k])
    requires OptFraction(t[k..]) || OptZeroFraction(t[k..])
    ensures NumeralChars(t) && IsDigit(t[0]) && IndexOf(t, '.') == k
  {
    FractionChars(t[k..]);
    forall m | 0 <= m < |t| ensures IsSign(t[m]) || IsDigit(t[m]) || t[m] == '.' {
      if m < k { assert t[m] == t[..k][m]; } else { assert t[m] == t[k..][m - k]; }
    }
    assert t[0] == t[..k][0];
    if k < |t| { assert t[k] == t[k..][0]; }
    DotAt(t, k);
  }

  /** A body the pattern admits is split at its first '.', and is made of
      digits and at most that '.'. */
  lemma LatBodyRecognized(b: string)
    requires LatBody(b)
    ensures RecognizeLatBody(b) && |b| > 0 && IsDigit(b[0]) && NumeralChars(b)
  {
    if k :| 0 <= k <= |b| && LatWhole(b[..k]) && OptFraction(b[k..]) {
      WholeThenFraction(b, k);
    } else {
      WholeThenFraction(b, 2);
    }
  }

  lemma RecognizedLatBody(b: string)
    requires RecognizeLatBody(b)
    ensures LatBody(b)
  {
    var d := IndexOf(b, '.');
    if !(LatWhole(b[..d]) && OptFraction(b[d..])) {
      assert |b[..d]| == 2 && b[..2] == b[..d];
    }
  }

  lemma LatBodyIff(b: string)
    ensures LatBody(b) <==> RecognizeLatBody(b)
    ensures LatBody(b) ==> |b| > 0 && IsDigit(b[0]) && NumeralChars(b)
  {
    if LatBody(b) { LatBodyRecognized(b); }
    if RecognizeLatBody(b) { RecognizedLatBody(b); }
  }

  lemma LonBodyRecognized(b: string)
    requires LonBody(b)
    ensures RecognizeLonBody(b) && |b| > 0 && IsDigit(b[0]) && NumeralChars(b)
  {
    if k :| 0 <= k <= |b| && LonWhole(b[..k]) && OptFraction(b[k..]) {
      WholeThenFraction(b, k);
    } else {
      WholeThenFraction(b, 3);
    }
  }

  lemma RecognizedLonBody(b: string)
    requires RecognizeLonBody(b)
    ensures LonBody(b)
  {
    var d := IndexOf(b, '.');
    if !(LonWhole(b[..d]) && OptFraction(b[d..])) {
      assert |b[..d]| == 3 && b[..3] == b[..d];
    }
  }

  lemma LonBodyIff(b: string)
    ensures LonBody(b) <==> RecognizeLonBody(b)
    ensures LonBody(b) ==> |b| > 0 && IsDigit(b[0]) && NumeralChars(b)
  {
    if LonBody(b) { LonBodyRecognized(b); }
    if RecognizeLonBody(b) { RecognizedLonBody(b); }
  }

  /** Where the optional sign of a numeral ends. */
  function SignEnd(t: string): (k: nat)
    ensures k <= |t| && OptSign(t[..k]) && t[k..] == Unsigned(t)
  {
    if |t| > 0 && IsSign(t[0]) then 1 else 0
  }

  /** A body starts with a digit, so the sign split point is forced. */
  lemma SignSplitForced(t: string, k: nat)
    requires k <= |t| && OptSign(t[..k])
    requires |t[k..]| > 0 && IsDigit(t[k..][0])
    ensures k == SignEnd(t)
  {
    if k == 0 { assert t[0] == t[k..][0]; } else { assert t[0] == t[..k][0]; }
  }

  /** A numeral the pattern admits is made of signs, digits and '.'; it
      cannot start with white space. */
  lemma SignedNumeralChars(t: string, k: nat)
    requires k <= |t| && OptSign(t[..k])
    requires |t[k..]| > 0 && IsDigit(t[k..][0]) && NumeralChars(t[k..])
    ensures |t| > 0 && NumeralChars(t) && !IsSpace(t[0])
  {
    forall m | 0 <= m < |t| ensures IsSign(t[m]) || IsDigit(t[m]) || t[m] == '.' {
      if m >= k { assert t[m] == t[k..][m - k]; } else { assert t[m] == t[..k][m]; }
    }
    if k == 0 { assert t[0] == t[k..][0]; } else { assert t[0] == t[..k][0]; }
  }

  lemma LatitudeRecognized(t: string)
    requires Latitude(t)
    ensures RecognizeLatBody(Unsigned(t)) && |t| > 0 && NumeralChars(t) && !IsSpace(t[0])
  {
    var k :| 0 <= k <= |t| && OptSign(t[..k]) && LatBody(t[k..]);
    LatBodyRecognized(t[k..]);
    SignSplitForced(t, k);
    SignedNumeralChars(t, k);
  }

  lemma RecognizedLatitude(t: string)
    requires RecognizeLatBody(Unsigned(t))
    ensures Latitude(t)
  {
    var e := SignEnd(t);
    RecognizedLatBody(t[e..]);
  }

  lemma LatitudeIff(t: string)
    ensures Latitude(t) <==> RecognizeLatBody(Unsigned(t))
    ensures Latitude(t) ==> |t| > 0 && NumeralChars(t) && !IsSpace(t[0])
  {
    if Latitude(t) { LatitudeRecognized(t); }
    if RecognizeLatBody(Unsigned(t)) { RecognizedLatitude(t); }
  }

  lemma LongitudeRecognized(t: string)
    requires Longitude(t)
    ensures RecognizeLonBody(Unsigned(t)) && |t| > 0 && NumeralChars(t) && !IsSpace(t[0])
  {
    var k :| 0 <= k <= |t| && OptSign(t[..k]) && LonBody(t[k..]);
    LonBodyRecognized(t[k..]);
    SignSplitForced(t, k);
    SignedNumeralChars(t, k);
  }

  lemma RecognizedLongitude(t: string)
    requires RecognizeLonBody(Unsigned(t))
    ensures Longitude(t)
  {
    var e := SignEnd(t);
    RecognizedLonBody(t[e..]);
  }

  lemma LongitudeIff(t: string)
    ensures Longitude(t) <==> RecognizeLonBody(Unsigned(t))
    ensures Longitude(t) ==> |t| > 0 && NumeralChars(t) && !IsSpace(t[0])
  {
    if Longitude(t) { LongitudeRecognized(t); }
    if RecognizeLonBody(Unsigned(t)) { RecognizedLongitude(t); }
  }

  lemma RecognizedMatches(s: string)
    requires Recognize(s)
    ensures Matches(s)
  {
    var i := IndexOf(s, ',');
    var j := SkipSpaces(s, i + 1);
    LatitudeIff(s[..i]);
    LongitudeIff(s[j..]);
  }

  lemma FirstCommaAt(s: string, i: nat)
    requires i < |s| && s[i] == ',' && ',' !in s[..i]
    ensures IndexOf(s, ',') == i
  {
    assert forall m :: 0 <= m < i ==> s[m] == s[..i][m];
  }

  lemma SpacesEndAt(s: string, i: nat, j: nat)
    requires i <= j < |s| && AllSpaces(s[i..j]) && !IsSpace(s[j])
    ensures SkipSpaces(s, i) == j
  {
    assert forall m :: i <= m < j ==> s[m] == s[i..j][m - i];
  }

  lemma MatchedRecognized(s: string, i: nat, j: nat)
    requires 0 <= i < j <= |s| && Latitude(s[..i]) && s[i] == ','
    requires AllSpaces(s[i + 1..j]) && Longitude(s[j..])
    ensures IndexOf(s, ',') == i && SkipSpaces(s, i + 1) == j
    ensures Recognize(s)
  {
    LatitudeIff(s[..i]);
    LongitudeIff(s[j..]);
    NoComma(s[..i]);
    FirstCommaAt(s, i);
    assert s[j] == s[j..][0];
    SpacesEndAt(s, i + 1, j);
  }

  /** The hand-written recognizer accepts exactly the strings the pattern matches. */
  lemma RecognizeIsMatches(s: string)
    ensures Recognize(s) <==> Matches(s)
  {
    if Recognize(s) {
      RecognizedMatches(s);
    }
    if Matches(s) {
      var i, j :| 0 <= i < j <= |s| && Latitude(s[..i]) && s[i] == ','
                  && AllSpaces(s[i + 1..j]) && Longitude(s[j..]);
      MatchedRecognized(s, i, j);
    }
  }

  // ---------------------------------------------------------------------------
  // What the pattern lets through

  lemma NoComma(t: string)
    requires NumeralChars(t) || AllSpaces(t)
    ensures ',' !in t
  {
    assert forall m :: 0 <= m < |t| ==> t[m] != ',';
  }

  lemma LatitudeNoComma(t: string)
    requires Latitude(t)
    ensures ',' !in t
  {
    LatitudeIff(t);
    NoComma(t);
  }

  lemma LongitudeNoComma(t: string)
    requires Longitude(t)
    ensures ',' !in t
  {
    LongitudeIff(t);
    NoComma(t);
  }

  /** A string with one comma, at `i`, splits into the two sides of it. */
  lemma OneComma(s: string, i: nat, j: nat)
    requires i < j <= |s| && s[i] == ','
    requires ',' !in s[..i] && ',' !in s[i + 1..j] && ',' !in s[j..]
    ensures Split(s, ',') == [s[..i], s[i + 1..]]
  {
    var t := s[i + 1..];
    forall m | 0 <= m < |t| ensures t[m] != ',' {
      if m < j - i - 1 {
        assert t[m] == s[i + 1..j][m];
      } else {
        assert t[m] == s[j..][m - (j - i - 1)];
      }
    }
    SplitAt(s, i, ',');
  }

  /** A matched string has exactly one comma, between its two halves. */
  lemma MatchedParts(s: string, i: nat, j: nat)
    requires 0 <= i < j <= |s| && Latitude(s[..i]) && s[i] == ','
    requires AllSpaces(s[i + 1..j]) && Longitude(s[j..])
    ensures Split(s, ',') == [s[..i], s[i + 1..]]
  {
    LatitudeNoComma(s[..i]);
    LongitudeNoComma(s[j..]);
    NoComma(s[i + 1..j]);
    OneComma(s, i, j);
  }

  /** The value of `digits` followed by an optional `.digits` tail,
      after an optional sign. */
  lemma SignedNumeral(t: string, k: nat, m: nat)
    requires k < m <= |t| && OptSign(t[..k]) && AllDigits(t[k..m])
    requires m < |t| ==> t[m] == '.' && m + 1 < |t| && AllDigits(t[m + 1..])
    ensures var frac := if m == |t| then [] else t[m + 1..];
            AllDigits(frac)
            && ParseFloat(t) == Some(Signed(t[..k] == "-", DecimalValue(t[k..m], frac)))
  {
    var frac := if m == |t| then [] else t[m + 1..];
    assert t == t[..k] + t[k..m] + (if frac == [] then [] else ['.'] + frac);
    ParseFloatNumeral(t[..k], t[k..m], frac);
  }

  lemma LatWholeValue(w: string)
    requires LatWhole(w)
    ensures AllDigits(w) && DigitsValue(w) <= 89
  {
    if |w| == 2 {
      assert w[..1][..0] == [];
    }
  }

  lemma LonWholeValue(w: string)
    requires LonWhole(w)
    ensures AllDigits(w) && DigitsValue(w) <= 179
  {
    if |w| == 3 {
      var w2 := w[..2];
      assert w2[..1] == w[..1];
      assert w[..1][..0] == [];
      assert DigitsValue(w[..1]) == 1;
      assert DigitsValue(w2) == 10 + DigitValue(w[1]) <= 17;
    } else if |w| == 2 {
      assert w[..1][..0] == [];
    }
  }

  lemma CapValue(w: string)
    requires w == "90" || w == "180"
    ensures AllDigits(w) && DigitsValue(w) == if w == "90" then 90 else 180
  {
    assert w[..|w| - 1][..0] == [];
    if w == "180" {
      assert w[..2] == "18";
      assert DigitsValue("18") == 18 by { assert "18"[..1] == "1"; }
    } else {
      assert w[..1] == "9";
    }
  }

  /** A signed decimal whose whole part is below `bound`, or equal to it with
      a fraction of zeros, has magnitude at most `bound`. */
  lemma BoundedDecimal(negative: bool, whole: string, frac: string, bound: nat)
    requires AllDigits(whole) && AllDigits(frac)
    requires DigitsValue(whole) < bound || (DigitsValue(whole) == bound && AllZeros(frac))
    ensures -(bound as real) <= Signed(negative, DecimalValue(whole, frac)) <= bound as real
  {
    var x := DecimalValue(whole, frac);
    if DigitsValue(whole) < bound {
      assert x < bound as real;
    } else {
      ZerosValue(frac);
      assert x == bound as real;
    }
  }

  /** A signed numeral whose whole part is below `bound`, or equal to it with
      a fraction of zeros, parses to a value of magnitude at most `bound`. */
  lemma BoundedNumeral(t: string, k: nat, m: nat, bound: nat)
    requires k < m <= |t| && OptSign(t[..k]) && AllDigits(t[k..m])
    requires m < |t| ==> t[m] == '.' && m + 1 < |t| && AllDigits(t[m + 1..])
    requires DigitsValue(t[k..m]) < bound
             || (DigitsValue(t[k..m]) == bound && (m < |t| ==> AllZeros(t[m + 1..])))
    ensures ParseFloat(t).Some? && -(bound as real) <= ParseFloat(t).value <= bound as real
  {
    SignedNumeral(t, k, m);
    var frac := if m == |t| then [] else t[m + 1..];
    BoundedDecimal(t[..k] == "-", t[k..m], frac, bound);
  }

  /** Moves a body's whole/fraction split point into the coordinates of the
      signed numeral that contains it. */
  lemma BodySplit(t: string, k: nat, m: nat)
    requires k <= |t| && 0 < m <= |t[k..]| && AllDigits(t[k..][..m])
    requires OptFraction(t[k..][m..]) || OptZeroFraction(t[k..][m..])
    ensures t[k..k + m] == t[k..][..m]
    ensures k + m < |t| ==> t[k + m] == '.' && k + m + 1 < |t| && AllDigits(t[k + m + 1..])
    ensures k + m < |t| && OptZeroFraction(t[k..][m..]) ==> AllZeros(t[k + m + 1..])
  {
    if k + m < |t| {
      assert t[k..][m..] == t[k + m..];
      assert t[k + m + 1..] == t[k + m..][1..];
    }
  }

  /** A body whose whole part `w` (the first `m` characters) is below
      `bound`, or equal to it with a fraction of zeros, parses after the
      sign to a value of magnitude at most `bound`. */
  lemma BodyValue(t: string, k: nat, m: nat, bound: nat)
    requires k <= |t| && OptSign(t[..k]) && 0 < m <= |t[k..]| && AllDigits(t[k..][..m])
    requires OptFraction(t[k..][m..]) || OptZeroFraction(t[k..][m..])
    requires DigitsValue(t[k..][..m]) < bound
             || (DigitsValue(t[k..][..m]) == bound && OptZeroFraction(t[k..][m..]))
    ensures ParseFloat(t).Some? && -(bound as real) <= ParseFloat(t).value <= bound as real
  {
    BodySplit(t, k, m);
    BoundedNumeral(t, k, k + m, bound);
  }

  /** The magnitude a matched latitude can have is bounded by the pattern. */
  lemma LatitudeValue(t: string)
    requires Latitude(t)
    ensures ParseFloat(t).Some? && -90.0 <= ParseFloat(t).value <= 90.0
  {
    var k :| 0 <= k <= |t| && OptSign(t[..k]) && LatBody(t[k..]);
    var b := t[k..];
    if m :| 0 <= m <= |b| && LatWhole(b[..m]) && OptFraction(b[m..]) {
      LatWholeValue(b[..m]);
      BodyValue(t, k, m, 90);
    } else {
      CapValue(b[..2]);
      BodyValue(t, k, 2, 90);
    }
  }

  /** The magnitude a matched longitude can have is bounded by the pattern. */
  lemma LongitudeValue(t: string)
    requires Longitude(t)
    ensures ParseFloat(t).Some? && -180.0 <= ParseFloat(t).value <= 180.0
  {
    var k :| 0 <= k <= |t| && OptSign(t[..k]) && LonBody(t[k..]);
    var b := t[k..];
    if m :| 0 <= m <= |b| && LonWhole(b[..m]) && OptFraction(b[m..]) {
      LonWholeValue(b[..m]);
      BodyValue(t, k, m, 180);
    } else {
      CapValue(b[..3]);
      BodyValue(t, k, 3, 180);
    }
  }

  /** A matched string splits at its one comma into two halves, and the
      second starts with white space exactly when the pattern's `\s*` took
      some. */
  lemma MatchedHalves(s: string, i: nat, j: nat)
    requires 0 <= i < j <= |s| && Latitude(s[..i]) && s[i] == ','
    requires AllSpaces(s[i + 1..j]) && Longitude(s[j..])
    ensures Recognize(s) && Split(s, ',') == [s[..i], s[i + 1..]]
    ensures j > i + 1 ==> IsSpace(s[i + 1])
  {
    MatchedRecognized(s, i, j);
    MatchedParts(s, i, j);
    if j > i + 1 {
      assert s[i + 1] == s[i + 1..j][0];
    }
  }
}
