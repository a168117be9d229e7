/** The two library routines the validators call on a matched coordinate
    string: `strings.Split` with a one-character separator, and
    `strconv.ParseFloat` on plain decimal literals, with exact values. */
module GoText {
  import opened Lexical

  /** `strings.Split(s, sep)`: the pieces between occurrences of `sep`. */
  function Split(s: string, sep: char): (parts: seq<string>)
    ensures |parts| >= 1
    ensures forall p :: p in parts ==> sep !in p
    decreases |s|
  {
    var i := IndexOf(s, sep);
    if i == |s| then [s] else [s[..i]] + Split(s[i + 1..], sep)
  }

  /** `strings.Join(parts, sep)`, the inverse of Split. */
  function Join(parts: seq<string>, sep: char): string
    requires |parts| >= 1
  {
    if |parts| == 1 then parts[0] else parts[0] + [sep] + Join(parts[1..], sep)
  }

  lemma {:induction false} JoinSplit(s: string, sep: char)
    ensures Join(Split(s, sep), sep) == s
    decreases |s|
  {
    var i := IndexOf(s, sep);
    if i < |s| {
      var rest := Split(s[i + 1..], sep);
      var parts := [s[..i]] + rest;
      assert Split(s, sep) == parts;
      assert parts[0] == s[..i] && parts[1..] == rest;
      JoinSplit(s[i + 1..], sep);
      assert s == s[..i] + [sep] + s[i + 1..];
    }
  }

  lemma {:induction false} SplitJoin(parts: seq<string>, sep: char)
    requires |parts| >= 1 && forall p :: p in parts ==> sep !in p
    ensures Split(Join(parts, sep), sep) == parts
  {
    var s := Join(parts, sep);
    if |parts| == 1 {
      assert sep !in s;
    } else {
      var rest := Join(parts[1..], sep);
      assert s == parts[0] + [sep] + rest;
      assert sep !in parts[0];
      assert IndexOf(s, sep) == |parts[0]| by {
        assert s[|parts[0]|] == sep;
      }
      assert s[|parts[0]| + 1..] == rest;
      assert s[..|parts[0]|] == parts[0];
      SplitJoin(parts[1..], sep);
    }
  }

  /** A string with exactly one separator splits into the two sides of it. */
  lemma SplitOnce(a: string, b: string, sep: char)
    requires sep !in a && sep !in b
    ensures Split(a + [sep] + b, sep) == [a, b]
  {
    SplitJoin([a, b], sep);
    assert Join([b], sep) == b;
  }

  /** A string whose only separator is at `i` splits around `i`. */
  lemma SplitAt(s: string, i: nat, sep: char)
    requires i < |s| && s[i] == sep && sep !in s[..i] && sep !in s[i + 1..]
    ensures Split(s, sep) == [s[..i], s[i + 1..]]
  {
    assert s == s[..i] + [sep] + s[i + 1..];
    SplitOnce(s[..i], s[i + 1..], sep);
  }

  /** The part of a decimal literal after its optional sign. */
  function Unsigned(s: string): string {
    if |s| > 0 && IsSign(s[0]) then s[1..] else s
  }

  function Signed(negative: bool, x: real): real {
    if negative then -x else x
  }

  lemma ProperFraction(f: real, p: real)
    requires 0.0 <= f < p
    ensures 0.0 <= f / p < 1.0
  {
    var x := f / p;
    assert x * p == f;
  }

  /** The exact value of the numeral `whole.frac`. */
  function DecimalValue(whole: string, frac: string): (x: real)
    requires AllDigits(whole) && AllDigits(frac)
    ensures DigitsValue(whole) as real <= x < DigitsValue(whole) as real + 1.0
  {
    var f := DigitsValue(frac) as real;
    var p := Pow10(|frac|) as real;
    ProperFraction(f, p);
    DigitsValue(whole) as real + f / p
  }

  /** `strconv.ParseFloat(s, 64)` on decimal literals: an optional sign, then
      digits with at most one '.', at least one digit in all. Anything else,
      leading or trailing white space included, is a syntax error (None). */
  function ParseFloat(s: string): (r: Option<real>)
    ensures r.Some? ==> |s| > 0 && (IsSign(s[0]) || IsDigit(s[0]) || s[0] == '.')
  {
    var body := Unsigned(s);
    var dot := IndexOf(body, '.');
    var whole := body[..dot];
    var frac := if dot < |body| then body[dot + 1..] else [];
    if AllDigits(whole) && AllDigits(frac) && (|whole| > 0 || |frac| > 0) then
      Some(Signed(|s| > 0 && s[0] == '-', DecimalValue(whole, frac)))
    else
      None
  }

  /** ParseFloat reads back `[sign] whole [. frac]` as its exact value. */
  lemma ParseFloatNumeral(sign: string, whole: string, frac: string)
    requires sign == [] || (|sign| == 1 && IsSign(sign[0]))
    requires |whole| > 0 && AllDigits(whole) && AllDigits(frac)
    ensures ParseFloat(sign + whole + (if frac == [] then [] else ['.'] + frac))
            == Some(Signed(sign == "-", DecimalValue(whole, frac)))
  {
    var tail := if frac == [] then [] else ['.'] + frac;
    var s := sign + whole + tail;
    assert Unsigned(s) == whole + tail by {
      if sign == [] {
        assert s == whole + tail;
        assert !IsSign(whole[0]);
      } else {
        assert s[1..] == whole + tail;
      }
    }
    var body := whole + tail;
    assert '.' !in whole by {
      forall k | 0 <= k < |whole| ensures whole[k] != '.' { assert IsDigit(whole[k]); }
    }
    assert IndexOf(body, '.') == |whole| by {
      if frac != [] { assert body[|whole|] == '.'; }
    }
    assert body[..|whole|] == whole;
    if frac != [] {
      assert body[|whole| + 1..] == frac;
    }
    assert (|s| > 0 && s[0] == '-') == (sign == "-") by {
      if sign == [] { assert s[0] == whole[0]; } else { assert s[0] == sign[0]; }
    }
  }
}
