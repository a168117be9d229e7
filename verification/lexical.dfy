/** Character classes, digit strings and searches shared by every validator. */
module Lexical {

  datatype Option<+T> = None | Some(value: T)

  /** `\d` in Go's regexp syntax: an ASCII decimal digit. */
  predicate IsDigit(c: char) { '0' <= c <= '9' }

  /** `[-+]` */
  predicate IsSign(c: char) { c == '+' || c == '-' }

  /** `\s` in Go's regexp syntax (RE2): tab, newline, form feed, carriage return, space. */
  predicate IsSpace(c: char) { c == '\t' || c == '\n' || c == '\U{C}' || c == '\r' || c == ' ' }

  predicate AllDigits(s: string) { forall i :: 0 <= i < |s| ==> IsDigit(s[i]) }

  predicate AllZeros(s: string) { forall i :: 0 <= i < |s| ==> s[i] == '0' }

  predicate AllSpaces(s: string) { forall i :: 0 <= i < |s| ==> IsSpace(s[i]) }

  function DigitValue(c: char): (d: nat)
    requires IsDigit(c)
    ensures d < 10
  {
    c as int - '0' as int
  }

  function DigitChar(d: nat): (c: char)
    requires d < 10
    ensures IsDigit(c) && DigitValue(c) == d
  {
    ('0' as int + d) as char
  }

  function Pow10(k: nat): (p: nat)
    ensures p >= 1
  {
    if k == 0 then 1 else 10 * Pow10(k - 1)
  }

  /** The number a string of decimal digits denotes, most significant digit first. */
  function DigitsValue(s: string): (n: nat)
    requires AllDigits(s)
    ensures n < Pow10(|s|)
  {
    if s == [] then 0
    else
      var m := DigitsValue(s[..|s| - 1]);
      assert m <= Pow10(|s| - 1) - 1;
      m * 10 + DigitValue(s[|s| - 1])
  }

  /** The `w`-digit decimal numeral of `n`, with leading zeros. */
  function PadDigits(n: nat, w: nat): (s: string)
    requires n < Pow10(w)
    ensures |s| == w && AllDigits(s)
  {
    if w == 0 then [] else PadDigits(n / 10, w - 1) + [DigitChar(n % 10)]
  }

  lemma {:induction false} PadDigitsValue(n: nat, w: nat)
    requires n < Pow10(w)
    ensures DigitsValue(PadDigits(n, w)) == n
  {
    if w > 0 {
      var s := PadDigits(n, w);
      PadDigitsValue(n / 10, w - 1);
      assert s[..|s| - 1] == PadDigits(n / 10, w - 1);
    }
  }

  lemma {:induction false} DigitsValuePad(s: string)
    requires AllDigits(s)
    ensures PadDigits(DigitsValue(s), |s|) == s
  {
    if s != [] {
      var init, last := s[..|s| - 1], s[|s| - 1];
      var n := DigitsValue(s);
      assert n == DigitsValue(init) * 10 + DigitValue(last);
      assert n / 10 == DigitsValue(init) && n % 10 == DigitValue(last);
      assert DigitChar(DigitValue(last)) == last;
      DigitsValuePad(init);
      assert s == init + [last];
    }
  }

  lemma {:induction false} ZerosValue(s: string)
    requires AllZeros(s)
    ensures AllDigits(s) && DigitsValue(s) == 0
  {
    if s != [] {
      ZerosValue(s[..|s| - 1]);
    }
  }

  /** Index of the first `c` in `s`, or `|s|` when there is none. */
  function IndexOf(s: string, c: char): (r: nat)
    ensures r <= |s|
    ensures r < |s| ==> s[r] == c
    ensures forall k :: 0 <= k < r ==> s[k] != c
  {
    if s == [] then 0
    else if s[0] == c then 0
    else 1 + IndexOf(s[1..], c)
  }

  /** The first index at or after `i` that does not hold a `\s` character. */
  function SkipSpaces(s: string, i: nat): (j: nat)
    requires i <= |s|
    ensures i <= j <= |s|
    ensures AllSpaces(s[i..j])
    ensures j < |s| ==> !IsSpace(s[j])
    decreases |s| - i
  {
    if i == |s| || !IsSpace(s[i]) then i else SkipSpaces(s, i + 1)
  }

  /** The first index at or after `i` that does not hold a digit. */
  function SkipDigits(s: string, i: nat): (j: nat)
    requires i <= |s|
    ensures i <= j <= |s|
    ensures AllDigits(s[i..j])
    ensures j < |s| ==> !IsDigit(s[j])
    decreases |s| - i
  {
    if i == |s| || !IsDigit(s[i]) then i else SkipDigits(s, i + 1)
  }

  /** SkipDigits stops at the first non-digit. */
  lemma {:induction false} SkipDigitsTo(s: string, i: nat, j: nat)
    requires i <= j <= |s| && AllDigits(s[i..j]) && (j < |s| ==> !IsDigit(s[j]))
    ensures SkipDigits(s, i) == j
    decreases j - i
  {
    if i < j {
      assert s[i] == s[i..j][0];
      assert s[i + 1..j] == s[i..j][1..];
      SkipDigitsTo(s, i + 1, j);
    }
  }

  /** A fixed-shape pattern: each slot `#` stands for `\d`, `±` for `[+-]`,
      and every other slot for itself. */
  predicate FitsSlot(slot: char, c: char) {
    if slot == '#' then IsDigit(c) else if slot == '±' then IsSign(c) else c == slot
  }

  predicate FitsShape(s: string, shape: string) {
    |s| == |shape| && forall i :: 0 <= i < |s| ==> FitsSlot(shape[i], s[i])
  }

  lemma FitsShapeConcat(a: string, sa: string, b: string, sb: string)
    requires FitsShape(a, sa) && FitsShape(b, sb)
    ensures FitsShape(a + b, sa + sb)
  {
    forall i | 0 <= i < |a| + |b| ensures FitsSlot((sa + sb)[i], (a + b)[i]) {
      if i >= |a| {
        assert (sa + sb)[i] == sb[i - |a|] && (a + b)[i] == b[i - |a|];
      }
    }
  }

  lemma DigitsFitShape(t: string, shape: string)
    requires AllDigits(t) && |t| == |shape|
    requires forall i :: 0 <= i < |shape| ==> shape[i] == '#'
    ensures FitsShape(t, shape)
  {
  }
}
