/**
 * The few JavaScript runtime behaviours the attendance backend leans on:
 * `Number(...)` parsing of decimal text, `String(...)` of a number, number
 * arithmetic and comparison in which NaN poisons every result, ASCII
 * `toLowerCase`, `trim`, `split` on one separator character and `startsWith`.
 */
module Js {

  datatype Option<+T> = None | Some(value: T)

  /** A JavaScript number restricted to integers, plus NaN. */
  datatype Number = Finite(value: int) | NaN

  function Add(a: Number, b: Number): Number {
    if a.Finite? && b.Finite? then Finite(a.value + b.value) else NaN
  }

  function Sub(a: Number, b: Number): Number {
    if a.Finite? && b.Finite? then Finite(a.value - b.value) else NaN
  }

  function Mul(a: Number, b: Number): Number {
    if a.Finite? && b.Finite? then Finite(a.value * b.value) else NaN
  }

  /** `a < b`: false as soon as either side is NaN. */
  predicate Less(a: Number, b: Number) {
    a.Finite? && b.Finite? && a.value < b.value
  }

  /** `a <= b`: false as soon as either side is NaN. */
  predicate AtMost(a: Number, b: Number) {
    a.Finite? && b.Finite? && a.value <= b.value
  }

  // ---------------------------------------------------------------------
  // Decimal digits

  predicate IsDigit(c: char) {
    '0' <= c <= '9'
  }

  predicate AllDigits(s: string) {
    forall i :: 0 <= i < |s| ==> IsDigit(s[i])
  }

  function DigitValue(c: char): nat
    requires IsDigit(c)
  {
    c as int - '0' as int
  }

  function DigitChar(d: nat): (c: char)
    requires d < 10
    ensures IsDigit(c) && DigitValue(c) == d
  {
    ('0' as int + d) as char
  }

  /** The value of a string of decimal digits, most significant first. */
  function DigitsValue(s: string): nat
    requires AllDigits(s)
    decreases |s|
  {
    if s == [] then 0 else 10 * DigitsValue(s[..|s| - 1]) + DigitValue(s[|s| - 1])
  }

  /** The shortest decimal text of `n`, as `String(n)` writes it. */
  function NatToDigits(n: nat): (s: string)
    ensures |s| >= 1 && AllDigits(s)
    ensures DigitsValue(s) == n
    decreases n
  {
    if n < 10 then [DigitChar(n)]
    else
      var prefix := NatToDigits(n / 10);
      var s := prefix + [DigitChar(n % 10)];
      assert s[..|s| - 1] == prefix;
      s
  }

  // ---------------------------------------------------------------------
  // Number(text) and String(number)

  /**
   * `Number(s)` for the texts this model distinguishes: the empty text is 0,
   * an optional sign followed by at least one digit is that integer, and
   * every other text is NaN.
   */
  function ParseNumber(s: string): (x: Number)
    ensures s == [] ==> x == Finite(0)
    ensures |s| >= 1 && AllDigits(s) ==> x == Finite(DigitsValue(s))
    ensures |s| >= 2 && s[0] == '-' && AllDigits(s[1..]) ==> x == Finite(-(DigitsValue(s[1..]) as int))
    ensures x.NaN? <==> s != [] && !AllDigits(s)
                        && !(|s| >= 2 && (s[0] == '-' || s[0] == '+') && AllDigits(s[1..]))
  {
    if s == [] then Finite(0)
    else if AllDigits(s) then Finite(DigitsValue(s))
    else if |s| >= 2 && s[0] == '-' && AllDigits(s[1..]) then Finite(-(DigitsValue(s[1..]) as int))
    else if |s| >= 2 && s[0] == '+' && AllDigits(s[1..]) then Finite(DigitsValue(s[1..]))
    else NaN
  }

  /** `String(x)`: decimal text with a leading minus for negatives, "NaN" for NaN. */
  function NumberToString(x: Number): string {
    match x
    case NaN => "NaN"
    case Finite(n) => if n < 0 then "-" + NatToDigits(-n) else NatToDigits(n)
  }

  /** Every number the model writes as text reads back as the same number. */
  lemma NumberRoundTrip(x: Number)
    ensures ParseNumber(NumberToString(x)) == x
  {
    match x
    case NaN =>
      assert !IsDigit(NumberToString(x)[0]);
    case Finite(n) =>
      if n < 0 {
        var s := NumberToString(x);
        assert s[1..] == NatToDigits(-n);
        assert !IsDigit(s[0]);
      }
  }

  // ---------------------------------------------------------------------
  // Arrays

  /** `items.some(p)`: whether some item satisfies `p`, scanning from the front. */
  function AnyOf<T>(p: T -> bool, items: seq<T>): (r: bool)
    ensures r <==> exists i :: 0 <= i < |items| && p(items[i])
    decreases |items|
  {
    if items == [] then false
    else
      assert forall i :: 1 <= i < |items| ==> items[i] == items[1..][i - 1];
      p(items[0]) || AnyOf(p, items[1..])
  }

  // ---------------------------------------------------------------------
  // Text

  function LowerChar(c: char): char {
    if 'A' <= c <= 'Z' then (c as int + 32) as char else c
  }

  /** No character of `s` is an ASCII capital letter. */
  predicate NoCapitals(s: string) {
    forall i :: 0 <= i < |s| ==> !('A' <= s[i] <= 'Z')
  }

  /** `s.toLowerCase()` on ASCII letters; every other character is kept. */
  function Lower(s: string): (r: string)
    ensures |r| == |s|
    ensures forall i :: 0 <= i < |s| ==> r[i] == LowerChar(s[i])
    ensures NoCapitals(r)
  {
    seq(|s|, i requires 0 <= i < |s| => LowerChar(s[i]))
  }

  /** The characters `String.prototype.trim` removes (white space and line terminators). */
  predicate IsJsSpace(c: char) {
    c == ' ' || c == '\t' || c == '\n' || c == '\r' || c == '\U{000B}' || c == '\U{000C}'
    || c == '\U{00A0}' || c == '\U{1680}' || ('\U{2000}' <= c <= '\U{200A}')
    || c == '\U{2028}' || c == '\U{2029}' || c == '\U{202F}' || c == '\U{205F}'
    || c == '\U{3000}' || c == '\U{FEFF}'
  }

  function TrimStart(s: string): (r: string)
    ensures r == [] || !IsJsSpace(r[0])
    ensures |r| <= |s| && r == s[|s| - |r|..]
    ensures forall i :: 0 <= i < |s| - |r| ==> IsJsSpace(s[i])
    decreases |s|
  {
    if s != [] && IsJsSpace(s[0]) then TrimStart(s[1..]) else s
  }

  function TrimEnd(s: string): (r: string)
    ensures r == [] || !IsJsSpace(r[|r| - 1])
    ensures |r| <= |s| && r == s[..|r|]
    ensures forall i :: |r| <= i < |s| ==> IsJsSpace(s[i])
    decreases |s|
  {
    if s != [] && IsJsSpace(s[|s| - 1]) then TrimEnd(s[..|s| - 1]) else s
  }

  /** `r` is the slice of `s` at `i`, and every character of `s` around it is white space. */
  predicate TrimmedAt(s: string, r: string, i: nat) {
    && i + |r| <= |s| && r == s[i..i + |r|]
    && (forall j :: 0 <= j < i ==> IsJsSpace(s[j]))
    && (forall j :: i + |r| <= j < |s| ==> IsJsSpace(s[j]))
  }

  /** `s.trim()`: `s` without its leading and trailing white space. */
  function Trim(s: string): (r: string)
    ensures exists i :: TrimmedAt(s, r, i)
    ensures r == [] || (!IsJsSpace(r[0]) && !IsJsSpace(r[|r| - 1]))
    ensures |r| <= |s|
    ensures s == [] || (!IsJsSpace(s[0]) && !IsJsSpace(s[|s| - 1])) ==> r == s
  {
    var t := TrimStart(s);
    var r := TrimEnd(t);
    TrimmedBothEnds(s, t, r);
    r
  }

  /** Cutting white space off the front and then off the back leaves a slice of the original. */
  lemma TrimmedBothEnds(s: string, t: string, r: string)
    requires |t| <= |s| && t == s[|s| - |t|..] && forall j :: 0 <= j < |s| - |t| ==> IsJsSpace(s[j])
    requires |r| <= |t| && r == t[..|r|] && forall j :: |r| <= j < |t| ==> IsJsSpace(t[j])
    ensures TrimmedAt(s, r, |s| - |t|)
  {
    var i := |s| - |t|;
    assert r == s[i..i + |r|];
    assert forall j :: i + |r| <= j < |s| ==> s[j] == t[j - i];
  }

  /** Every character of `w` is white space. */
  predicate AllJsSpace(w: string) {
    forall j :: 0 <= j < |w| ==> IsJsSpace(w[j])
  }

  /** White space put in front of a text is cut off again. */
  lemma {:induction false} TrimStartPadded(w: string, s: string)
    requires AllJsSpace(w)
    ensures TrimStart(w + s) == TrimStart(s)
    decreases |w|
  {
    if w == [] {
      assert w + s == s;
    } else {
      assert (w + s)[0] == w[0];
      assert (w + s)[1..] == w[1..] + s;
      TrimStartPadded(w[1..], s);
    }
  }

  /** White space put after a text is cut off again. */
  lemma {:induction false} TrimEndPadded(s: string, w: string)
    requires AllJsSpace(w)
    ensures TrimEnd(s + w) == TrimEnd(s)
    decreases |w|
  {
    if w == [] {
      assert s + w == s;
    } else {
      var n := |w| - 1;
      assert (s + w)[|s + w| - 1] == w[n];
      assert (s + w)[..|s + w| - 1] == s + w[..n];
      TrimEndPadded(s, w[..n]);
    }
  }

  /**
   * Cutting the front of a text followed by white space: the white space
   * stays behind the cut text, unless the text was all white space.
   */
  lemma {:induction false} TrimStartKeepsTail(s: string, w: string)
    requires AllJsSpace(w)
    ensures TrimStart(s + w) == TrimStart(s) + w
            || (TrimStart(s) == [] && TrimStart(s + w) == [])
    decreases |s|
  {
    if s == [] {
      assert s + w == w;
    } else if IsJsSpace(s[0]) {
      assert (s + w)[0] == s[0];
      assert (s + w)[1..] == s[1..] + w;
      TrimStartKeepsTail(s[1..], w);
    } else {
      assert (s + w)[0] == s[0];
    }
  }

  /** `trim` ignores white space added around a text. */
  lemma TrimPadded(a: string, m: string, b: string)
    requires AllJsSpace(a) && AllJsSpace(b)
    ensures Trim(a + m + b) == Trim(m)
  {
    assert a + m + b == a + (m + b);
    TrimStartPadded(a, m + b);
    TrimStartKeepsTail(m, b);
    if TrimStart(m + b) == TrimStart(m) + b {
      TrimEndPadded(TrimStart(m), b);
    }
  }

  /** `s.startsWith(p)`: the first `|p|` characters of `s` are `p`. */
  predicate StartsWith(s: string, p: string): (b: bool)
    ensures b <==> |p| <= |s| && s[..|p|] == p
  {
    p <= s
  }

  /** Position of the first `sep` in `s`. */
  function IndexOf(s: string, sep: char): (i: nat)
    requires sep in s
    ensures i < |s| && s[i] == sep && sep !in s[..i]
  {
    if s[0] == sep then 0
    else
      var j := IndexOf(s[1..], sep);
      assert s[1..][..j] == s[1..j + 1];
      1 + j
  }

  /**
   * `s.split(sep)` for a one-character separator: the pieces between
   * separators, in order; there is always at least one piece.
   */
  function Split(s: string, sep: char): (pieces: seq<string>)
    ensures |pieces| >= 1
    ensures sep !in pieces[0] && pieces[0] <= s
    ensures |pieces| == 1 <==> sep !in s
    ensures sep !in s ==> pieces == [s]
    decreases |s|
  {
    if sep !in s then [s]
    else
      var i := IndexOf(s, sep);
      [s[..i]] + Split(s[i + 1..], sep)
  }

  /** Splitting text that starts with a piece free of `sep` yields that piece first. */
  lemma SplitFirst(a: string, rest: string, sep: char)
    requires sep !in a
    ensures Split(a + [sep] + rest, sep) == [a] + Split(rest, sep)
  {
    var s := a + [sep] + rest;
    assert s[|a|] == sep;
    assert s[..|a|] == a;
    var i := IndexOf(s, sep);
    assert s[..i] == a;
    assert s[i + 1..] == rest;
  }

  /** Splitting `a + sep + b`, when neither part holds `sep`, gives back the two parts. */
  lemma SplitTwo(a: string, b: string, sep: char)
    requires sep !in a && sep !in b
    ensures Split(a + [sep] + b, sep) == [a, b]
  {
    var s := a + [sep] + b;
    assert s[|a|] == sep;
    assert s[..|a|] == a;
    var i := IndexOf(s, sep);
    assert s[..i] == a;
    assert s[i + 1..] == b;
  }
}
