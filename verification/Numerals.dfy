/** Decimal text of the numbers that formatFileSize prints.

    formatFileSize renders `parseFloat(x.toFixed(2))` through a template
    string. For a value that is a whole number of hundredths this is the
    shortest decimal numeral of the value: the whole part, and, when the
    fraction is not zero, a point followed by one or two fraction digits
    with the trailing zero removed. Values are kept here as a natural count
    of hundredths, so the text is computed exactly.
 */
module Numerals {

  datatype Option<T> = None | Some(value: T)

  /** Position of the first occurrence of x in s, or |s| when x does not occur. */
  function Find<T(==)>(s: seq<T>, x: T): (k: nat)
    ensures k <= |s|
    ensures k < |s| ==> s[k] == x
    ensures forall j :: 0 <= j < k ==> s[j] != x
  {
    if s == [] then 0
    else if s[0] == x then 0
    else 1 + Find(s[1..], x)
  }

  /** The first occurrence of x sits right after a prefix that does not contain it. */
  lemma FindAfter<T>(a: seq<T>, x: T, b: seq<T>)
    requires forall j :: 0 <= j < |a| ==> a[j] != x
    ensures Find(a + [x] + b, x) == |a|
  {
    var s := a + [x] + b;
    assert s[|a|] == x;
    assert forall j :: 0 <= j < |a| ==> s[j] == a[j];
  }

  /** A sequence that does not contain x has no occurrence to find. */
  lemma FindAbsent<T>(a: seq<T>, x: T)
    requires forall j :: 0 <= j < |a| ==> a[j] != x
    ensures Find(a, x) == |a|
  {
  }

  predicate IsDigit(c: char) {
    '0' <= c <= '9'
  }

  predicate AllDigits(s: string) {
    forall k :: 0 <= k < |s| ==> IsDigit(s[k])
  }

  /** A numeral without superfluous leading zeros: "0", or a leading digit other than '0'. */
  predicate Canonical(s: string) {
    |s| >= 1 && AllDigits(s) && (|s| == 1 || s[0] != '0')
  }

  function DigitValue(c: char): (d: nat)
    requires IsDigit(c)
    ensures d < 10
  {
    (c as int) - ('0' as int)
  }

  function DigitChar(d: nat): (c: char)
    requires d < 10
    ensures IsDigit(c) && DigitValue(c) == d
  {
    (('0' as int) + d) as char
  }

  lemma DigitCharOfValue(c: char)
    requires IsDigit(c)
    ensures DigitChar(DigitValue(c)) == c
  {
  }

  /** The decimal numeral of n, most significant digit first. */
  function NatToString(n: nat): (s: string)
    ensures Canonical(s)
    ensures s[0] == '0' <==> n == 0
    decreases n
  {
    if n < 10 then [DigitChar(n)]
    else NatToString(n / 10) + [DigitChar(n % 10)]
  }

  /** The value of a string of decimal digits; the empty string reads as 0. */
  function ParseNat(s: string): (n: nat)
    requires AllDigits(s)
  {
    if s == [] then 0
    else 10 * ParseNat(s[..|s| - 1]) + DigitValue(s[|s| - 1])
  }

  /** Reading back the numeral of n gives n. */
  lemma {:induction false} ParseNatOfNatToString(n: nat)
    ensures ParseNat(NatToString(n)) == n
    decreases n
  {
    var s := NatToString(n);
    if n >= 10 {
      var w := NatToString(n / 10);
      assert s[..|s| - 1] == w;
      ParseNatOfNatToString(n / 10);
    }
  }

  /** A numeral whose leading digit is not '0' denotes a positive number. */
  lemma {:induction false} ParseNatPositive(s: string)
    requires |s| >= 1 && AllDigits(s) && s[0] != '0'
    ensures ParseNat(s) >= 1
    decreases |s|
  {
    if |s| > 1 {
      var w := s[..|s| - 1];
      assert w[0] == s[0];
      ParseNatPositive(w);
    }
  }

  /** Every canonical numeral is the numeral of its own value, so NatToString
      produces exactly the canonical numerals. */
  lemma {:induction false} NatToStringOfParseNat(s: string)
    requires Canonical(s)
    ensures NatToString(ParseNat(s)) == s
    decreases |s|
  {
    var last := s[|s| - 1];
    if |s| == 1 {
      DigitCharOfValue(last);
      assert NatToString(ParseNat(s)) == [last];
    } else {
      var w := s[..|s| - 1];
      assert w[0] == s[0];
      ParseNatPositive(w);
      NatToStringOfParseNat(w);
      DigitCharOfValue(last);
      var n := ParseNat(s);
      assert n / 10 == ParseNat(w) && n % 10 == DigitValue(last);
      assert s == w + [last];
    }
  }

  /** The text of h hundredths: whole part, then "." and the fraction digits
      with a trailing zero dropped; no point when the fraction is zero. */
  function HundredthsToString(h: nat): (s: string)
  {
    var whole := NatToString(h / 100);
    var frac := h % 100;
    if frac == 0 then whole
    else if frac % 10 == 0 then whole + "." + [DigitChar(frac / 10)]
    else whole + "." + [DigitChar(frac / 10), DigitChar(frac % 10)]
  }

  /** A whole number n of units, as hundredths, prints as the numeral of n. */
  lemma WholeText(n: nat)
    ensures HundredthsToString(100 * n) == NatToString(n)
  {
    assert (100 * n) / 100 == n && (100 * n) % 100 == 0;
  }

  /** n and a half, as hundredths, print as n followed by ".5". */
  lemma HalfText(n: nat)
    ensures HundredthsToString(100 * n + 50) == NatToString(n) + ".5"
  {
    assert (100 * n + 50) / 100 == n && (100 * n + 50) % 100 == 50;
    assert DigitChar(5) == '5';
  }

  lemma NatToString1024()
    ensures NatToString(1024) == "1024"
  {
    assert NatToString(10) == "10";
    assert NatToString(102) == "102";
  }

  /** Reads a numeral "W", "W.d" or "W.dd" (W a non-empty digit string) as a
      count of hundredths; any other text has no value. */
  function ParseHundredths(s: string): (r: Option<nat>)
  {
    var k := Find(s, '.');
    var whole := s[..k];
    if whole == [] || !AllDigits(whole) then None
    else if k == |s| then Some(100 * ParseNat(whole))
    else
      var frac := s[k + 1..];
      if |frac| == 1 && IsDigit(frac[0]) then
        Some(100 * ParseNat(whole) + 10 * DigitValue(frac[0]))
      else if |frac| == 2 && IsDigit(frac[0]) && IsDigit(frac[1]) then
        Some(100 * ParseNat(whole) + 10 * DigitValue(frac[0]) + DigitValue(frac[1]))
      else None
  }

  /** The text of h is made of digits and at most one point (only digits
      follow the first one), never contains a space, shows a point exactly
      when h is not a whole number, has no trailing zero after the point,
      and everything before the point (all of it when there is none) is the
      canonical numeral of the whole part. */
  lemma HundredthsToStringShape(h: nat)
    ensures var s := HundredthsToString(h);
      && |s| >= 1
      && (forall j :: 0 <= j < |s| ==> IsDigit(s[j]) || s[j] == '.')
      && (Find(s, '.') < |s| <==> h % 100 != 0)
      && (forall j :: Find(s, '.') < j < |s| ==> IsDigit(s[j]))
      && (h % 100 != 0 ==> s[|s| - 1] != '0')
      && s[..Find(s, '.')] == NatToString(h / 100)
  {
    var s := HundredthsToString(h);
    var whole := NatToString(h / 100);
    var frac := h % 100;
    if frac == 0 {
      FindAbsent(s, '.');
      assert s[..|s|] == s;
    } else if frac % 10 == 0 {
      FindAfter(whole, '.', [DigitChar(frac / 10)]);
      assert s[..|whole|] == whole;
    } else {
      FindAfter(whole, '.', [DigitChar(frac / 10), DigitChar(frac % 10)]);
      assert s[..|whole|] == whole;
    }
  }

  /** Reading back the text of h gives h: the printed number loses nothing. */
  lemma HundredthsRoundTrip(h: nat)
    ensures ParseHundredths(HundredthsToString(h)) == Some(h)
  {
    ParseNatOfNatToString(h / 100);
    if h % 100 == 0 {
      WholeRoundTrip(h);
    } else {
      FractionRoundTrip(h);
    }
  }

  lemma WholeRoundTrip(h: nat)
    requires h % 100 == 0 && ParseNat(NatToString(h / 100)) == h / 100
    ensures ParseHundredths(HundredthsToString(h)) == Some(h)
  {
    var s := HundredthsToString(h);
    assert s == NatToString(h / 100);
    FindAbsent(s, '.');
    assert s[..|s|] == s;
  }

  lemma FractionRoundTrip(h: nat)
    requires h % 100 != 0 && ParseNat(NatToString(h / 100)) == h / 100
    ensures ParseHundredths(HundredthsToString(h)) == Some(h)
  {
    SplitHundredths(h);
    if h % 100 % 10 == 0 {
      OneDigitRoundTrip(h);
    } else {
      TwoDigitRoundTrip(h);
    }
  }

  /** h hundredths are its whole part, its tenths digit and its hundredths digit. */
  lemma SplitHundredths(h: nat)
    ensures h == 100 * (h / 100) + 10 * (h % 100 / 10) + h % 100 % 10
  {
  }

  lemma OneDigitRoundTrip(h: nat)
    requires h % 100 != 0 && h % 100 % 10 == 0
    requires ParseNat(NatToString(h / 100)) == h / 100
    requires h == 100 * (h / 100) + 10 * (h % 100 / 10) + h % 100 % 10
    ensures ParseHundredths(HundredthsToString(h)) == Some(h)
  {
    var q, t := h / 100, h % 100 / 10;
    var text := NatToString(q) + ['.', DigitChar(t)];
    assert HundredthsToString(h) == text by {
      OneDigitText(h);
    }
    assert ParseHundredths(text) == Some(100 * q + 10 * t) by {
      ParseOneDigit(NatToString(q), t);
    }
  }

  lemma TwoDigitRoundTrip(h: nat)
    requires h % 100 % 10 != 0
    requires ParseNat(NatToString(h / 100)) == h / 100
    requires h == 100 * (h / 100) + 10 * (h % 100 / 10) + h % 100 % 10
    ensures ParseHundredths(HundredthsToString(h)) == Some(h)
  {
    var q, t, u := h / 100, h % 100 / 10, h % 100 % 10;
    var text := NatToString(q) + ['.', DigitChar(t), DigitChar(u)];
    assert HundredthsToString(h) == text by {
      TwoDigitText(h);
    }
    assert ParseHundredths(text) == Some(100 * q + 10 * t + u) by {
      ParseTwoDigits(NatToString(q), t, u);
    }
  }

  /** A fraction that is a whole number of tenths prints as one digit after the point. */
  lemma OneDigitText(h: nat)
    requires h % 100 != 0 && h % 100 % 10 == 0
    ensures HundredthsToString(h) == NatToString(h / 100) + ['.', DigitChar(h % 100 / 10)]
  {
  }

  /** Any other fraction prints as two digits after the point. */
  lemma TwoDigitText(h: nat)
    requires h % 100 % 10 != 0
    ensures HundredthsToString(h)
         == NatToString(h / 100) + ['.', DigitChar(h % 100 / 10), DigitChar(h % 100 % 10)]
  {
  }

  /** A numeral, a point and the digit of t read as the whole part plus t tenths. */
  lemma ParseOneDigit(whole: string, t: nat)
    requires Canonical(whole) && t < 10
    ensures ParseHundredths(whole + ['.', DigitChar(t)]) == Some(100 * ParseNat(whole) + 10 * t)
  {
    var tail := [DigitChar(t)];
    var s := whole + ['.', DigitChar(t)];
    assert s == whole + ['.'] + tail;
    FindAfter(whole, '.', tail);
    var k := Find(s, '.');
    assert s[..k] == whole;
    assert s[k + 1..] == tail;
    assert |tail| == 1 && IsDigit(tail[0]) && DigitValue(tail[0]) == t;
  }

  /** A numeral, a point and the digits of t and u read as the whole part plus
      t tenths and u hundredths. */
  lemma ParseTwoDigits(whole: string, t: nat, u: nat)
    requires Canonical(whole) && t < 10 && u < 10
    ensures ParseHundredths(whole + ['.', DigitChar(t), DigitChar(u)])
         == Some(100 * ParseNat(whole) + 10 * t + u)
  {
    var tail := [DigitChar(t), DigitChar(u)];
    var s := whole + ['.', DigitChar(t), DigitChar(u)];
    assert s == whole + ['.'] + tail;
    FindAfter(whole, '.', tail);
    var k := Find(s, '.');
    assert s[..k] == whole;
    assert s[k + 1..] == tail;
    assert |tail| == 2 && IsDigit(tail[0]) && IsDigit(tail[1]);
    assert DigitValue(tail[0]) == t && DigitValue(tail[1]) == u;
  }
}
