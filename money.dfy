/**
 * Money as integer cents, and the Brazilian number format used on the invoice:
 * `.` separates thousands and `,` precedes exactly two fraction digits ("1.234,56").
 */
module Money {

  predicate IsDigit(c: char) { '0' <= c <= '9' }

  function DigitOf(c: char): (d: nat)
    requires IsDigit(c)
    ensures d < 10
  {
    c as int - '0' as int
  }

  function DigitChar(d: nat): (c: char)
    requires d < 10
    ensures IsDigit(c) && DigitOf(c) == d
  {
    ('0' as int + d) as char
  }

  predicate AllDigits(s: string) { forall i :: 0 <= i < |s| ==> IsDigit(s[i]) }

  function Pow10(k: nat): (p: nat)
    ensures p >= 1
  {
    if k == 0 then 1 else 10 * Pow10(k - 1)
  }

  /** The value of a decimal digit string, read left to right; the empty string reads as 0. */
  function DigitsValue(s: string): nat
    requires AllDigits(s)
  {
    if s == [] then 0 else DigitsValue(s[..|s| - 1]) * 10 + DigitOf(s[|s| - 1])
  }

  /** Reading a concatenation shifts the left part by the length of the right part. */
  lemma {:induction false} DigitsValueAppend(a: string, b: string)
    requires AllDigits(a) && AllDigits(b)
    ensures AllDigits(a + b)
    ensures DigitsValue(a + b) == DigitsValue(a) * Pow10(|b|) + DigitsValue(b)
  {
    if b == [] {
      assert a + b == a;
    } else {
      var b' := b[..|b| - 1];
      var d := DigitOf(b[|b| - 1]);
      assert (a + b)[..|a + b| - 1] == a + b';
      assert (a + b)[|a + b| - 1] == b[|b| - 1];
      assert DigitsValue(a + b) == DigitsValue(a + b') * 10 + d;
      assert DigitsValue(b) == DigitsValue(b') * 10 + d;
      DigitsValueAppend(a, b');
      ShiftStep(DigitsValue(a), Pow10(|b'|), DigitsValue(b'), d);
    }
  }

  lemma ShiftStep(x: int, p: int, y: int, d: int)
    ensures (x * p + y) * 10 + d == x * (10 * p) + (y * 10 + d)
  {
  }

  /** The decimal digits of n without leading zeros ("0" for zero). */
  function Digits(n: nat): (s: string)
    ensures |s| >= 1 && AllDigits(s)
    ensures DigitsValue(s) == n
  {
    if n < 10 then [DigitChar(n)]
    else
      var s := Digits(n / 10) + [DigitChar(n % 10)];
      assert s[..|s| - 1] == Digits(n / 10);
      s
  }

  /** The decimal digits of n, left-padded with zeros to exactly `width` characters. */
  function Pad(n: nat, width: nat): (s: string)
    requires n < Pow10(width)
    ensures |s| == width && AllDigits(s)
    ensures DigitsValue(s) == n
  {
    if width == 0 then []
    else
      var s := Pad(n / 10, width - 1) + [DigitChar(n % 10)];
      assert s[..|s| - 1] == Pad(n / 10, width - 1);
      s
  }

  /** A character of the captured integer part, `[\d.]`. */
  predicate IsAmountChar(c: char) { IsDigit(c) || c == '.' }

  /** The shape of the text the invoice scanner captures: `[\d.]+,\d{2}`. */
  predicate IsLocaleAmount(s: string)
  {
    |s| >= 4 &&
    (forall i :: 0 <= i < |s| - 3 ==> IsAmountChar(s[i])) &&
    s[|s| - 3] == ',' && IsDigit(s[|s| - 2]) && IsDigit(s[|s| - 1])
  }

  /** `s.replace(".", "")` */
  function StripDots(s: string): (r: string)
    ensures |r| <= |s|
  {
    if s == [] then [] else (if s[0] == '.' then [] else [s[0]]) + StripDots(s[1..])
  }

  /** What is left of a `[\d.]*` text after the dots are removed is all digits. */
  lemma {:induction false} StripDotsDigits(s: string)
    requires forall i :: 0 <= i < |s| ==> IsAmountChar(s[i])
    ensures AllDigits(StripDots(s))
  {
    if s != [] {
      StripDotsDigits(s[1..]);
    }
  }

  lemma {:induction false} NoDotsUnchanged(s: string)
    requires forall i :: 0 <= i < |s| ==> s[i] != '.'
    ensures StripDots(s) == s
  {
    if s != [] {
      NoDotsUnchanged(s[1..]);
    }
  }

  lemma {:induction false} StripDotsAppend(a: string, b: string)
    ensures StripDots(a + b) == StripDots(a) + StripDots(b)
  {
    if a == [] {
      assert a + b == b;
    } else {
      assert (a + b)[0] == a[0];
      assert (a + b)[1..] == a[1..] + b;
      StripDotsAppend(a[1..], b);
    }
  }

  /** `s.replace(c, d)` for single characters. */
  function ReplaceChar(s: string, c: char, d: char): (r: string)
    ensures |r| == |s|
    ensures forall i :: 0 <= i < |s| ==> r[i] == if s[i] == c then d else s[i]
  {
    if s == [] then [] else [if s[0] == c then d else s[0]] + ReplaceChar(s[1..], c, d)
  }

  /** The form `float` is handed after the two replacements: digits, `.`, two digits. */
  predicate IsPointDecimal(t: string)
  {
    |t| >= 3 && AllDigits(t[..|t| - 3]) && t[|t| - 3] == '.' && IsDigit(t[|t| - 2]) && IsDigit(t[|t| - 1])
  }

  /** The exact value, in cents, of a point decimal with two fraction digits (".56" reads as 0.56). */
  function PointDecimalCents(t: string): nat
    requires IsPointDecimal(t)
  {
    DigitsValue(t[..|t| - 3]) * 100 + DigitOf(t[|t| - 2]) * 10 + DigitOf(t[|t| - 1])
  }

  /** The two replacements applied to a captured amount: drop every `.`, turn the `,` into `.`. */
  function ToPointDecimal(s: string): (t: string)
    requires IsLocaleAmount(s)
    ensures IsPointDecimal(t)
    ensures t == StripDots(s[..|s| - 3]) + "." + s[|s| - 2..]
  {
    ToPointDecimalShape(s);
    ReplaceChar(StripDots(s), ',', '.')
  }

  lemma ToPointDecimalShape(s: string)
    requires IsLocaleAmount(s)
    ensures ReplaceChar(StripDots(s), ',', '.') == StripDots(s[..|s| - 3]) + "." + s[|s| - 2..]
    ensures IsPointDecimal(StripDots(s[..|s| - 3]) + "." + s[|s| - 2..])
  {
    var w := StripDots(s[..|s| - 3]);
    StripDotsDigits(s[..|s| - 3]);
    StripAmount(s);
    ReplaceCommaAfterDigits(w, s[|s| - 3..]);
    var t := w + "." + s[|s| - 2..];
    assert t[..|t| - 3] == w;
  }

  /** Removing the dots of a captured amount touches only its integer part. */
  lemma StripAmount(s: string)
    requires IsLocaleAmount(s)
    ensures StripDots(s) == StripDots(s[..|s| - 3]) + s[|s| - 3..]
  {
    assert s == s[..|s| - 3] + s[|s| - 3..];
    StripDotsAppend(s[..|s| - 3], s[|s| - 3..]);
    NoDotsUnchanged(s[|s| - 3..]);
  }

  /** Behind a run of digits, the only comma is the one that becomes the decimal point. */
  lemma ReplaceCommaAfterDigits(w: string, tail: string)
    requires AllDigits(w) && |tail| == 3 && tail[0] == ',' && IsDigit(tail[1]) && IsDigit(tail[2])
    ensures ReplaceChar(w + tail, ',', '.') == w + "." + tail[1..]
  {
    ReplaceCharAppend(w, tail, ',', '.');
    var rw, rt := ReplaceChar(w, ',', '.'), ReplaceChar(tail, ',', '.');
    assert forall i :: 0 <= i < |w| ==> rw[i] == w[i];
    assert rw == w;
    assert rt[0] == '.' && rt[1] == tail[1] && rt[2] == tail[2];
    assert rt == "." + tail[1..];
  }

  lemma {:induction false} ReplaceCharAppend(a: string, b: string, c: char, d: char)
    ensures ReplaceChar(a + b, c, d) == ReplaceChar(a, c, d) + ReplaceChar(b, c, d)
  {
    var l, r := ReplaceChar(a + b, c, d), ReplaceChar(a, c, d) + ReplaceChar(b, c, d);
    assert |l| == |r|;
    forall i | 0 <= i < |l| ensures l[i] == r[i] {
      if i < |a| {
        assert (a + b)[i] == a[i];
      } else {
        assert (a + b)[i] == b[i - |a|];
      }
    }
  }

  /**
   * Parse a captured amount into cents, as `float(s.replace(".", "").replace(",", "."))`
   * but exactly.
   */
  function ParseLocale(s: string): (cents: nat)
    requires IsLocaleAmount(s)
    ensures AllDigits(StripDots(s[..|s| - 3]))
    ensures cents == DigitsValue(StripDots(s[..|s| - 3])) * 100 + DigitOf(s[|s| - 2]) * 10 + DigitOf(s[|s| - 1])
  {
    var t := ToPointDecimal(s);
    assert t[..|t| - 3] == StripDots(s[..|s| - 3]);
    PointDecimalCents(t)
  }

  /** The integer part with a `.` before every group of three digits ("1.234.567"). */
  function Grouped(n: nat): (s: string)
    ensures |s| >= 1
    ensures forall i :: 0 <= i < |s| ==> IsAmountChar(s[i])
  {
    if n < 1000 then Digits(n) else Grouped(n / 1000) + "." + Pad(n % 1000, 3)
  }

  /** Format cents in the invoice's own notation, "d.ddd,dd". */
  function FormatLocale(cents: nat): (s: string)
    ensures IsLocaleAmount(s)
    ensures s[..|s| - 3] == Grouped(cents / 100)
  {
    var s := Grouped(cents / 100) + "," + Pad(cents % 100, 2);
    assert s[..|s| - 3] == Grouped(cents / 100);
    s
  }

  /** Removing the thousands separators of a grouped integer gives back its digits' value. */
  lemma {:induction false} GroupedValue(n: nat)
    ensures AllDigits(StripDots(Grouped(n)))
    ensures DigitsValue(StripDots(Grouped(n))) == n
  {
    if n < 1000 {
      NoDotsUnchanged(Digits(n));
    } else {
      var hi, lo := Grouped(n / 1000), Pad(n % 1000, 3);
      GroupedValue(n / 1000);
      var sh := StripDots(hi);
      assert Grouped(n) == hi + (['.'] + lo);
      StripDotsAppend(hi, ['.'] + lo);
      NoDotsUnchanged(lo);
      assert StripDots(['.'] + lo) == lo by {
        assert (['.'] + lo)[1..] == lo;
      }
      assert StripDots(Grouped(n)) == sh + lo;
      DigitsValueAppend(sh, lo);
      assert Pow10(3) == 1000;
      assert DigitsValue(sh + lo) == (n / 1000) * 1000 + n % 1000;
    }
  }

  /** Formatting a value and parsing it back gives the same value. */
  lemma FormatParseRoundTrip(cents: nat)
    ensures ParseLocale(FormatLocale(cents)) == cents
  {
    var s := FormatLocale(cents);
    GroupedValue(cents / 100);
    assert s[|s| - 2..] == Pad(cents % 100, 2);
    var p := Pad(cents % 100, 2);
    assert DigitsValue(p) == DigitsValue(p[..1]) * 10 + DigitOf(p[1]);
    assert DigitsValue(p[..1]) == DigitOf(p[0]);
  }

  /** Parsing is stable under re-formatting: parse(format(parse(s))) == parse(s). */
  lemma ParseFormatParse(s: string)
    requires IsLocaleAmount(s)
    ensures ParseLocale(FormatLocale(ParseLocale(s))) == ParseLocale(s)
  {
    FormatParseRoundTrip(ParseLocale(s));
  }

  /** A `.` anywhere in the integer part is ignored by the parser. */
  lemma DotsIgnored(s: string, k: nat)
    requires IsLocaleAmount(s) && k <= |s| - 3
    ensures IsLocaleAmount(s[..k] + "." + s[k..])
    ensures ParseLocale(s[..k] + "." + s[k..]) == ParseLocale(s)
  {
    var s' := s[..k] + "." + s[k..];
    var a, b := s[..k], s[k..|s| - 3];
    assert s'[..|s'| - 3] == a + ("." + b);
    assert s[..|s| - 3] == a + b;
    StripDotsAppend(a, "." + b);
    StripDotsAppend(".", b);
    StripDotsAppend(a, b);
    assert StripDots(".") == [];
    assert StripDots(s'[..|s'| - 3]) == StripDots(s[..|s| - 3]);
    assert s'[|s'| - 2] == s[|s| - 2] && s'[|s'| - 1] == s[|s| - 1];
  }
}
