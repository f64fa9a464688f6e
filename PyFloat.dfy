/** Python's `float(text)` restricted to plain decimal notation, with the
    result as an exact `real`: surrounding whitespace, an optional sign,
    digits with an optional fractional part after one '.', at least one
    digit in all. Anything else is the `ValueError` path, here `None`. */
module PyFloat {
  import opened Wrappers
  import opened PyStr

  predicate IsDigit(c: char) {
    '0' <= c <= '9'
  }

  predicate AllDigits(s: string) {
    forall i :: 0 <= i < |s| ==> IsDigit(s[i])
  }

  function DigitValue(c: char): (d: nat)
    requires IsDigit(c)
    ensures d < 10
  {
    c as int - '0' as int
  }

  function DigitChar(d: nat): (c: char)
    requires d < 10
    ensures IsDigit(c) && DigitValue(c) == d
  {
    ('0' as int + d) as char
  }

  function Pow10(k: nat): (p: nat)
    ensures p >= 1
  {
    if k == 0 then 1 else 10 * Pow10(k - 1)
  }

  /** The number a run of decimal digits denotes, most significant first. */
  function DigitsValue(s: string): nat
    requires AllDigits(s)
  {
    if s == [] then 0 else 10 * DigitsValue(s[..|s| - 1]) + DigitValue(s[|s| - 1])
  }

  /** Index of the first '.', or |s| when there is none. */
  function IndexOfDot(s: string): (k: nat)
    ensures k <= |s|
    ensures '.' !in s[..k]
    ensures k < |s| ==> s[k] == '.'
  {
    if s == [] || s[0] == '.' then 0
    else
      var k := 1 + IndexOfDot(s[1..]);
      assert s[..k] == [s[0]] + s[1..][..k - 1];
      k
  }

  /** An unsigned decimal: `digits`, `digits.`, `.digits` or `digits.digits`. */
  function ParseUnsigned(u: string): Option<real> {
    var k := IndexOfDot(u);
    if k < |u| then ParsePointed(u[..k], u[k + 1..]) else ParsePointed(u, [])
  }

  /** The digits before and after the point, either side possibly empty. */
  function ParsePointed(whole: string, frac: string): Option<real> {
    if AllDigits(whole) && AllDigits(frac) && (whole != [] || frac != []) then
      Some(DigitsValue(whole) as real + DigitsValue(frac) as real / Pow10(|frac|) as real)
    else
      None
  }

  /** A stripped decimal with an optional leading sign. */
  function ParseSigned(t: string): Option<real> {
    if t != [] && t[0] == '-' then
      match ParseUnsigned(t[1..])
      case Some(x) => Some(-x)
      case None => None
    else if t != [] && t[0] == '+' then ParseUnsigned(t[1..])
    else ParseUnsigned(t)
  }

  /** `float(s)`: `Some(x)` when `s` reads as the number `x`, `None` where
      Python raises `ValueError`. */
  function ParseNum(s: string): Option<real> {
    ParseSigned(Strip(s))
  }

  /** Blank text (nothing, or only whitespace) is not a number. */
  lemma ParseNumBlank(s: string)
    requires AllSpace(s)
    ensures ParseNum(s) == None
  {
    TrimLeftAllSpace(s);
  }

  /** Whitespace around the number makes no difference to `float`. */
  lemma ParseNumPadded(pad1: string, s: string, pad2: string)
    requires AllSpace(pad1) && AllSpace(pad2)
    ensures ParseNum(pad1 + s + pad2) == ParseNum(s)
  {
    StripPadded(pad1, s, pad2);
  }

  // ---------------------------------------------------------------------
  // Decimal formatting, the inverse direction
  // ---------------------------------------------------------------------

  /** The decimal digits of `n`, without leading zeros ("0" for zero). */
  function NatToDigits(n: nat): (s: string)
    ensures s != [] && AllDigits(s)
  {
    if n < 10 then [DigitChar(n)] else NatToDigits(n / 10) + [DigitChar(n % 10)]
  }

  lemma {:induction false} NatToDigitsValue(n: nat)
    ensures DigitsValue(NatToDigits(n)) == n
  {
    if n >= 10 {
      NatToDigitsValue(n / 10);
      var s := NatToDigits(n);
      assert s[..|s| - 1] == NatToDigits(n / 10);
    }
  }

  /** `m / 10` written with exactly one digit after the point. */
  function UnsignedTenths(m: nat): string {
    NatToDigits(m / 10) + ['.'] + [DigitChar(m % 10)]
  }

  /** A reading in tenths of a degree written as "XX.X": `n / 10` with
      exactly one digit after the point, and a '-' when negative. */
  function FormatTenths(n: int): string {
    if n < 0 then "-" + UnsignedTenths(-n) else UnsignedTenths(n)
  }

  /** The unsigned text starts with a digit and ends with one, and holds
      nothing but digits and the point. */
  lemma UnsignedTenthsChars(m: nat)
    ensures var u := UnsignedTenths(m);
            && u != [] && IsDigit(u[0]) && IsDigit(u[|u| - 1])
            && forall i :: 0 <= i < |u| ==> u[i] == '.' || IsDigit(u[i])
  {
    var w := NatToDigits(m / 10);
    var u := UnsignedTenths(m);
    assert forall i :: 0 <= i < |w| ==> u[i] == w[i];
    assert u[0] == w[0];
  }

  /** The text holds only a sign, digits and the point, and starts and ends
      with no whitespace. */
  lemma FormatTenthsChars(n: int)
    ensures var s := FormatTenths(n);
            && s != [] && !IsSpace(s[0]) && !IsSpace(s[|s| - 1])
            && forall i :: 0 <= i < |s| ==> s[i] == '-' || s[i] == '.' || IsDigit(s[i])
  {
    var m := if n < 0 then -n else n;
    UnsignedTenthsChars(m);
    var u := UnsignedTenths(m);
    if n < 0 {
      var s := "-" + u;
      assert forall i :: 1 <= i < |s| ==> s[i] == u[i - 1];
    }
  }

  lemma {:induction false} IndexOfDotAfter(x: string, y: string)
    requires '.' !in x && y != [] && y[0] == '.'
    ensures IndexOfDot(x + y) == |x|
  {
    if x != [] {
      assert (x + y)[1..] == x[1..] + y;
      IndexOfDotAfter(x[1..], y);
    } else {
      assert x + y == y;
    }
  }

  lemma NoDotInDigits(s: string)
    requires AllDigits(s)
    ensures '.' !in s
  {
  }

  /** "W.F" reads as W + F / 10^|F|. */
  lemma ParseUnsignedPoint(whole: string, frac: string)
    requires AllDigits(whole) && AllDigits(frac) && whole != []
    ensures ParseUnsigned(whole + ['.'] + frac) == ParsePointed(whole, frac)
  {
    var u := whole + ['.'] + frac;
    NoDotInDigits(whole);
    assert u == whole + (['.'] + frac);
    IndexOfDotAfter(whole, ['.'] + frac);
    assert u[..|whole|] == whole;
    assert u[|whole| + 1..] == frac;
    assert ParseUnsigned(u) == ParsePointed(whole, frac);
  }

  /** "W.D" reads as W + D/10. */
  lemma ParseUnsignedTenths(q: nat, d: nat)
    requires d < 10
    ensures ParseUnsigned(NatToDigits(q) + ['.'] + [DigitChar(d)]) == Some(q as real + d as real / 10.0)
  {
    var c := DigitChar(d);
    ParseUnsignedPoint(NatToDigits(q), [c]);
    NatToDigitsValue(q);
    assert [c][..0] == [];
    assert DigitsValue([c]) == d;
    assert Pow10(1) == 10;
    assert ParsePointed(NatToDigits(q), [c]) == Some(q as real + d as real / 10 as real);
  }

  /** The unsigned text reads back as `m / 10`. */
  lemma UnsignedTenthsParses(m: nat)
    ensures ParseUnsigned(UnsignedTenths(m)) == Some(m as real / 10.0)
  {
    ParseUnsignedTenths(m / 10, m % 10);
    assert (m / 10) as real + (m % 10) as real / 10.0 == m as real / 10.0;
  }

  /** `float` reads back what `FormatTenths` writes. */
  lemma FormatTenthsParses(n: int)
    ensures ParseNum(FormatTenths(n)) == Some(n as real / 10.0)
  {
    var m := if n < 0 then -n else n;
    var s, u := FormatTenths(n), UnsignedTenths(m);
    FormatTenthsChars(n);
    StripUnpadded(s);
    UnsignedTenthsParses(m);
    UnsignedTenthsChars(m);
    if n < 0 {
      assert s[1..] == u;
    } else {
      assert s[0] == u[0];
    }
  }

  /** A run of digits without a point reads as its value. */
  lemma ParseUnsignedDigits(s: string)
    requires s != [] && AllDigits(s)
    ensures ParseUnsigned(s) == Some(DigitsValue(s) as real)
  {
    NoDotInDigits(s);
    assert IndexOfDot(s) == |s|;
  }

  /** `float` reads back an integer written in decimal. */
  lemma NatToDigitsParses(n: nat)
    ensures ParseNum(NatToDigits(n)) == Some(n as real)
  {
    var s := NatToDigits(n);
    assert IsDigit(s[0]) && IsDigit(s[|s| - 1]);
    StripUnpadded(s);
    ParseUnsignedDigits(s);
    NatToDigitsValue(n);
  }
}
