// Decimal numerals: `str(n)`, `int(s)` on digit strings, zero padding
// (`f"{n:06d}"`), a subset of Python's `float(s)` and `"%.2f"` formatting.
// Numbers are exact decimals here; binary floating point is not modelled.
module Numerals {
  import opened Text
  import opened Wrappers
  import opened Split

  function DigitChar(d: nat): (c: char)
    requires d < 10
    ensures IsDigit(c)
  {
    ('0' as int + d) as char
  }

  function DigitValue(c: char): (d: nat)
    requires IsDigit(c)
    ensures d < 10 && DigitChar(d) == c
  {
    c as int - '0' as int
  }

  predicate AllDigits(s: string) { forall i :: 0 <= i < |s| ==> IsDigit(s[i]) }

  function Pow10(n: nat): (r: nat)
    ensures r >= 1
  {
    if n == 0 then 1 else 10 * Pow10(n - 1)
  }

  /** `str(n)` for a natural number: its decimal digits without leading zeros. */
  function NatToString(n: nat): (r: string)
    ensures |r| >= 1 && AllDigits(r)
    decreases n
  {
    if n < 10 then [DigitChar(n)] else NatToString(n / 10) + [DigitChar(n % 10)]
  }

  /** `int(s)` for a string of digits (leading zeros allowed, "" reads as 0). */
  function DigitsToNat(s: string): nat
    requires AllDigits(s)
  {
    if s == [] then 0 else DigitsToNat(s[..|s| - 1]) * 10 + DigitValue(s[|s| - 1])
  }

  function Zeros(k: nat): (r: string)
    ensures |r| == k && AllDigits(r)
  {
    seq(k, i => '0')
  }

  /** Zero padding to at least `w` digits: `f"{n:0<w>d}"` and `String(n).padStart(w, "0")`. */
  function ZeroPad(n: nat, w: nat): string
  {
    var s := NatToString(n);
    if |s| >= w then s else Zeros(w - |s|) + s
  }

  // ---------------------------------------------------------------------
  // Reading back what was written

  lemma {:induction false} DigitsAppend(a: string, b: string)
    requires AllDigits(a) && AllDigits(b)
    ensures AllDigits(a + b)
    ensures DigitsToNat(a + b) == DigitsToNat(a) * Pow10(|b|) + DigitsToNat(b)
    decreases |b|
  {
    if b == [] {
      assert a + b == a;
    } else {
      var b' := b[..|b| - 1];
      assert (a + b)[..|a + b| - 1] == a + b';
      DigitsAppend(a, b');
      ShiftDigit(DigitsToNat(a), Pow10(|b'|), DigitsToNat(b'), DigitValue(b[|b| - 1]));
    }
  }

  lemma ShiftDigit(x: nat, p: nat, y: nat, d: nat)
    ensures (x * p + y) * 10 + d == x * (10 * p) + (y * 10 + d)
  {
  }

  /** Dividing a natural number by a positive one. */
  lemma DivisionBounds(m: nat, u: nat)
    requires u >= 1
    ensures 0 <= m / u <= m && 0 <= m % u < u
  {
  }

  lemma MulAtLeast(b: nat, k: nat)
    requires k >= 1
    ensures b * k >= b
  {
    var j: nat := k - 1;
    assert b * k == b + b * j;
  }

  /** The quotient and remainder of a division are the only ones. */
  lemma DivisionOf(a: nat, b: nat, q: nat, r: nat)
    requires b >= 1 && r < b && a == b * q + r
    ensures a / b == q && a % b == r
  {
    var q', r' := a / b, a % b;
    assert a == b * q' + r' && 0 <= r' < b;
    if q > q' {
      assert b * (q - q') == b * q - b * q';
      MulAtLeast(b, q - q');
    } else if q < q' {
      assert b * (q' - q) == b * q' - b * q;
      MulAtLeast(b, q' - q);
    }
  }

  lemma {:induction false} ZerosValue(k: nat)
    ensures DigitsToNat(Zeros(k)) == 0
  {
    if k > 0 {
      assert Zeros(k)[..k - 1] == Zeros(k - 1);
      ZerosValue(k - 1);
    }
  }

  /** Reading `str(n)` back gives `n`. */
  lemma {:induction false} NatToStringRoundTrip(n: nat)
    ensures DigitsToNat(NatToString(n)) == n
    decreases n
  {
    if n >= 10 {
      var s := NatToString(n);
      assert s[..|s| - 1] == NatToString(n / 10);
      NatToStringRoundTrip(n / 10);
    }
  }

  /** `str(n)` has no leading zero. */
  lemma {:induction false} NatToStringNoLeadingZero(n: nat)
    ensures NatToString(n)[0] == '0' ==> n == 0
    decreases n
  {
    if n >= 10 {
      NatToStringNoLeadingZero(n / 10);
    }
  }

  /** A number below 10^k has at most k digits. */
  lemma {:induction false} NatToStringFits(n: nat, k: nat)
    requires 1 <= k && n < Pow10(k)
    ensures |NatToString(n)| <= k
    decreases n
  {
    if n >= 10 {
      assert k >= 2;
      assert n / 10 < Pow10(k - 1);
      NatToStringFits(n / 10, k - 1);
    }
  }

  /** Zero padding keeps the value, reaches the width, and is exactly the width
      while the number fits. */
  lemma ZeroPadValue(n: nat, w: nat)
    ensures AllDigits(ZeroPad(n, w))
    ensures DigitsToNat(ZeroPad(n, w)) == n
    ensures |ZeroPad(n, w)| >= w
    ensures |NatToString(n)| <= w ==> |ZeroPad(n, w)| == w
  {
    var s := NatToString(n);
    NatToStringRoundTrip(n);
    if |s| < w {
      DigitsAppend(Zeros(w - |s|), s);
      ZerosValue(w - |s|);
    }
  }

  /** Different numbers never get the same padded code. */
  lemma ZeroPadInjective(n: nat, m: nat, w: nat)
    requires ZeroPad(n, w) == ZeroPad(m, w)
    ensures n == m
  {
    ZeroPadValue(n, w);
    ZeroPadValue(m, w);
  }

  // ---------------------------------------------------------------------
  // Decimal numbers

  /** The exact value (-1)^negative * mantissa / 10^scale. */
  datatype Decimal = Decimal(negative: bool, mantissa: nat, scale: nat)
  {
    predicate IsZero() { mantissa == 0 }
  }

  /** Digits with at most one '.', and at least one digit in all. */
  function ParseUnsigned(s: string): (r: Option<Decimal>)
    ensures r.Some? ==> !r.value.negative
  {
    var parts := SplitOn(s, ".");
    if |parts| == 1 && |parts[0]| > 0 && AllDigits(parts[0]) then
      Some(Decimal(false, DigitsToNat(parts[0]), 0))
    else if |parts| == 2 && |parts[0]| + |parts[1]| > 0 && AllDigits(parts[0]) && AllDigits(parts[1]) then
      DigitsAppend(parts[0], parts[1]);
      Some(Decimal(false, DigitsToNat(parts[0] + parts[1]), |parts[1]|))
    else
      None
  }

  /** Digits alone read as a whole number. */
  lemma ParseDigits(s: string)
    requires |s| > 0 && AllDigits(s)
    ensures ParseUnsigned(s) == Some(Decimal(false, DigitsToNat(s), 0))
  {
    assert forall i :: 0 <= i < |s| ==> s[i] != '.';
    NoMatchOfAbsentChar(s, "", '.', |s|);
    assert s + "" == s;
    SplitWhole(s, ".");
  }

  /** Python's `float(s)` on plain decimal text: surrounding whitespace, an optional
      sign, digits with at most one decimal point. */
  function ParseFloat(s: string): Option<Decimal>
  {
    var t := Trim(s);
    if |t| > 0 && (t[0] == '-' || t[0] == '+') then
      match ParseUnsigned(t[1..])
      case None => None
      case Some(d) => Some(d.(negative := t[0] == '-'))
    else
      ParseUnsigned(t)
  }

  /** The magnitude in hundredths, rounded half to even beyond two decimals. */
  function RoundToCents(d: Decimal): nat
  {
    if d.scale <= 2 then d.mantissa * Pow10(2 - d.scale)
    else
      var unit := Pow10(d.scale - 2);
      var q := d.mantissa / unit;
      var r := d.mantissa % unit;
      if 2 * r > unit || (2 * r == unit && q % 2 == 1) then q + 1 else q
  }

  /** A non-negative amount of hundredths written as `"%.2f"` writes it. */
  function FixedTwo(cents: nat): string
  {
    NatToString(cents / 100) + "." + ZeroPad(cents % 100, 2)
  }

  lemma TwoDigitPad(b: nat)
    requires b < 100
    ensures |ZeroPad(b, 2)| == 2 && AllDigits(ZeroPad(b, 2)) && DigitsToNat(ZeroPad(b, 2)) == b
  {
    NatToStringFits(b, 2);
    ZeroPadValue(b, 2);
  }

  /** Digits, a point and digits read as one number with as many decimals as
      there are digits after the point. */
  lemma ParsePointed(s: string, a: string, b: string)
    requires AllDigits(a) && AllDigits(b) && |a| + |b| > 0 && s == a + "." + b
    ensures AllDigits(a + b)
    ensures ParseUnsigned(s) == Some(Decimal(false, DigitsToNat(a + b), |b|))
  {
    assert forall i :: 0 <= i < |a| ==> a[i] != '.';
    assert forall i :: 0 <= i < |b| ==> b[i] != '.';
    SplitJoin([a, b], '.');
    assert Join([a, b], ".") == s;
    assert SplitOn(s, ".") == [a, b];
    DigitsAppend(a, b);
  }

  /** Text that starts and ends with a digit has nothing to trim and no sign. */
  lemma ParseFloatPlain(s: string)
    requires |s| > 0 && IsDigit(s[0]) && IsDigit(s[|s| - 1])
    ensures ParseFloat(s) == ParseUnsigned(s)
  {
    TrimNoop(s);
  }

  /** Text written by `FixedTwo` reads back as the same number of hundredths. */
  lemma FixedTwoParses(cents: nat)
    ensures ParseUnsigned(FixedTwo(cents)) == Some(Decimal(false, cents, 2))
  {
    var a := NatToString(cents / 100);
    var b := ZeroPad(cents % 100, 2);
    TwoDigitPad(cents % 100);
    NatToStringRoundTrip(cents / 100);
    ParsePointed(FixedTwo(cents), a, b);
    DigitsAppend(a, b);
    DivisionBounds(cents, 100);
    assert Pow10(2) == 100;
  }
}
