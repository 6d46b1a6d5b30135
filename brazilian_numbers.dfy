// Prices as the final translator (TRADUTOR/tradutor_final.py) reads them, and
// numbers in the Brazilian notation it writes: "1.234,56" has '.' between the
// groups of thousands and ',' before the two decimals.
module BrazilianNumbers {
  import opened Wrappers
  import opened Text
  import opened Split
  import opened Numerals
  import opened Catalog

  // ---------------------------------------------------------------------
  // Reading prices

  predicate NotDot(c: char) { c != '.' }

  /** `s.replace('.', '').replace(',', '.')`: the thousands dots dropped and
      the decimal comma made a decimal point. */
  function ToPointDecimal(s: string): string
  {
    ReplaceChar(Filter(s, NotDot), ',', '.')
  }

  /** The upper-cased words that stand for a missing price. */
  const MISSING_WORDS: set<string> := {"NAN", "NONE", "NULL", "NA"}

  /** `_converter_preco_para_numero`: no number for a NaN or None cell, for
      blank text or one of the missing words, nor for text that does not read
      as a number once written with a decimal point. */
  function PriceNumber(c: Option<Value>): Option<Decimal>
  {
    match c
    case None => None
    case Some(Null) => None
    case Some(v) =>
      var t := Trim(Shown(v));
      if Upper(t) == "" || Upper(t) in MISSING_WORDS then None
      else ParseFloat(ToPointDecimal(t))
  }

  /** One half of `_ambos_precos_validos`: the cell is text that, trimmed and
      written with a decimal point, is neither empty nor a missing word and
      reads as a non-zero number. */
  predicate ValidPrice(c: Option<Value>)
  {
    match c
    case Some(Str(s)) =>
      var t := ToPointDecimal(Trim(s));
      t != "" && Upper(t) !in MISSING_WORDS
      && (match ParseFloat(t) case None => false case Some(d) => !d.IsZero())
    case _ => false
  }

  // Local helpers for `ValidPriceIsNonZeroNumber`: facts about the price
  // reader's input that the proof of that lemma uses.

  /** Text that is blank, or starts with anything but a digit, a point or a
      sign, is not a number. */
  lemma NotANumber(s: string)
    requires Trim(s) == [] || (!IsDigit(Trim(s)[0]) && Trim(s)[0] !in ".+-")
    ensures ParseFloat(s).None?
  {
    var t := Trim(s);
    if t != [] {
      assert t[..1] == [t[0]];
      var parts := SplitOn(t, ".");
      assert parts[0][0] == t[0];
    }
  }

  /** Trimming keeps a first character that is not whitespace. */
  lemma TrimKeepsFirst(s: string)
    requires |s| > 0 && !IsSpace(s[0])
    ensures |Trim(s)| > 0 && Trim(s)[0] == s[0]
  {
    TrimStartNoop(s);
    TrimEndShape(s);
  }

  lemma FilterFirst(s: string, keep: char -> bool)
    requires |s| > 0 && keep(s[0])
    ensures |Filter(s, keep)| > 0 && Filter(s, keep)[0] == s[0]
  {
  }

  /** Text without dots or commas is already written with a decimal point. */
  lemma PointDecimalNoop(t: string)
    requires forall i :: 0 <= i < |t| ==> t[i] != '.' && t[i] != ','
    ensures ToPointDecimal(t) == t
  {
    FilterAllKept(t, NotDot);
  }

  /** A missing word has no dots or commas. */
  lemma MissingWordPlain(t: string)
    requires Upper(t) == "" || Upper(t) in MISSING_WORDS
    ensures forall i :: 0 <= i < |t| ==> t[i] != '.' && t[i] != ','
  {
    var u := Upper(t);
    assert u == "" || u == "NAN" || u == "NONE" || u == "NULL" || u == "NA";
    forall i | 0 <= i < |t|
      ensures t[i] != '.' && t[i] != ','
    {
      assert u[i] == ToUpper(t[i]);
    }
  }

  /** A missing word or blank text, upper-cased or not, reads as no number. */
  lemma MissingWordNotANumber(t: string)
    requires Upper(t) == "" || Upper(t) in MISSING_WORDS
    ensures ParseFloat(t).None?
  {
    if t != [] {
      assert Upper(t)[0] == 'N';
      TrimKeepsFirst(t);
      NotANumber(t);
    } else {
      NotANumber(t);
    }
  }

  /** The two readings of a price agree: a price is valid exactly when it is
      a number other than zero. */
  lemma ValidPriceIsNonZeroNumber(c: Option<Value>)
    ensures ValidPrice(c) <==> PriceNumber(c).Some? && !PriceNumber(c).value.IsZero()
  {
    match c
    case None =>
    case Some(Null) =>
    case Some(Str(s)) =>
      var t := Trim(s);
      var l := ToPointDecimal(t);
      if Upper(t) == "" || Upper(t) in MISSING_WORDS {
        MissingWordPlain(t);
        PointDecimalNoop(t);
        MissingWordNotANumber(t);
      } else if l == "" || Upper(l) in MISSING_WORDS {
        MissingWordNotANumber(l);
      }
    case Some(v) =>
      var t := Trim(Shown(v));
      assert Shown(v)[0] == '[';
      TrimKeepsFirst(Shown(v));
      if !(Upper(t) == "" || Upper(t) in MISSING_WORDS) {
        FilterFirst(t, NotDot);
        var l := ToPointDecimal(t);
        assert l[0] == '[';
        TrimKeepsFirst(l);
        NotANumber(l);
      }
  }

  // ---------------------------------------------------------------------
  // Writing numbers

  /** The digits of `n` in groups of three counted from the right. */
  function Groups(n: nat): (r: seq<string>)
    ensures |r| >= 1
    decreases n
  {
    if n < 1000 then [NatToString(n)] else Groups(n / 1000) + [ZeroPad(n % 1000, 3)]
  }

  /** `f"{n:,}".replace(',', '.')`: the digits of `n` with a '.' before
      every group of three counted from the right. */
  function Thousands(n: nat): string
    decreases n
  {
    if n < 1000 then NatToString(n) else Thousands(n / 1000) + "." + ZeroPad(n % 1000, 3)
  }

  /** The groups written one after another. */
  function Concat(gs: seq<string>): string
  {
    if gs == [] then "" else Concat(gs[..|gs| - 1]) + gs[|gs| - 1]
  }

  /** `_formatar_numero_brasileiro`: text that reads as a number is written
      with its whole part in groups of thousands, ',' and two decimals; any
      other value comes back unchanged. */
  function FormatBR(v: Value): (r: Value)
    ensures !v.Str? ==> r == v
    ensures v.Str? && ParseFloat(v.s).None? ==> r == v
  {
    match v
    case Str(s) =>
      (match ParseFloat(s)
       case None => v
       case Some(d) => Str(BrazilianText(d)))
    case _ => v
  }

  /** The text written for a number: `int(num)` truncates toward zero, and the
      decimals are written only when `num - int(num)` is positive, that is for
      a non-negative number with a fractional part; they are the two digits
      after the point of `f"{frac:.2f}"`. */
  function BrazilianText(d: Decimal): string
  {
    var unit := Pow10(d.scale);
    DivisionBounds(d.mantissa, unit);
    var whole := d.mantissa / unit;
    var frac := d.mantissa % unit;
    if d.negative then
      (if whole == 0 then "0" else "-" + Thousands(whole)) + ",00"
    else
      Thousands(whole) + "," + (if frac > 0 then ZeroPad(RoundToCents(Decimal(false, frac, d.scale)) % 100, 2) else "00")
  }

  lemma ThreeDigits(k: nat)
    requires k < 1000
    ensures |ZeroPad(k, 3)| == 3 && AllDigits(ZeroPad(k, 3)) && DigitsToNat(ZeroPad(k, 3)) == k
  {
    assert Pow10(3) == 1000;
    NatToStringFits(k, 3);
    ZeroPadValue(k, 3);
  }

  /** The groups are digits, the first has one to three of them and no
      leading zero (unless the number is 0), every later one exactly three,
      and together they read back as `n`. */
  lemma {:induction false} GroupsShape(n: nat)
    ensures forall k :: 0 <= k < |Groups(n)| ==> AllDigits(Groups(n)[k])
    ensures 1 <= |Groups(n)[0]| <= 3
    ensures Groups(n)[0][0] == '0' ==> n == 0
    ensures forall k :: 1 <= k < |Groups(n)| ==> |Groups(n)[k]| == 3
    ensures AllDigits(Concat(Groups(n))) && DigitsToNat(Concat(Groups(n))) == n
    decreases n
  {
    if n < 1000 {
      assert Pow10(3) == 1000;
      NatToStringFits(n, 3);
      NatToStringNoLeadingZero(n);
      NatToStringRoundTrip(n);
      assert Concat(Groups(n)) == NatToString(n) by {
        assert Groups(n)[..0] == [];
      }
    } else {
      var g := Groups(n / 1000);
      var z := ZeroPad(n % 1000, 3);
      GroupsShape(n / 1000);
      ThreeDigits(n % 1000);
      assert Groups(n) == g + [z];
      assert (g + [z])[..|g + [z]| - 1] == g;
      assert Concat(Groups(n)) == Concat(g) + z;
      DigitsAppend(Concat(g), z);
    }
  }

  /** The written number is its groups joined by '.'. */
  lemma {:induction false} ThousandsJoin(n: nat)
    ensures Thousands(n) == Join(Groups(n), ".")
    decreases n
  {
    if n >= 1000 {
      ThousandsJoin(n / 1000);
      JoinSnoc(Groups(n / 1000), ZeroPad(n % 1000, 3), ".");
    }
  }

  /** Splitting the written number at its dots gives the groups back. */
  lemma ThousandsSplit(n: nat)
    ensures SplitOn(Thousands(n), ".") == Groups(n)
  {
    GroupsShape(n);
    ThousandsJoin(n);
    SplitJoin(Groups(n), '.');
  }

  /** The written number starts and ends with a digit. */
  lemma {:induction false} ThousandsEnds(n: nat)
    ensures |Thousands(n)| > 0 && IsDigit(Thousands(n)[0]) && IsDigit(Thousands(n)[|Thousands(n)| - 1])
    decreases n
  {
    if n >= 1000 {
      ThousandsEnds(n / 1000);
      ThreeDigits(n % 1000);
    }
  }

  /** Dropping the dots around a group of digits keeps the group. */
  lemma FilterDotGroup(t: string, z: string)
    requires AllDigits(z)
    ensures Filter(t + "." + z, NotDot) == Filter(t, NotDot) + z
  {
    FilterThree(t, ".", z, NotDot);
    FilterDot();
    DigitsNotDot(z);
  }

  lemma FilterThree(a: string, b: string, c: string, keep: char -> bool)
    ensures Filter(a + b + c, keep) == Filter(a, keep) + Filter(b, keep) + Filter(c, keep)
  {
    FilterAppend(a + b, c, keep);
    FilterAppend(a, b, keep);
  }

  lemma FilterDot()
    ensures Filter(".", NotDot) == ""
  {
  }

  lemma DigitsNotDot(z: string)
    requires AllDigits(z)
    ensures Filter(z, NotDot) == z
  {
    FilterAllKept(z, NotDot);
  }

  /** One more group of digits. */
  lemma ConcatSnoc(g: seq<string>, z: string)
    ensures Concat(g + [z]) == Concat(g) + z
  {
    assert (g + [z])[..|g + [z]| - 1] == g;
  }

  /** Dropping the dots of the written number leaves its digits. */
  lemma {:induction false} ThousandsDigits(n: nat)
    ensures Filter(Thousands(n), NotDot) == Concat(Groups(n))
    decreases n
  {
    if n < 1000 {
      FilterAllKept(NatToString(n), NotDot);
      assert [NatToString(n)][..0] == [];
    } else {
      var z := ZeroPad(n % 1000, 3);
      ThreeDigits(n % 1000);
      assert Thousands(n) == Thousands(n / 1000) + "." + z;
      assert Groups(n) == Groups(n / 1000) + [z];
      FilterDotGroup(Thousands(n / 1000), z);
      ThousandsDigits(n / 1000);
      ConcatSnoc(Groups(n / 1000), z);
    }
  }

  /** Two more digits multiply by a hundred. */
  lemma DigitsAppendTwo(a: string, b: string)
    requires AllDigits(a) && AllDigits(b) && |b| == 2
    ensures AllDigits(a + b) && DigitsToNat(a + b) == DigitsToNat(a) * 100 + DigitsToNat(b)
  {
    DigitsAppend(a, b);
    var n, p := DigitsToNat(a), Pow10(|b|);
    assert p == 100;
    assert n * p == n * 100;
  }

  /** Digits, a point and two digits read as that many hundredths. */
  lemma ParsePlain(y: string, digits: string, z: string, n: nat)
    requires |digits| > 0 && AllDigits(digits) && |z| == 2 && AllDigits(z) && y == digits + "." + z
    requires n == DigitsToNat(digits) * 100 + DigitsToNat(z)
    ensures ParseFloat(y).Some? && ParseFloat(y).value == Decimal(false, n, 2)
  {
    assert y[0] == digits[0] && y[|y| - 1] == z[1];
    ParseFloatPlain(y);
    ParsePointed(y, digits, z);
    DigitsAppendTwo(digits, z);
  }

  /** The digits of a number, without the dots, are one or more digits. */
  lemma ConcatDigits(w: nat)
    ensures |Concat(Groups(w))| > 0 && AllDigits(Concat(Groups(w)))
    ensures DigitsToNat(Concat(Groups(w))) == w
  {
    GroupsShape(w);
    ThousandsDigits(w);
    ThousandsEnds(w);
    FilterFirst(Thousands(w), NotDot);
  }

  /** Turning the one comma between two runs of digits into a point. */
  lemma CommaToPoint(a: string, b: string)
    requires AllDigits(a) && AllDigits(b)
    ensures ReplaceChar(a + "," + b, ',', '.') == a + "." + b
  {
  }

  /** Dropping the dots of the Brazilian text keeps the digits and the comma. */
  lemma DotsDropped(w: nat, z: string)
    requires AllDigits(z)
    ensures Filter(Thousands(w) + "," + z, NotDot) == Concat(Groups(w)) + "," + z
  {
    var th := Thousands(w);
    ThousandsDigits(w);
    FilterAppend(th + ",", z, NotDot);
    FilterAppend(th, ",", NotDot);
    FilterAllKept(z, NotDot);
    assert Filter(",", NotDot) == ",";
  }

  /** The Brazilian text, trimmed, without dots and with a decimal point. */
  lemma PointForm(w: nat, k: nat)
    requires k < 100
    ensures var x := Thousands(w) + "," + ZeroPad(k, 2);
            Trim(x) == x && |x| > 0 && IsDigit(x[0])
            && ToPointDecimal(x) == Concat(Groups(w)) + "." + ZeroPad(k, 2)
  {
    var z := ZeroPad(k, 2);
    var x := Thousands(w) + "," + z;
    ThousandsEnds(w);
    TwoDigitPad(k);
    TrimNoop(x);
    DotsDropped(w, z);
    ConcatDigits(w);
    CommaToPoint(Concat(Groups(w)), z);
  }

  /** Text that starts with a digit is not a missing word. */
  lemma DigitNotMissing(t: string)
    requires |t| > 0 && IsDigit(t[0])
    ensures Upper(t) != "" && Upper(t) !in MISSING_WORDS
  {
    assert Upper(t)[0] == t[0];
  }

  /** Brazilian text with two decimals is read back by the price reader as
      the same number of hundredths. */
  lemma BrazilianReadsBack(w: nat, k: nat)
    requires k < 100
    ensures PriceNumber(Some(Str(Thousands(w) + "," + ZeroPad(k, 2)))) == Some(Decimal(false, w * 100 + k, 2))
  {
    var g, z := Concat(Groups(w)), ZeroPad(k, 2);
    var x, y := Thousands(w) + "," + z, g + "." + z;
    assert PriceNumber(Some(Str(x))) == ParseFloat(y) by {
      PointForm(w, k);
      PriceOfText(x, y);
    }
    assert ParseFloat(y) == Some(Decimal(false, w * 100 + k, 2)) by {
      TwoDigitPad(k);
      ConcatDigits(w);
      ParsePlain(y, g, z, w * 100 + k);
    }
  }

  /** Text that is already trimmed and starts with a digit is read through
      its decimal-point form. */
  lemma PriceOfText(x: string, y: string)
    requires Trim(x) == x && |x| > 0 && IsDigit(x[0]) && ToPointDecimal(x) == y
    ensures PriceNumber(Some(Str(x))) == ParseFloat(y)
  {
    DigitNotMissing(x);
  }

  /** The whole part and the two decimals of an amount with at most two
      decimals, counted in hundredths. */
  lemma CentsSplit(m: nat, scale: nat)
    requires scale <= 2
    ensures var c := RoundToCents(Decimal(false, m, scale));
            m / Pow10(scale) == c / 100
            && (m % Pow10(scale) == 0 ==> c % 100 == 0)
            && (m % Pow10(scale) > 0 ==> RoundToCents(Decimal(false, m % Pow10(scale), scale)) % 100 == c % 100)
  {
    if scale == 0 {
      WholeCents(m);
    } else if scale == 1 {
      TenthsCents(m);
    } else {
      HundredthsCents(m);
    }
  }

  lemma WholeCents(m: nat)
    ensures var c := RoundToCents(Decimal(false, m, 0));
            m / Pow10(0) == c / 100 && m % Pow10(0) == 0 && c % 100 == 0
  {
    var c := RoundToCents(Decimal(false, m, 0));
    assert Pow10(2) == 100;
    assert c == 100 * m + 0;
    DivisionOf(c, 100, m, 0);
    DivisionOf(m, 1, m, 0);
  }

  lemma TenthsCents(m: nat)
    ensures var c := RoundToCents(Decimal(false, m, 1));
            m / Pow10(1) == c / 100
            && (m % Pow10(1) == 0 ==> c % 100 == 0)
            && (m % Pow10(1) > 0 ==> RoundToCents(Decimal(false, m % Pow10(1), 1)) % 100 == c % 100)
  {
    var c := RoundToCents(Decimal(false, m, 1));
    assert Pow10(1) == 10;
    var q, r := m / 10, m % 10;
    DivisionBounds(m, 10);
    assert c == m * 10;
    assert c == 100 * q + 10 * r;
    DivisionOf(c, 100, q, 10 * r);
    assert RoundToCents(Decimal(false, r, 1)) == 100 * 0 + 10 * r;
    DivisionOf(10 * r, 100, 0, 10 * r);
  }

  lemma HundredthsCents(m: nat)
    ensures var c := RoundToCents(Decimal(false, m, 2));
            m / Pow10(2) == c / 100
            && (m % Pow10(2) == 0 ==> c % 100 == 0)
            && (m % Pow10(2) > 0 ==> RoundToCents(Decimal(false, m % Pow10(2), 2)) % 100 == c % 100)
  {
    assert Pow10(2) == 100 && Pow10(0) == 1;
    DivisionBounds(m, 100);
    var r := m % 100;
    assert RoundToCents(Decimal(false, r, 2)) == 100 * 0 + r;
    DivisionOf(r, 100, 0, r);
  }

  /** For a non-negative amount with at most two decimals the text is the
      whole part in groups of thousands, ',' and the two decimals. */
  lemma BrazilianTextTwoDecimals(d: Decimal)
    requires !d.negative && d.scale <= 2
    ensures var c := RoundToCents(d);
            BrazilianText(d) == Thousands(c / 100) + "," + ZeroPad(c % 100, 2)
  {
    CentsSplit(d.mantissa, d.scale);
    assert ZeroPad(0, 2) == "00";
  }

  /** For a non-negative number with at most two decimals the written text is
      the whole part in groups of thousands, ',' and the two decimals (",00"
      for a whole number). */
  lemma FormatBRTwoDecimals(s: string)
    requires ParseFloat(s).Some? && !ParseFloat(s).value.negative && ParseFloat(s).value.scale <= 2
    ensures var c := RoundToCents(ParseFloat(s).value);
            FormatBR(Str(s)) == Str(Thousands(c / 100) + "," + ZeroPad(c % 100, 2))
  {
    BrazilianTextTwoDecimals(ParseFloat(s).value);
  }

  /** Composing the two: the Brazilian text of such a number reads back as
      the number itself. */
  lemma FormatBRReadsBack(s: string)
    requires ParseFloat(s).Some? && !ParseFloat(s).value.negative && ParseFloat(s).value.scale <= 2
    ensures PriceNumber(Some(FormatBR(Str(s)))).Some?
    ensures PriceNumber(Some(FormatBR(Str(s)))).value == Decimal(false, RoundToCents(ParseFloat(s).value), 2)
  {
    var c := RoundToCents(ParseFloat(s).value);
    var w, k := c / 100, c % 100;
    assert w * 100 + k == c && k < 100 by {
      DivisionBounds(c, 100);
    }
    assert FormatBR(Str(s)) == Str(Thousands(w) + "," + ZeroPad(k, 2)) by {
      FormatBRTwoDecimals(s);
    }
    BrazilianReadsBack(w, k);
  }
}
