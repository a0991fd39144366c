/** Stroop amounts as decimal XLM text and back (`src/report/fee_calc.rs`). One XLM is 10^7
    stroops; amounts are 64-bit signed integers. */
module XlmText {
  import opened Arithmetic
  import opened Text
  import opened Wrappers

  datatype ParseError = Invalid | OutOfRange

  // ----- Printing -----

  function RoundedQuotient(a: nat, div: nat): nat
    requires div > 0
  {
    var q, r := a / div, a % div;
    if r * 2 >= div then q + 1 else q
  }

  /** The seven-digit fraction rescaled to `precision` digits, rounded half up. */
  function ScaledFraction(fraction: nat, precision: nat): nat {
    if precision <= 7 then RoundedQuotient(fraction, Pow10(7 - precision))
    else fraction * Pow10(precision - 7)
  }

  function Magnitude(stroops: int): nat {
    if stroops < 0 then -stroops else stroops
  }

  /** The printed amount as a whole number of units in the last place. */
  function Units(stroops: int, precision: nat): nat {
    Magnitude(stroops) / 10_000_000 * Pow10(precision) + ScaledFraction(Magnitude(stroops) % 10_000_000, precision)
  }

  /** `units` printed with a point, `unit` of them making one. */
  function Decimal(negative: bool, units: nat, unit: nat, precision: nat): string
    requires unit > 0
  {
    (if negative then "-" else "") + (Digits(units / unit) + "." + ZeroPadded(units % unit, precision))
  }

  function StroopsToXlm(stroops: int, precision: nat): string {
    Decimal(stroops < 0, Units(stroops, precision), Pow10(precision), precision)
  }

  // ----- Parsing -----

  /** What a fraction's digits are worth in stroops: the first seven, right-padded with zeros. */
  function FractionStroops(fraction: string): nat
    requires AllDigits(fraction)
  {
    Value((fraction + Zeros(7))[..7])
  }

  /** The amount denoted by `-?digits[.digits]`, if it has that form and fits. */
  function ParseXlm(xlm: string): Result<int, ParseError> {
    var negative := xlm != "" && xlm[0] == '-';
    var parts := Split(if negative then xlm[1..] else xlm, '.');
    var fraction := if |parts| == 2 then parts[1] else "";
    if |parts| > 2 || parts[0] == "" || !AllDigits(parts[0]) || !AllDigits(fraction) then Err(Invalid)
    else if Value(parts[0]) > 0x7fff_ffff_ffff_ffff then Err(Invalid)
    else
      var magnitude := Value(parts[0]) * 10_000_000 + FractionStroops(fraction);
      var signed := if negative then -magnitude else magnitude;
      if IsI64(signed) then Ok(signed) else Err(OutOfRange)
  }

  /** The fraction read a character at a time, keeping seven digits and then padding. */
  method ReadFraction(text: string) returns (fraction: Option<nat>)
    ensures fraction == if AllDigits(text) then Some(FractionStroops(text)) else None
  {
    hide Value;
    ValueOfNone();
    var f, digits := 0, 0;
    for i := 0 to |text|
      invariant forall j :: 0 <= j < i ==> IsDigit(text[j])
      invariant digits == Min(i, 7)
      invariant f == Value(text[..digits])
    {
      if !IsDigit(text[i]) {
        return None;
      }
      if digits < 7 {
        ValueAppend(text[..digits], text[i]);
        assert text[..digits + 1] == text[..digits] + [text[i]];
        f := f * 10 + DigitValue(text[i]);
        digits := digits + 1;
      }
    }
    ghost var kept := text[..digits];
    assert kept + Zeros(0) == kept;
    for i := digits to 7
      invariant f == Value(kept + Zeros(i - digits))
    {
      ValueAppend(kept + Zeros(i - digits), '0');
      assert kept + Zeros(i + 1 - digits) == kept + Zeros(i - digits) + ['0'];
      f := f * 10;
    }
    assert kept + Zeros(7 - digits) == (text + Zeros(7))[..7];
    return Some(f);
  }

  method XlmToStroops(xlm: string) returns (r: Result<int, ParseError>)
    ensures r == ParseXlm(xlm)
  {
    hide Split, FractionStroops, Value;
    var negative := xlm != "" && xlm[0] == '-';
    var parts := Split(if negative then xlm[1..] else xlm, '.');
    var wholeText, fractionText := parts[0], "";
    if |parts| == 2 {
      fractionText := parts[1];
    } else if |parts| != 1 {
      return Err(Invalid);
    }
    if wholeText == "" || !AllDigits(wholeText) {
      return Err(Invalid);
    }
    var whole := Value(wholeText);
    if whole > 0x7fff_ffff_ffff_ffff {
      return Err(Invalid);
    }
    var fraction := ReadFraction(fractionText);
    if fraction.None? {
      return Err(Invalid);
    }
    var magnitude: int := whole * 10_000_000 + fraction.value;
    var signed := if negative then -magnitude else magnitude;
    return if IsI64(signed) then Ok(signed) else Err(OutOfRange);
  }

  // ----- What is parsed -----

  /** A fraction counts for the stroops it is worth, rounded down. */
  lemma FractionIsTruncated(fraction: string)
    requires AllDigits(fraction)
    ensures FractionStroops(fraction) * Pow10(|fraction|) <= Value(fraction) * 10_000_000
    ensures Value(fraction) * 10_000_000 < (FractionStroops(fraction) + 1) * Pow10(|fraction|)
  {
    if |fraction| <= 7 {
      FewPlacesAreExact(fraction);
    } else {
      ManyPlacesAreCut(fraction);
    }
  }

  lemma FewPlacesAreExact(fraction: string)
    requires AllDigits(fraction) && |fraction| <= 7
    ensures FractionStroops(fraction) * Pow10(|fraction|) == Value(fraction) * 10_000_000
    ensures Value(fraction) * 10_000_000 < (FractionStroops(fraction) + 1) * Pow10(|fraction|)
  {
    hide Value, Pow10, Zeros;
    var k := |fraction|;
    FewPlaces(fraction);
    ValueConcat(fraction, Zeros(7 - k));
    ValueOfZeros(7 - k);
    TenMillion();
    Pow10Sum(7 - k, k);
    assert 7 - k + k == 7;
    Associate(Value(fraction), Pow10(7 - k), Pow10(k));
    Distribute(Pow10(k), FractionStroops(fraction), 1);
  }

  lemma ManyPlacesAreCut(fraction: string)
    requires AllDigits(fraction) && |fraction| > 7
    ensures FractionStroops(fraction) * Pow10(|fraction|) <= Value(fraction) * 10_000_000
    ensures Value(fraction) * 10_000_000 < (FractionStroops(fraction) + 1) * Pow10(|fraction|)
  {
    hide Value, Pow10, Zeros;
    var k, kept, cut := |fraction|, fraction[..7], fraction[7..];
    assert (fraction + Zeros(7))[..7] == kept;
    assert fraction == kept + cut;
    ValueConcat(kept, cut);
    ValueBelow(cut);
    TenMillion();
    Pow10Sum(7, k - 7);
    assert 7 + (k - 7) == k;
    ManyPlaces(Value(kept), Pow10(k - 7), Value(cut));
  }

  lemma FewPlaces(fraction: string)
    requires |fraction| <= 7
    ensures (fraction + Zeros(7))[..7] == fraction + Zeros(7 - |fraction|)
  {
  }

  lemma ManyPlaces(v: nat, unit: nat, cut: nat)
    requires cut < unit
    ensures v * (10_000_000 * unit) <= (v * unit + cut) * 10_000_000 < (v + 1) * (10_000_000 * unit)
  {
    Distribute(unit, v, 1);
    Associate(v, unit, 10_000_000);
    Associate(v + 1, unit, 10_000_000);
  }

  /** Signed decimal text: a sign or none, digits, and perhaps a point and more digits or none. */
  function SignedDecimal(negative: bool, whole: string, fraction: Option<string>): string {
    (if negative then "-" else "") + (whole + match fraction case None => "" case Some(f) => "." + f)
  }

  predicate IsDecimal(whole: string, fraction: Option<string>) {
    whole != "" && AllDigits(whole) && (fraction.Some? ==> AllDigits(fraction.value))
  }

  /** What such text parses to: the amount in stroops, or an error where the whole part or the amount
      leaves 64 bits. */
  lemma DecimalParses(negative: bool, whole: string, fraction: Option<string>)
    requires IsDecimal(whole, fraction)
    ensures var stroops := Value(whole) * 10_000_000 + (if fraction.Some? then FractionStroops(fraction.value) else 0);
            var amount := if negative then 0 - stroops else stroops;
            ParseXlm(SignedDecimal(negative, whole, fraction))
            == if Value(whole) >= 0x8000_0000_0000_0000 then Err(Invalid)
               else if IsI64(amount) then Ok(amount) else Err(OutOfRange)
  {
    hide Value, FractionStroops, Split;
    var body := whole + match fraction case None => "" case Some(f) => "." + f;
    var xlm := SignedDecimal(negative, whole, fraction);
    assert body[0] == whole[0] && IsDigit(whole[0]);
    assert (xlm[0] == '-') == negative;
    assert (if negative then xlm[1..] else xlm) == body;
    assert '.' !in whole;
    NoFraction();
    match fraction
    case None =>
      assert body == whole;
      SplitPlain(whole, '.');
    case Some(f) =>
      assert body == whole + ['.'] + f && '.' !in f;
      SplitAt(whole, '.', f);
      SplitPlain(f, '.');
  }

  lemma NoFraction()
    ensures FractionStroops("") == 0
  {
    assert ("" + Zeros(7))[..7] == Zeros(7);
    ValueOfZeros(7);
  }

  /** And every text that is not refused as invalid is of that form. */
  lemma OnlyDecimalsParse(xlm: string) returns (negative: bool, whole: string, fraction: Option<string>)
    requires ParseXlm(xlm) != Err(Invalid)
    ensures IsDecimal(whole, fraction) && xlm == SignedDecimal(negative, whole, fraction)
  {
    hide Value, FractionStroops, Split;
    negative := xlm != "" && xlm[0] == '-';
    var body := if negative then xlm[1..] else xlm;
    var parts := Split(body, '.');
    whole := parts[0];
    fraction := if |parts| == 2 then Some(parts[1]) else None;
    SplitRejoins(body, '.');
    assert |parts| == 1 ==> parts == [whole];
    assert |parts| == 2 ==> parts == [whole, parts[1]];
    assert negative ==> xlm == "-" + body;
  }

  // ----- Printing then parsing -----

  function RoundedMagnitude(a: nat, step: nat): nat
    requires step > 0
  {
    RoundedQuotient(a, step) * step
  }

  /** The amount rounded half away from zero to the last printed place; exact from seven places on. */
  function Rounded(stroops: int, precision: nat): int {
    if precision >= 7 then stroops
    else
      var m := RoundedMagnitude(Magnitude(stroops), Pow10(7 - precision));
      if stroops < 0 then 0 - m else m
  }

  lemma RoundedMagnitudeIsClose(a: nat, step: nat)
    requires step > 0
    ensures 2 * Magnitude(RoundedMagnitude(a, step) - a) <= step
    ensures 0 - step < 2 * (RoundedMagnitude(a, step) - a)
    ensures RoundedMagnitude(a, 1) == a
  {
    Distribute(step, a / step, 1);
  }

  /** The rounded amount is within half a unit of the last printed place, halves go away from zero, and
      it is a whole number of units. */
  lemma RoundedIsClose(stroops: int, precision: nat)
    ensures precision >= 7 ==> Rounded(stroops, precision) == stroops
    ensures precision < 7 ==>
              && 2 * Magnitude(Rounded(stroops, precision) - stroops) <= Pow10(7 - precision)
              && 0 - Pow10(7 - precision) < 2 * (Magnitude(Rounded(stroops, precision)) - Magnitude(stroops))
              && Magnitude(Rounded(stroops, precision)) % Pow10(7 - precision) == 0
              && (Rounded(stroops, precision) < 0 ==> stroops < 0) && (Rounded(stroops, precision) > 0 ==> stroops > 0)
  {
    hide Pow10, RoundedMagnitude;
    if precision < 7 {
      var step := Pow10(7 - precision);
      RoundedMagnitudeIsClose(Magnitude(stroops), step);
      WholeUnits(Magnitude(stroops), step);
    }
  }

  lemma WholeUnits(a: nat, step: nat)
    requires step > 0
    ensures RoundedMagnitude(a, step) >= 0 && RoundedMagnitude(a, step) % step == 0
    ensures a == 0 ==> RoundedMagnitude(a, step) == 0
  {
    ModuloOfMultiple(RoundedQuotient(a, step), step, 0);
  }

  lemma TenMillion()
    ensures Pow10(7) == 10_000_000 && Pow10(0) == 1
  {
    assert Pow10(3) == 1000;
    assert Pow10(6) == 1_000_000;
  }

  /** The printed units, scaled back to stroops, are the rounded magnitude. */
  lemma UnitsAreRounded(stroops: int, precision: nat)
    requires precision <= 7
    ensures Units(stroops, precision) * Pow10(7 - precision) == Magnitude(Rounded(stroops, precision))
  {
    hide Pow10, RoundedQuotient;
    var a, unit, div := Magnitude(stroops), Pow10(precision), Pow10(7 - precision);
    TenMillion();
    Pow10Sum(precision, 7 - precision);
    RoundedUnits(a, unit, div);
    if precision == 7 {
      RoundedMagnitudeIsClose(a, 1);
    }
  }

  /** Rounding the seven-digit fraction is rounding the whole amount. */
  lemma RoundedUnits(a: nat, unit: nat, div: nat)
    requires div > 0 && unit * div == 10_000_000
    ensures (a / 10_000_000 * unit + RoundedQuotient(a % 10_000_000, div)) * div == RoundedMagnitude(a, div)
  {
    var whole, f := a / 10_000_000, a % 10_000_000;
    Associate(whole, unit, div);
    assert a == whole * unit * div + f;
    ModuloOfMultiple(whole * unit, div, f);
  }

  lemma Associate(a: int, b: int, c: int)
    ensures a * b * c == a * (b * c)
  {
  }

  lemma PlainZero()
    ensures ZeroPadded(0, 0) == "0"
  {
  }

  /** What the printed fraction is worth. */
  lemma PrintedFraction(units: nat, precision: nat)
    requires precision <= 7
    ensures FractionStroops(ZeroPadded(units % Pow10(precision), precision))
              == units % Pow10(precision) * Pow10(7 - precision)
  {
    hide Value, ZeroPadded, FixedDigits;
    var f := units % Pow10(precision);
    var text := ZeroPadded(f, precision);
    TenMillion();
    if precision == 0 {
      assert f == 0;
      assert text == "0" by { PlainZero(); }
      assert (text + Zeros(7))[..7] == Zeros(7);
      FixedDigitsOfZero(7);
      ValueOfFixedDigits(0, 7);
    } else {
      ZeroPaddedIsFixed(f, precision);
      FixedDigitsScaled(f, precision, 7 - precision);
      assert (text + Zeros(7))[..7] == text + Zeros(7 - precision);
      Pow10Sum(precision, 7 - precision);
      ProductBelow(f, Pow10(precision), Pow10(7 - precision));
      ValueOfFixedDigits(f * Pow10(7 - precision), 7);
    }
  }

  lemma ProductBelow(a: nat, b: nat, c: nat)
    requires a < b && c > 0
    ensures a * c < b * c
  {
  }

  lemma LongFraction(fraction: nat, precision: nat)
    requires precision > 7 && fraction < 10_000_000
    ensures fraction * Pow10(precision - 7) < Pow10(precision)
    ensures FractionStroops(ZeroPadded(fraction * Pow10(precision - 7), precision)) == fraction
  {
    var f := fraction * Pow10(precision - 7);
    TenMillion();
    Pow10Sum(7, precision - 7);
    ProductBelow(fraction, Pow10(7), Pow10(precision - 7));
    ZeroPaddedIsFixed(f, precision);
    FixedDigitsScaled(fraction, 7, precision - 7);
    assert (ZeroPadded(f, precision) + Zeros(7))[..7] == FixedDigits(fraction, 7);
    ValueOfFixedDigits(fraction, 7);
  }

  lemma SplitPrinted(whole: nat, fraction: string)
    requires AllDigits(fraction)
    ensures Split(Digits(whole) + "." + fraction, '.') == [Digits(whole), fraction]
  {
    hide Split, Digits;
    assert '.' !in Digits(whole) && '.' !in fraction;
    assert Digits(whole) + "." + fraction == Digits(whole) + ['.'] + fraction;
    SplitAt(Digits(whole), '.', fraction);
    SplitPlain(fraction, '.');
  }

  /** How any printed amount parses: the two parts are read back as they were written. */
  lemma ParsePrinted(negative: bool, whole: nat, fraction: string)
    requires AllDigits(fraction) && whole <= 0x7fff_ffff_ffff_ffff
    ensures var m := whole * 10_000_000 + FractionStroops(fraction);
            var v := if negative then -m else m;
            ParseXlm((if negative then "-" else "") + (Digits(whole) + "." + fraction))
              == if IsI64(v) then Ok(v) else Err(OutOfRange)
  {
    hide Value, FractionStroops, Split, Digits;
    var body := Digits(whole) + "." + fraction;
    var xlm := (if negative then "-" else "") + body;
    assert body[0] == Digits(whole)[0] && IsDigit(Digits(whole)[0]);
    assert (xlm[0] == '-') == negative;
    assert (if negative then xlm[1..] else xlm) == body;
    SplitPrinted(whole, fraction);
    ValueOfDigits(whole);
  }

  /** Printing an amount and parsing the text gives the amount rounded to the last printed place,
      or a range error exactly when that rounding leaves the 64-bit range. */
  lemma PrintThenParse(stroops: int, precision: nat)
    requires IsI64(stroops)
    ensures ParseXlm(StroopsToXlm(stroops, precision))
         == if IsI64(Rounded(stroops, precision)) then Ok(Rounded(stroops, precision)) else Err(OutOfRange)
  {
    hide Rounded, FractionStroops, ParseXlm, ZeroPadded, Pow10, Units;
    var unit, units := Pow10(precision), Units(stroops, precision);
    PartsAreRounded(stroops, precision);
    ParsePrinted(stroops < 0, units / unit, ZeroPadded(units % unit, precision));
  }

  /** The two printed parts together are worth the rounded amount. */
  lemma PartsAreRounded(stroops: int, precision: nat)
    requires IsI64(stroops)
    ensures var unit, units := Pow10(precision), Units(stroops, precision);
            var m := units / unit * 10_000_000 + FractionStroops(ZeroPadded(units % unit, precision));
            && units / unit <= 0x7fff_ffff_ffff_ffff
            && Rounded(stroops, precision) == if stroops < 0 then 0 - m else m
  {
    hide Rounded, FractionStroops, ZeroPadded, Pow10, Units;
    RoundedSign(stroops, precision);
    if precision <= 7 {
      ShortParts(stroops, precision);
    } else {
      LongParts(stroops, precision);
    }
  }

  lemma ShortParts(stroops: int, precision: nat)
    requires IsI64(stroops) && precision <= 7
    ensures var unit, units := Pow10(precision), Units(stroops, precision);
            && units / unit <= 0x7fff_ffff_ffff_ffff
            && units / unit * 10_000_000 + FractionStroops(ZeroPadded(units % unit, precision))
                 == Magnitude(Rounded(stroops, precision))
  {
    hide Rounded, FractionStroops, ZeroPadded, Pow10, Units, Magnitude;
    var unit, units, div := Pow10(precision), Units(stroops, precision), Pow10(7 - precision);
    RoundedSign(stroops, precision);
    UnitsAreRounded(stroops, precision);
    PrintedFraction(units, precision);
    TenMillion();
    Pow10Sum(precision, 7 - precision);
    assert precision + (7 - precision) == 7;
    Recompose(units, unit, div);
  }

  lemma LongParts(stroops: int, precision: nat)
    requires IsI64(stroops) && precision > 7
    ensures var unit, units := Pow10(precision), Units(stroops, precision);
            && units / unit <= 0x7fff_ffff_ffff_ffff
            && units / unit * 10_000_000 + FractionStroops(ZeroPadded(units % unit, precision)) == Magnitude(stroops)
  {
    hide Rounded, FractionStroops, ZeroPadded, Pow10, Units;
    var a := Magnitude(stroops);
    LongUnits(stroops, precision);
    LongFraction(a % 10_000_000, precision);
    DivModUnique(Units(stroops, precision), Pow10(precision), a / 10_000_000, a % 10_000_000 * Pow10(precision - 7));
  }

  lemma LongUnits(stroops: int, precision: nat)
    requires precision > 7
    ensures Units(stroops, precision)
              == Pow10(precision) * (Magnitude(stroops) / 10_000_000)
                + Magnitude(stroops) % 10_000_000 * Pow10(precision - 7)
  {
    hide Pow10;
  }

  lemma Recompose(u: nat, unit: nat, div: nat)
    requires unit > 0 && unit * div == 10_000_000
    ensures u / unit * 10_000_000 + u % unit * div == u * div
  {
    var q, r := u / unit, u % unit;
    assert u == q * unit + r;
    Associate(q, unit, div);
    Distribute(div, q * unit, r);
  }

  lemma RoundedSign(stroops: int, precision: nat)
    requires IsI64(stroops)
    ensures Rounded(stroops, precision)
              == if stroops < 0 then 0 - Magnitude(Rounded(stroops, precision))
                 else Magnitude(Rounded(stroops, precision))
    ensures Magnitude(Rounded(stroops, precision)) <= 0x8000_0000_0000_0000 + 10_000_000
    ensures precision >= 7 ==> Rounded(stroops, precision) == stroops
  {
    hide Pow10, RoundedMagnitude;
    if precision < 7 {
      TenMillion();
      Pow10Sum(precision, 7 - precision);
      ProductMonotone(1, Pow10(precision), Pow10(7 - precision), Pow10(7 - precision));
      RoundedMagnitudeIsClose(Magnitude(stroops), Pow10(7 - precision));
    }
  }

  // ----- What is printed -----

  /** A whole number as people write it. */
  predicate IsWhole(s: string) {
    s != "" && AllDigits(s) && (s[0] == '0' ==> |s| == 1)
  }

  lemma {:induction false} DigitsAreWhole(n: nat)
    ensures IsWhole(Digits(n)) && (n > 0 ==> Digits(n)[0] != '0')
  {
    if n < 10 {
    } else {
      DigitsAreWhole(n / 10);
    }
  }

  lemma {:induction false} DigitsFit(n: nat, width: nat)
    requires n < Pow10(width) && width > 0
    ensures |Digits(n)| <= width
  {
    if n < 10 {
    } else {
      assert Pow10(1) == 10;
      DigitsFit(n / 10, width - 1);
    }
  }

  lemma PlacesPrinted(units: nat, precision: nat)
    ensures var text := ZeroPadded(units % Pow10(precision), precision);
            |text| == Max(precision, 1) && Value(text) == units % Pow10(precision)
  {
    hide Pow10, ZeroPadded, FixedDigits, Value;
    var f := units % Pow10(precision);
    if precision == 0 {
      Pow10Zero();
      PlainZero();
      ValueOfNone();
      ValueAppend("", '0');
      assert "" + ['0'] == "0";
    } else {
      ZeroPaddedIsFixed(f, precision);
      ValueOfFixedDigits(f, precision);
    }
  }

  /** An amount is printed as a minus sign exactly when it is negative, a whole part without leading
      zeros, one point, and exactly as many places as asked for, at least one; and the number printed,
      to the last place, is the rounded amount. */
  lemma PrintedForm(stroops: int, precision: nat) returns (whole: string, fraction: string)
    requires IsI64(stroops)
    ensures StroopsToXlm(stroops, precision) == (if stroops < 0 then "-" else "") + whole + "." + fraction
    ensures IsWhole(whole) && AllDigits(fraction) && |fraction| == Max(precision, 1)
    ensures var units := Value(whole) * Pow10(precision) + Value(fraction);
            if precision <= 7 then units * Pow10(7 - precision) == Magnitude(Rounded(stroops, precision))
            else units == Magnitude(stroops) * Pow10(precision - 7)
  {
    hide Pow10, ZeroPadded, Value, Units, Digits, Rounded;
    var unit, units := Pow10(precision), Units(stroops, precision);
    whole, fraction := Digits(units / unit), ZeroPadded(units % unit, precision);
    DigitsAreWhole(units / unit);
    ValueOfDigits(units / unit);
    PlacesPrinted(units, precision);
    SignedText(stroops < 0, whole, fraction);
    QuotientAndRest(units, unit);
    if precision <= 7 {
      UnitsAreRounded(stroops, precision);
    } else {
      AllPlaces(stroops, precision);
    }
  }

  lemma SignedText(negative: bool, whole: string, fraction: string)
    ensures (if negative then "-" else "") + (whole + "." + fraction)
         == (if negative then "-" else "") + whole + "." + fraction
  {
  }

  lemma QuotientAndRest(a: nat, b: nat)
    requires b > 0
    ensures a / b * b + a % b == a
  {
  }

  lemma AllPlaces(stroops: int, precision: nat)
    requires precision > 7
    ensures Units(stroops, precision) == Magnitude(stroops) * Pow10(precision - 7)
  {
    hide Pow10;
    var a, p := Magnitude(stroops), Pow10(precision - 7);
    LongUnits(stroops, precision);
    TenMillion();
    Pow10Sum(7, precision - 7);
    assert 7 + (precision - 7) == precision;
    Associate(a / 10_000_000, 10_000_000, p);
    Distribute(p, a / 10_000_000 * 10_000_000, a % 10_000_000);
    assert a == a / 10_000_000 * 10_000_000 + a % 10_000_000;
  }

  /** At full precision nothing is lost, `i64::MIN` and `i64::MAX` included. */
  lemma FullPrecisionRoundTrip(stroops: int, precision: nat)
    requires IsI64(stroops) && precision >= 7
    ensures ParseXlm(StroopsToXlm(stroops, precision)) == Ok(stroops)
  {
    PrintThenParse(stroops, precision);
    RoundedSign(stroops, precision);
  }

  /** Distinct amounts print differently at full precision. */
  lemma FullPrecisionInjective(a: int, b: int, precision: nat)
    requires IsI64(a) && IsI64(b) && precision >= 7
    requires StroopsToXlm(a, precision) == StroopsToXlm(b, precision)
    ensures a == b
  {
    FullPrecisionRoundTrip(a, precision);
    FullPrecisionRoundTrip(b, precision);
  }
}
