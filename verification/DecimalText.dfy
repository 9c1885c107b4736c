/** Amounts as decimal text (src/common/src/common/quantity.cpp): printing and reading back. */
module DecimalText {
  import opened Decimal
  import opened Quantity
  import opened Text

  // ------------------------------------------------------------------------------ reading

  /** How many digits s starts with. */
  function DigitRun(s: string): (n: nat)
    ensures n <= |s|
    ensures forall i :: 0 <= i < n ==> IsDigit(s[i])
    ensures n < |s| ==> !IsDigit(s[n])
  {
    if s == "" || !IsDigit(s[0]) then 0 else 1 + DigitRun(s[1..])
  }

  /** What std::from_chars makes of a whole text: digits after an optional minus, in 64 bits. */
  function FromChars(s: string): Result<int> {
    var body := if s != "" && s[0] == '-' then s[1..] else s;
    var n := DigitRun(body);
    if n == 0 then Err(MalformedInteger)
    else
      var v: int := if s[0] == '-' then -(Value(body[..n]) as int) else Value(body[..n]);
      if !InInt64(v) then Err(IntegerOverflow)
      else if n < |body| then Err(MalformedInteger)
      else Ok(v)
  }

  /** A fraction cut or padded with zeros to exactly `precision` characters. */
  function FractionField(frac: string, precision: nat): (f: string)
    ensures |f| == precision
  {
    seq(precision, i requires 0 <= i < precision => if i < |frac| then frac[i] else '0')
  }

  function FractionValue(field: string): Result<int> {
    var n := DigitRun(field);
    if n < |field| then Err(UnexpectedChar(field[n])) else assert field[..n] == field; Ok(Value(field))
  }

  function IntegerPart(body: string): Result<int> {
    var digits := body[..FindDot(body)];
    if digits == "" then Ok(0) else FromChars(digits)
  }

  function FractionText(body: string): string {
    var dot := FindDot(body);
    if dot < |body| then body[dot + 1..] else ""
  }

  function MicroUnits(negative: bool, whole: int, fraction: int, precision: nat): int {
    var magnitude := whole * Pow10(precision) + fraction;
    if negative then -magnitude else magnitude
  }

  /** The number of micro-units an unsigned text stands for. */
  function FromBody(negative: bool, body: string, precision: nat): Result<int> {
    match IntegerPart(body)
    case Err(e) => Err(e)
    case Ok(whole) =>
      match FractionValue(FractionField(FractionText(body), precision))
      case Err(e) => Err(e)
      case Ok(fraction) => Ok(MicroUnits(negative, whole, fraction, precision))
  }

  /** The number of micro-units a text stands for. */
  function FromText(text: string, precision: nat): Result<int> {
    if text == "" then Err(EmptyString)
    else if text[0] != '-' then FromBody(false, text, precision)
    else if text[1..] == "" then Err(BareMinus)
    else FromBody(true, text[1..], precision)
  }

  lemma NextDigit(field: string, i: nat, p: nat)
    requires i < |field| && AllDigits(field[..i]) && IsDigit(field[i])
    ensures AllDigits(field[..i + 1])
    ensures Value(field[..i + 1]) * p == Value(field[..i]) * (10 * p) + DigitOf(field[i]) * p
  {
    assert field[..i + 1][..i] == field[..i];
    assert field[..i + 1] == field[..i] + [field[i]];
    Distribute(Value(field[..i]), DigitOf(field[i]), p);
  }

  lemma Distribute(v: nat, d: nat, p: nat)
    ensures (10 * v + d) * p == v * (10 * p) + d * p
  {
  }

  /** The scale of a precision, one factor at a time. */
  method ScaleOf(precision: nat) returns (scale: int)
    ensures scale == Pow10(precision)
  {
    scale := 1;
    for i := 0 to precision
      invariant scale == Pow10(i)
    {
      scale := scale * 10;
    }
  }

  /** The digits of a field up to position i have been read. */
  predicate ReadUpTo(field: string, i: nat, fracPart: int, fracScale: int) {
    && i <= |field| && AllDigits(field[..i])
    && fracScale == Pow10(|field| - i)
    && fracPart == Value(field[..i]) * fracScale
  }

  lemma ReadOneMore(field: string, i: nat, fracPart: int, fracScale: int)
    requires i < |field| && ReadUpTo(field, i, fracPart, fracScale) && IsDigit(field[i])
    ensures ReadUpTo(field, i + 1, fracPart + DigitOf(field[i]) * (fracScale / 10), fracScale / 10)
  {
    NextDigit(field, i, Pow10(|field| - i - 1));
  }

  lemma ReadAll(field: string, fracPart: int, fracScale: int)
    requires ReadUpTo(field, |field|, fracPart, fracScale)
    ensures FractionValue(field) == Ok(fracPart)
  {
    assert field[..|field|] == field;
  }

  /** The fraction, digit by digit: missing digits read as 0, surplus ones are never looked at. */
  method ReadFraction(fracStr: string, precision: nat, scale: int) returns (r: Result<int>)
    requires scale == Pow10(precision)
    ensures r == FractionValue(FractionField(fracStr, precision))
  {
    var fracPart, fracScale := 0, scale;
    ghost var field := FractionField(fracStr, precision);
    for i := 0 to precision
      invariant ReadUpTo(field, i, fracPart, fracScale)
    {
      var character := if i < |fracStr| then fracStr[i] else '0';
      assert character == field[i];
      if character < '0' || character > '9' {
        return Err(UnexpectedChar(character));
      }
      ReadOneMore(field, i, fracPart, fracScale);
      fracScale := fracScale / 10;
      fracPart := fracPart + (character as int - '0' as int) * fracScale;
    }
    ReadAll(field, fracPart, fracScale);
    return Ok(fracPart);
  }

  /** The reader. */
  method MicroUnitsFromString(text: string, precision: nat) returns (r: Result<int>)
    ensures r == FromText(text, precision)
  {
    if text == "" {
      return Err(EmptyString);
    }
    var negative := text[0] == '-';
    var body := if negative then text[1..] else text;
    if body == "" {
      return Err(BareMinus);
    }
    var scale := ScaleOf(precision);
    var whole := IntegerPart(body);
    if whole.Err? {
      return Err(whole.error);
    }
    var fraction := ReadFraction(FractionText(body), precision, scale);
    if fraction.Err? {
      return fraction;
    }
    var magnitude := whole.value * scale + fraction.value;
    return Ok(if negative then -magnitude else magnitude);
  }

  // ------------------------------------------------------------------------------ printing

  /** The units of an amount with `scale` decimals, without its sign. */
  function Whole(v: int, scale: nat): nat {
    Quotient(Abs(v), Pow10(scale))
  }

  /** The decimals of an amount, as a number. */
  function Fraction(v: int, scale: nat): (f: nat)
    ensures f < Pow10(scale)
    ensures Abs(v) == Whole(v, scale) * Pow10(scale) + f
  {
    Remainder(Abs(v), Pow10(scale))
  }

  function SignText(v: int): string {
    if v < 0 then "-" else ""
  }

  /** A value with `scale` decimals, its fraction padded (never cut) to `precision` characters. */
  function ToText(v: int, precision: nat, scale: nat, withPoint: bool): string {
    SignText(v) + Digits(Whole(v, scale)) + (if withPoint || precision == 0 then "." else "")
    + Padded(Fraction(v, scale), precision)
  }

  lemma FindDotAfter(digits: string, rest: string)
    requires forall i :: 0 <= i < |digits| ==> digits[i] != '.'
    ensures FindDot(digits + "." + rest) == |digits|
  {
    var s := digits + "." + rest;
    assert s[|digits|] == '.';
    assert forall i :: 0 <= i < |digits| ==> s[i] == digits[i];
  }

  lemma DotSplits(before: string, after: string)
    ensures var s := before + "." + after;
            s[..|before|] == before && s[|before| + 1..] == after
  {
  }

  /** The printer: with the point first, which is then erased when it is not wanted. */
  method MicroUnitsToString(v: int, precision: nat, scale: nat, withPoint: bool)
    returns (result: string)
    ensures result == ToText(v, precision, scale, withPoint)
  {
    var factor := Pow10(scale);
    var intPart := Abs(TruncDiv(v, factor));
    var fracPart := Abs(v - TruncDiv(v, factor) * factor);
    TruncParts(v, scale);
    var before, after := SignText(v) + Digits(intPart), Padded(fracPart, precision);
    result := before + "." + after;
    if !withPoint && precision > 0 {
      FindDotAfter(before, after);
      DotSplits(before, after);
      var dotPos := FindDot(result);
      if dotPos < |result| {
        result := result[..dotPos] + result[dotPos + 1..];
      }
      assert before + "" == before;
    }
  }

  /** The quotient and the remainder of a truncating division, without their signs. */
  lemma TruncParts(v: int, scale: nat)
    ensures Abs(TruncDiv(v, Pow10(scale))) == Whole(v, scale)
    ensures Abs(v - TruncDiv(v, Pow10(scale)) * Pow10(scale)) == Fraction(v, scale)
  {
    var f, q := Pow10(scale), Whole(v, scale);
    TruncDivBounds(v, f);
    if v < 0 {
      SignedQuotient(v, f, q);
    } else if v > 0 {
      assert TruncDiv(v, f) == q;
    }
  }

  lemma SignedQuotient(v: int, f: nat, q: nat)
    requires f > 0 && v < 0 && q == Quotient(-v, f)
    ensures TruncDiv(v, f) == -1 * q
    ensures v - TruncDiv(v, f) * f == -1 * Remainder(-v, f)
  {
    var t := TruncDiv(v, f);
    assert t == -1 * q;
    assert t * f == -1 * (q * f);
  }

  // ------------------------------------------------------------------------------ round trip

  lemma ReadsWhole(d: nat)
    requires d < TWO_63
    ensures FromChars(Digits(d)) == Ok(d)
  {
    var s := Digits(d);
    assert IsDigit(s[0]);
    assert s[..|s|] == s;
    ValueOfDigits(d);
  }

  /** An unsigned text with a point reads as its digits before and its field after the point. */
  lemma ReadsBody(d: nat, fraction: string, field: string, precision: nat)
    requires d < TWO_63
    requires field == FractionField(fraction, precision) && AllDigits(field)
    ensures IntegerPart(Digits(d) + "." + fraction) == Ok(d)
    ensures FractionValue(FractionField(FractionText(Digits(d) + "." + fraction), precision))
         == Ok(Value(field))
  {
    FindDotAfter(Digits(d), fraction);
    DotSplits(Digits(d), fraction);
    ReadsWhole(d);
    assert field[..|field|] == field;
  }

  lemma ReadsSign(v: int, body: string, precision: nat)
    requires body != "" && body[0] != '-'
    ensures FromText(SignText(v) + body, precision) == FromBody(v < 0, body, precision)
  {
    assert ("-" + body)[1..] == body;
    assert "" + body == body;
  }

  lemma ReadsSignedBody(v: int, d: nat, fraction: string, field: string, scale: nat)
    requires d < TWO_63
    requires field == FractionField(fraction, scale) && AllDigits(field)
    ensures FromText(SignText(v) + (Digits(d) + "." + fraction), scale)
         == Ok(MicroUnits(v < 0, d, Value(field), scale))
  {
    var body := Digits(d) + "." + fraction;
    ReadsBody(d, fraction, field, scale);
    ReadsSign(v, body, scale);
  }

  /** Reading a printed amount brings back its units and whatever its fraction field shows. */
  lemma ReadsPrinted(v: int, precision: nat, scale: nat, field: string)
    requires Abs(v) < TWO_63
    requires field == FractionField(Padded(Fraction(v, scale), precision), scale) && AllDigits(field)
    ensures FromText(ToText(v, precision, scale, true), scale)
         == Ok(MicroUnits(v < 0, Whole(v, scale), Value(field), scale))
  {
    ReadsSignedBody(v, Whole(v, scale), Padded(Fraction(v, scale), precision), field, scale);
    PrintedText(v, precision, scale);
  }

  lemma PrintedText(v: int, precision: nat, scale: nat)
    ensures ToText(v, precision, scale, true)
         == SignText(v) + (Digits(Whole(v, scale)) + "." + Padded(Fraction(v, scale), precision))
  {
  }

  lemma PartsMakeAmount(v: int, scale: nat, fraction: nat)
    ensures MicroUnits(v < 0, Whole(v, scale), fraction, scale) == v <==> fraction == Fraction(v, scale)
  {
  }

  /**
   * Printing with `precision` and reading back with the amount's own scale gives the amount
   * exactly when it has no decimals, when the precision is the scale, or when the precision is
   * smaller and the decimals need no leading zero.
   */
  lemma ReadBackExactlyWhen(v: int, precision: nat, scale: nat)
    requires Abs(v) < TWO_63
    ensures FromText(ToText(v, precision, scale, true), scale) == Ok(v)
       <==> || Fraction(v, scale) == 0
            || precision == scale
            || (precision < scale && Fraction(v, scale) >= Pow10(scale - 1))
  {
    var f := Fraction(v, scale);
    var padded := Padded(f, precision);
    var field := FractionField(padded, scale);
    ReadsPrinted(v, precision, scale, field);
    PartsMakeAmount(v, scale, Value(field));
    FieldShows(f, precision, scale, field);
    if f > 0 {
      PaddedLength(f, precision, scale);
    }
  }

  lemma FieldPads(padded: string, scale: nat)
    requires AllDigits(padded) && |padded| <= scale
    ensures AllDigits(FractionField(padded, scale))
    ensures Value(FractionField(padded, scale)) == Value(padded) * Pow10(scale - |padded|)
  {
    assert FractionField(padded, scale) == padded + Zeros(scale - |padded|);
    ValueConcat(padded, Zeros(scale - |padded|));
    ValueOfZeros(scale - |padded|);
  }

  lemma FieldCuts(padded: string, scale: nat)
    requires AllDigits(padded) && |padded| > scale
    ensures AllDigits(FractionField(padded, scale))
    ensures Value(FractionField(padded, scale)) * Pow10(|padded| - scale) <= Value(padded)
  {
    var field, cut := FractionField(padded, scale), padded[scale..];
    assert padded == field + cut;
    ValueConcat(field, cut);
  }

  /** What the first `scale` characters of a padded fraction, filled up with zeros, stand for. */
  lemma FieldShows(f: nat, precision: nat, scale: nat, field: string)
    requires f < Pow10(scale)
    requires field == FractionField(Padded(f, precision), scale) && AllDigits(field)
    ensures Value(field) == f <==> f == 0 || |Padded(f, precision)| == scale
  {
    var padded := Padded(f, precision);
    ValueOfPadded(f, precision);
    if |padded| <= scale {
      FieldPads(padded, scale);
      Grows(f, scale - |padded|);
    } else {
      FieldCuts(padded, scale);
      Grows(Value(field), |padded| - scale);
    }
  }

  lemma PaddedLength(f: nat, precision: nat, scale: nat)
    requires 0 < f < Pow10(scale)
    ensures |Padded(f, precision)| == scale
       <==> precision == scale || (precision < scale && f >= Pow10(scale - 1))
  {
    assert scale >= 1;
    DigitsLength(f, scale);
    if scale >= 2 {
      DigitsLength(f, scale - 1);
    }
  }

  lemma Grows(x: nat, k: nat)
    ensures x * Pow10(k) == x <==> x == 0 || k == 0
    ensures x > 0 && k > 0 ==> x * Pow10(k) > x
  {
    if x > 0 && k > 0 {
      assert Pow10(k) >= 10;
      ProductMonotone(x, 10, x, Pow10(k));
    }
  }

  /** Everything the reader forms from the two parts of a text fits 64 bits. */
  predicate StaysInInt64(whole: int, fraction: int, precision: nat) {
    && InInt64(Pow10(precision)) && InInt64(whole) && InInt64(fraction)
    && InInt64(whole * Pow10(precision))
    && InInt64(MicroUnits(false, whole, fraction, precision))
  }

  /** Everything the reader computes fits 64 bits, its sign included. */
  predicate ReadsInInt64(negative: bool, whole: int, fraction: int, precision: nat) {
    StaysInInt64(whole, fraction, precision) && InInt64(MicroUnits(negative, whole, fraction, precision))
  }

  /** The scaled whole part and the sum fit 64 bits, and so does the sum with its sign. */
  predicate SumFits(negative: bool, scaled: int, fraction: int) {
    -TWO_63 <= scaled && scaled + fraction < TWO_63 && (negative ==> scaled + fraction != -TWO_63)
  }

  lemma PartsStayInInt64ExactlyWhen(negative: bool, whole: int, fraction: nat, precision: nat)
    requires InInt64(whole) && fraction < Pow10(precision) < TWO_63
    ensures ReadsInInt64(negative, whole, fraction, precision)
       <==> SumFits(negative, whole * Pow10(precision), fraction)
    ensures whole >= 0 ==> whole * Pow10(precision) >= 0
  {
    if whole >= 0 {
      ProductMonotone(0, 0, whole, Pow10(precision));
    }
  }

  /**
   * With up to 18 decimals, reading a text of which the parts can be read stays in 64 bits exactly
   * when the scaled whole part and the sum do, and a sign is not put before the most negative sum;
   * without a second sign before the whole part, exactly when the sum is less than 2^63.
   */
  lemma ReadingStaysInInt64ExactlyWhen(negative: bool, body: string, precision: nat, whole: int, fraction: int)
    requires precision <= 18 && IntegerPart(body) == Ok(whole)
    requires FractionValue(FractionField(FractionText(body), precision)) == Ok(fraction)
    ensures FromBody(negative, body, precision) == Ok(MicroUnits(negative, whole, fraction, precision))
    ensures ReadsInInt64(negative, whole, fraction, precision)
       <==> SumFits(negative, whole * Pow10(precision), fraction)
    ensures whole >= 0 ==>
      (ReadsInInt64(negative, whole, fraction, precision) <==> whole * Pow10(precision) + fraction < TWO_63)
  {
    PartsAreSmall(body, precision, whole, fraction);
    PartsStayInInt64ExactlyWhen(negative, whole, fraction, precision);
  }

  lemma PartsAreSmall(body: string, precision: nat, whole: int, fraction: int)
    requires precision <= 18 && IntegerPart(body) == Ok(whole)
    requires FractionValue(FractionField(FractionText(body), precision)) == Ok(fraction)
    ensures InInt64(whole) && 0 <= fraction < Pow10(precision) < TWO_63
  {
    ScaleFits(precision);
  }

  lemma ScaleFits(precision: nat)
    requires precision <= 18
    ensures Pow10(precision) < TWO_63
  {
    Pow10Monotone(precision, 18);
    Pow18Fits();
  }

  lemma {:induction false} Pow10Monotone(a: nat, b: nat)
    requires a <= b
    ensures Pow10(a) <= Pow10(b)
  {
    if a < b {
      Pow10Monotone(a, b - 1);
    }
  }

  lemma Pow18Fits()
    ensures Pow10(18) < TWO_63
  {
    Pow10Sum(9, 9);
    Pow10Sum(3, 6);
    Pow10Sum(3, 3);
    assert Pow10(3) == 1000;
  }

  /**
   * Printing an amount with its own scale and reading it back is the identity, for amounts
   * strictly between -1 and 0 as well.
   */
  lemma PrintThenRead(v: int, scale: nat)
    requires Abs(v) < TWO_63
    ensures FromText(ToText(v, scale, scale, true), scale) == Ok(v)
  {
    ReadBackExactlyWhen(v, scale, scale);
  }

  /** With up to 18 decimals the reader finds the two parts of the amount and stays in 64 bits. */
  lemma PrintedTextStaysInInt64(v: int, scale: nat)
    requires Abs(v) < TWO_63 && scale <= 18
    ensures var body := Digits(Whole(v, scale)) + "." + Padded(Fraction(v, scale), scale);
            && IntegerPart(body) == Ok(Whole(v, scale))
            && FractionValue(FractionField(FractionText(body), scale)) == Ok(Fraction(v, scale))
    ensures StaysInInt64(Whole(v, scale), Fraction(v, scale), scale)
  {
    ReadsPrintedFraction(Fraction(v, scale), Whole(v, scale), scale);
    ScaleFits(scale);
  }

  lemma ReadsPrintedFraction(f: nat, d: nat, scale: nat)
    requires f < Pow10(scale) && d < TWO_63
    ensures var body := Digits(d) + "." + Padded(f, scale);
            && IntegerPart(body) == Ok(d)
            && FractionValue(FractionField(FractionText(body), scale)) == Ok(f)
  {
    var padded := Padded(f, scale);
    ReadsBody(d, padded, FractionField(padded, scale), scale);
    FieldShows(f, scale, scale, FractionField(padded, scale));
    if f > 0 {
      PaddedLength(f, scale, scale);
    }
  }

  /** Without the point, an amount printed with its own scale reads as a whole number of micro-units. */
  lemma PointlessTextIsTheNumber(v: int, scale: nat)
    requires Abs(v) < TWO_63 && scale >= 1
    ensures var digits := Digits(Whole(v, scale)) + Padded(Fraction(v, scale), scale);
            && ToText(v, scale, scale, false) == SignText(v) + digits
            && AllDigits(digits) && Value(digits) == Abs(v)
  {
    var d, f := Whole(v, scale), Fraction(v, scale);
    var padded := Padded(f, scale);
    ValueOfDigits(d);
    ValueOfPadded(f, scale);
    ValueConcat(Digits(d), padded);
    DigitsLength(f, scale);
    assert SignText(v) + Digits(d) + "" + padded == SignText(v) + (Digits(d) + padded);
  }

  /**
   * With fewer decimals than the scale and no point, different amounts can print alike: 550 and
   * 5.005 with six decimals, as option names print their strike prices.
   */
  lemma PointlessTextCollides()
    ensures ToText(550_000_000, 2, 6, false) == ToText(5_005_000, 2, 6, false) == "55000"
  {
    Pow10Sum(3, 3);
    assert Pow10(3) == 1000;
    WholeIs(550_000_000, 6, 550);
    WholeIs(5_005_000, 6, 5);
    assert Fraction(550_000_000, 6) == 0 && Fraction(5_005_000, 6) == 5_000;
    assert Digits(550) == Digits(55) + ['0'] == "550";
    assert Digits(500) == "500";
    assert Digits(5_000) == Digits(500) + ['0'] == "5000";
    assert Padded(0, 2) == "0" + "0" by {
      assert Zeros(1) == "0";
    }
  }

  lemma WholeIs(v: nat, scale: nat, w: nat)
    requires w * Pow10(scale) <= v < (w + 1) * Pow10(scale)
    ensures Whole(v, scale) == w
  {
    var q := Whole(v, scale);
    if q < w {
      ProductMonotone(q + 1, Pow10(scale), w, Pow10(scale));
    } else if q > w {
      ProductMonotone(w + 1, Pow10(scale), q, Pow10(scale));
    }
  }

  // ------------------------------------------------------------------------------ reading any text

  /**
   * How a text that can be read is laid out: a sign, behind it perhaps a second one, digits, and
   * perhaps a point with anything after it.
   */
  datatype Layout = Layout(negative: bool, second: bool, digits: string, point: bool, frac: string) {
    predicate Valid() {
      && AllDigits(digits) && (digits != "" || point)
      && (second ==> negative && digits != "")
      && (!point ==> frac == "")
    }

    function WholeText(): string {
      (if second then "-" else "") + digits
    }

    function Body(): string {
      WholeText() + if point then "." + frac else ""
    }

    function Text(): string {
      (if negative then "-" else "") + Body()
    }

    /** The characters after the point that count. */
    function Counting(precision: nat): string {
      if |frac| <= precision then frac else frac[..precision]
    }

    function WholeValue(): int
      requires Valid()
    {
      if second then -1 * Value(digits) else Value(digits)
    }

    /** The micro-units the text stands for: no digit beyond the precision counts, missing ones are 0. */
    function Amount(precision: nat): int
      requires Valid() && AllDigits(Counting(precision))
    {
      var decimals := Value(Counting(precision)) * Pow10(precision - |Counting(precision)|);
      var magnitude := WholeValue() * Pow10(precision) + decimals;
      if negative then -magnitude else magnitude
    }
  }

  lemma RunOfDigits(s: string)
    requires AllDigits(s)
    ensures DigitRun(s) == |s| && s[..|s|] == s
  {
    assert s[..|s|] == s;
  }

  lemma SignedDigitsRead(s: string, sign: string, digits: string, value: int)
    requires digits != "" && AllDigits(digits) && s == sign + digits
    requires (sign == "" && value == Value(digits)) || (sign == "-" && value == -1 * Value(digits))
    ensures FromChars(s) == if InInt64(value) then Ok(value) else Err(IntegerOverflow)
  {
    RunOfDigits(digits);
    assert s[|sign|..] == digits && s[|sign|] == digits[0];
    if sign == "" {
      assert s == digits && IsDigit(s[0]);
    }
  }

  lemma FromCharsReads(l: Layout)
    requires l.Valid() && l.digits != ""
    ensures FromChars(l.WholeText()) == if InInt64(l.WholeValue()) then Ok(l.WholeValue()) else Err(IntegerOverflow)
  {
    SignedDigitsRead(l.WholeText(), if l.second then "-" else "", l.digits, l.WholeValue());
  }

  lemma BodySplits(l: Layout)
    requires l.Valid()
    ensures FindDot(l.Body()) == |l.WholeText()| && l.Body()[..|l.WholeText()|] == l.WholeText()
    ensures FractionText(l.Body()) == l.frac
  {
    var w := l.WholeText();
    assert forall i :: 0 <= i < |w| ==> w[i] != '.';
    if l.point {
      assert l.Body() == w + "." + l.frac;
      FindDotAfter(w, l.frac);
      DotSplits(w, l.frac);
    } else {
      assert l.Body() == w;
    }
  }

  lemma WholeReads(l: Layout)
    requires l.Valid()
    ensures IntegerPart(l.Body()) == if InInt64(l.WholeValue()) then Ok(l.WholeValue()) else Err(IntegerOverflow)
  {
    BodySplits(l);
    if l.digits != "" {
      FromCharsReads(l);
    }
  }

  lemma SignReads(l: Layout, precision: nat)
    requires l.Valid()
    ensures FromText(l.Text(), precision) == FromBody(l.negative, l.Body(), precision)
  {
    var body := l.Body();
    assert body != "" && (!l.negative ==> body[0] != '-');
    assert ("-" + body)[1..] == body;
    assert "" + body == body;
  }

  lemma CountingIsField(l: Layout, precision: nat)
    ensures FractionField(l.frac, precision) == l.Counting(precision) + Zeros(precision - |l.Counting(precision)|)
  {
  }

  lemma DecimalsRead(counting: string, precision: nat, field: string)
    requires |counting| <= precision && field == counting + Zeros(precision - |counting|)
    ensures AllDigits(counting) ==>
      FractionValue(field) == Ok(Value(counting) * Pow10(precision - |counting|))
    ensures !AllDigits(counting) ==>
      var n := DigitRun(counting); n < |counting| && FractionValue(field) == Err(UnexpectedChar(counting[n]))
  {
    var zeros := Zeros(precision - |counting|);
    if AllDigits(counting) {
      ValueConcat(counting, zeros);
      ValueOfZeros(|zeros|);
      RunOfDigits(field);
    } else {
      var n := DigitRun(field);
      var i :| 0 <= i < |counting| && !IsDigit(counting[i]);
      assert field[i] == counting[i];
      assert n <= i && counting[n] == field[n];
      assert forall k :: 0 <= k < n ==> counting[..n][k] == field[k];
    }
  }

  lemma AmountIs(l: Layout, precision: nat, decimals: nat)
    requires l.Valid() && AllDigits(l.Counting(precision))
    requires decimals == Value(l.Counting(precision)) * Pow10(precision - |l.Counting(precision)|)
    ensures l.Amount(precision) == MicroUnits(l.negative, l.WholeValue(), decimals, precision)
  {
  }

  lemma BodyReads(l: Layout, precision: nat)
    requires l.Valid() && InInt64(l.WholeValue())
    ensures AllDigits(l.Counting(precision)) ==>
      FromBody(l.negative, l.Body(), precision) == Ok(l.Amount(precision))
    ensures !AllDigits(l.Counting(precision)) ==>
      var n := DigitRun(l.Counting(precision));
      && n < |l.Counting(precision)|
      && FromBody(l.negative, l.Body(), precision) == Err(UnexpectedChar(l.Counting(precision)[n]))
  {
    var field := FractionField(l.frac, precision);
    WholeReads(l);
    BodySplits(l);
    CountingIsField(l, precision);
    DecimalsRead(l.Counting(precision), precision, field);
    if AllDigits(l.Counting(precision)) {
      AmountIs(l, precision, FractionValue(field).value);
    }
  }

  /**
   * What reading a text of this layout gives: its amount, or an error if the whole part leaves
   * 64 bits, or if a character that counts is not a digit; the error names the first such.
   */
  lemma LayoutReads(l: Layout, precision: nat)
    requires l.Valid()
    ensures var r, n := FromText(l.Text(), precision), DigitRun(l.Counting(precision));
      && (!InInt64(l.WholeValue()) ==> r == Err(IntegerOverflow))
      && (InInt64(l.WholeValue()) && AllDigits(l.Counting(precision)) ==> r == Ok(l.Amount(precision)))
      && (InInt64(l.WholeValue()) && !AllDigits(l.Counting(precision)) ==>
            n < |l.Counting(precision)| && r == Err(UnexpectedChar(l.Counting(precision)[n])))
  {
    SignReads(l, precision);
    WholeReads(l);
    if InInt64(l.WholeValue()) {
      BodyReads(l, precision);
    }
  }

  /** The layout of a whole part that can be read. */
  lemma WholeHasLayout(s: string) returns (second: bool, digits: string)
    requires s == "" || FromChars(s).Ok?
    ensures s == (if second then "-" else "") + digits && AllDigits(digits)
    ensures (second <==> s != "" && s[0] == '-') && (digits == "" <==> s == "")
  {
    second := s != "" && s[0] == '-';
    digits := if second then s[1..] else s;
    if s != "" {
      assert DigitRun(digits) == |digits|;
    }
  }

  /** A text taken apart at its first point, if it has one. */
  lemma CutAtPoint(body: string) returns (whole: string, point: bool, frac: string)
    ensures body == whole + if point then "." + frac else ""
    ensures !point ==> frac == ""
    ensures whole == body[..FindDot(body)] && (whole != "" ==> whole[0] == body[0])
  {
    var dot := FindDot(body);
    whole, point := body[..dot], dot < |body|;
    frac := if point then body[dot + 1..] else "";
    if point {
      SplitAt(body, dot);
    }
  }

  lemma BodyHasLayout(negative: bool, body: string) returns (l: Layout)
    requires body != "" && IntegerPart(body).Ok? && (!negative ==> body[0] != '-')
    ensures l.Valid() && l.negative == negative && l.Body() == body
  {
    var whole, point, frac := CutAtPoint(body);
    var second, digits := WholeHasLayout(whole);
    l := Layout(negative, second, digits, point, frac);
  }

  /** Every text that can be read has such a layout, so the reader accepts nothing else. */
  lemma ReadTextHasLayout(text: string, precision: nat) returns (l: Layout)
    requires FromText(text, precision).Ok?
    ensures l.Valid() && l.Text() == text
    ensures InInt64(l.WholeValue()) && AllDigits(l.Counting(precision))
    ensures FromText(text, precision) == Ok(l.Amount(precision))
  {
    var negative := text[0] == '-';
    var body := if negative then text[1..] else text;
    assert text == (if negative then "-" else "") + body;
    l := BodyHasLayout(negative, body);
    LayoutReads(l, precision);
  }

  // ------------------------------------------------------------------------------ telling amounts apart

  /** Printed without the point, no two 64-bit amounts look alike. */
  ghost predicate PointlessTextsApart(precision: nat, scale: nat) {
    forall v, w :: Abs(v) < TWO_63 && Abs(w) < TWO_63 && Alike(v, w, precision, scale) ==> v == w
  }

  predicate Alike(v: int, w: int, precision: nat, scale: nat) {
    ToText(v, precision, scale, false) == ToText(w, precision, scale, false)
  }

  /** What follows the sign. */
  function Unsigned(v: int, precision: nat, scale: nat): string {
    Digits(Whole(v, scale)) + (if precision == 0 then "." else "") + Padded(Fraction(v, scale), precision)
  }

  lemma SignThenRest(v: int, precision: nat, scale: nat)
    ensures ToText(v, precision, scale, false) == SignText(v) + Unsigned(v, precision, scale)
    ensures var t := ToText(v, precision, scale, false); t != "" && (t[0] == '-' <==> v < 0)
  {
    var u := Unsigned(v, precision, scale);
    assert u[0] == Digits(Whole(v, scale))[0];
    var point := if precision == 0 then "." else "";
    var f := Padded(Fraction(v, scale), precision);
    assert SignText(v) + Digits(Whole(v, scale)) + point + f == SignText(v) + (Digits(Whole(v, scale)) + point + f);
  }

  /** The sign shows: no text without a sign starts with one. */
  lemma SignShows(v: int, w: int, precision: nat, scale: nat)
    requires Alike(v, w, precision, scale)
    ensures v < 0 <==> w < 0
    ensures Unsigned(v, precision, scale) == Unsigned(w, precision, scale)
  {
    SignThenRest(v, precision, scale);
    SignThenRest(w, precision, scale);
    SplitsAlike(SignText(v), Unsigned(v, precision, scale), SignText(w), Unsigned(w, precision, scale));
  }

  /** Equal texts with heads, or tails, of one length have equal heads and tails. */
  lemma SplitsAlike(a: string, b: string, c: string, d: string)
    requires a + b == c + d && (|a| == |c| || |b| == |d|)
    ensures a == c && b == d
  {
    assert (a + b)[..|a|] == a && (c + d)[..|c|] == c;
    assert (a + b)[|a|..] == b && (c + d)[|c|..] == d;
  }

  lemma PartsTell(v: int, w: int, precision: nat, scale: nat)
    requires Digits(Whole(v, scale)) == Digits(Whole(w, scale))
    requires Padded(Fraction(v, scale), precision) == Padded(Fraction(w, scale), precision)
    requires v < 0 <==> w < 0
    ensures v == w
  {
    ValueOfDigits(Whole(v, scale));
    ValueOfDigits(Whole(w, scale));
    PaddedInjective(Fraction(v, scale), Fraction(w, scale), precision);
  }

  /** At precision 0 the point is not erased. */
  lemma PointTells(a: string, b: string, c: string, d: string)
    requires AllDigits(a) && AllDigits(c) && a + "." + b == c + "." + d
    ensures a == c && b == d
  {
    FindDotAfter(a, b);
    FindDotAfter(c, d);
    DotSplits(a, b);
    DotSplits(c, d);
  }

  /** With at least as many decimals as the scale every fraction takes up exactly the precision. */
  lemma FullFraction(f: nat, precision: nat, scale: nat)
    requires f < Pow10(scale) && 1 <= precision && scale <= precision
    ensures |Padded(f, precision)| == precision
  {
    Pow10Monotone(scale, precision);
    DigitsLength(f, precision);
  }

  /** With 18 decimals or more a 64-bit amount has a single digit before the point. */
  lemma OneDigitWhole(v: int, scale: nat)
    requires Abs(v) < TWO_63 && scale >= 18
    ensures |Digits(Whole(v, scale))| == 1
  {
    Pow10Monotone(18, scale);
    Pow18Is();
    if Whole(v, scale) >= 10 {
      ProductMonotone(10, Pow10(18), Whole(v, scale), Pow10(scale));
    }
  }

  lemma Pow18Is()
    ensures Pow10(17) == 100_000_000_000_000_000 && Pow10(18) == 10 * Pow10(17)
  {
    Pow10Sum(3, 3);
    Pow10Sum(6, 3);
    Pow10Sum(9, 3);
    Pow10Sum(12, 3);
    Pow10Sum(15, 2);
    assert Pow10(3) == 1000;
    assert Pow10(2) == 100;
  }

  lemma TextsApart(v: int, w: int, precision: nat, scale: nat)
    requires Abs(v) < TWO_63 && Abs(w) < TWO_63 && Alike(v, w, precision, scale)
    requires precision == 0 || precision >= scale || scale >= 18
    ensures v == w
  {
    var a, b := Digits(Whole(v, scale)), Padded(Fraction(v, scale), precision);
    var c, d := Digits(Whole(w, scale)), Padded(Fraction(w, scale), precision);
    SignShows(v, w, precision, scale);
    if precision == 0 {
      PointTells(a, b, c, d);
    } else {
      assert a + "" + b == a + b && c + "" + d == c + d;
      if precision >= scale {
        FullFraction(Fraction(v, scale), precision, scale);
        FullFraction(Fraction(w, scale), precision, scale);
      } else {
        OneDigitWhole(v, scale);
        OneDigitWhole(w, scale);
      }
      SplitsAlike(a, b, c, d);
    }
    PartsTell(v, w, precision, scale);
  }

  lemma {:induction false} DigitsOfPow10(p: nat)
    ensures Digits(Pow10(p)) == "1" + Zeros(p)
  {
    if p == 0 {
      assert Digits(1) == "1";
    } else {
      DigitsOfPow10(p - 1);
      assert Pow10(p) == 10 * Pow10(p - 1) && Pow10(p) / 10 == Pow10(p - 1) && Pow10(p) % 10 == 0;
      assert Zeros(p) == Zeros(p - 1) + "0";
    }
  }

  lemma PartsAre(v: nat, scale: nat, whole: nat, fraction: nat)
    requires v == whole * Pow10(scale) + fraction && fraction < Pow10(scale)
    ensures Whole(v, scale) == whole && Fraction(v, scale) == fraction
  {
    WholeIs(v, scale, whole);
  }

  lemma ElevenUnits(precision: nat, scale: nat)
    requires precision > 0
    ensures ToText(11 * Pow10(scale), precision, scale, false) == "11" + Zeros(precision)
  {
    PartsAre(11 * Pow10(scale), scale, 11, 0);
    PaddedZero(precision);
  }

  lemma LongFraction(precision: nat)
    requires precision > 0
    ensures Padded(Pow10(precision), precision) == "1" + Zeros(precision)
  {
    DigitsOfPow10(precision);
  }

  lemma BitParts(precision: nat, scale: nat, v: nat)
    requires precision < scale && v == Pow10(scale) + Pow10(precision)
    ensures Whole(v, scale) == 1 && Fraction(v, scale) == Pow10(precision)
  {
    Pow10Strict(precision, scale);
    PartsAre(v, scale, 1, Pow10(precision));
  }

  lemma BitTexts(precision: nat, scale: nat, v: nat)
    requires 0 < precision < scale && v == Pow10(scale) + Pow10(precision)
    ensures Digits(Whole(v, scale)) == "1"
    ensures Padded(Fraction(v, scale), precision) == "1" + Zeros(precision)
  {
    BitParts(precision, scale, v);
    LongFraction(precision);
  }

  lemma OneUnitAndABit(precision: nat, scale: nat, v: nat)
    requires 0 < precision < scale && v == Pow10(scale) + Pow10(precision)
    ensures ToText(v, precision, scale, false) == "11" + Zeros(precision)
  {
    BitTexts(precision, scale, v);
    var head, tail := Digits(Whole(v, scale)), Padded(Fraction(v, scale), precision);
  }

  lemma BitAndElevenAlike(precision: nat, scale: nat, v: nat, w: nat)
    requires 0 < precision < scale && v == Pow10(scale) + Pow10(precision) && w == 11 * Pow10(scale)
    ensures Alike(v, w, precision, scale)
  {
    OneUnitAndABit(precision, scale, v);
    ElevenUnits(precision, scale);
  }

  lemma BitAndElevenFit(precision: nat, scale: nat, v: nat, w: nat)
    requires precision < scale < 18 && v == Pow10(scale) + Pow10(precision) && w == 11 * Pow10(scale)
    ensures v < w < TWO_63
  {
    Pow10Strict(precision, scale);
    Pow10Monotone(scale, 17);
    Pow18Is();
  }

  /** Below 18 decimals, with fewer printed: one unit and 10^precision micro-units look like eleven units. */
  lemma TextsCollide(precision: nat, scale: nat, v: nat, w: nat)
    requires 0 < precision < scale < 18
    requires v == Pow10(scale) + Pow10(precision) && w == 11 * Pow10(scale)
    ensures v < w < TWO_63 && Alike(v, w, precision, scale)
  {
    BitAndElevenFit(precision, scale, v, w);
    BitAndElevenAlike(precision, scale, v, w);
  }

  lemma PaddedZero(p: nat)
    requires p > 0
    ensures Padded(0, p) == Zeros(p)
  {
    assert Digits(0) == "0";
    if p > 1 {
      assert Zeros(p) == Zeros(p - 1) + "0";
    } else {
      assert Zeros(1) == "0";
    }
  }

  lemma Pow10Strict(a: nat, b: nat)
    requires a < b
    ensures Pow10(a) < Pow10(b)
  {
    Pow10Monotone(a + 1, b);
  }

  /**
   * Without the point, 64-bit amounts are told apart by their text exactly when no decimals are
   * printed (the point is kept then), when all of them are, or when there are 18 or more.
   */
  lemma PointlessTextsApartExactlyWhen(precision: nat, scale: nat)
    ensures PointlessTextsApart(precision, scale) <==> precision == 0 || precision >= scale || scale >= 18
  {
    if precision == 0 || precision >= scale || scale >= 18 {
      forall v, w | Abs(v) < TWO_63 && Abs(w) < TWO_63 && Alike(v, w, precision, scale)
        ensures v == w
      {
        TextsApart(v, w, precision, scale);
      }
    } else {
      var v, w := Pow10(scale) + Pow10(precision), 11 * Pow10(scale);
      TextsCollide(precision, scale, v, w);
    }
  }
}
