/** Floating point numbers as the canonical descriptor text prints them. */
module FloatText {
  import opened JsonText
  import opened Sequences

  /** A floating point number by its shortest round-trip digits: 0.digits * 10^(exp + 1). */
  datatype Float = Zero(negative: bool) | NonFinite | Finite(negative: bool, digits: string, exp: int)

  predicate FloatOk(f: Float) { f.Finite? ==> f.digits != [] && IsDigits(f.digits) && f.digits[0] != '0' }

  function Pow10(e: int): real
    decreases if e < 0 then -e else e
  {
    if e == 0 then 1.0 else if e > 0 then 10.0 * Pow10(e - 1) else Pow10(e + 1) / 10.0
  }

  /** The decimal m * 10^scale. */
  datatype Scaled = Scaled(m: nat, scale: int)

  function ToReal(d: Scaled): real { d.m as real * Pow10(d.scale) }

  /** The magnitude of a finite number. */
  function Magnitude(digits: string, exp: int): Scaled
    requires IsDigits(digits)
  {
    Scaled(DigitsValue(digits), exp + 1 - |digits|)
  }

  function Value(f: Float): real
    requires FloatOk(f)
  {
    if !f.Finite? then 0.0
    else if f.negative then -ToReal(Magnitude(f.digits, f.exp))
    else ToReal(Magnitude(f.digits, f.exp))
  }

  // ---------- Printing ----------

  function Zeros(n: int): (s: string)
    ensures |s| == (if n < 0 then 0 else n) && IsDigits(s) && forall i :: 0 <= i < |s| ==> s[i] == '0'
  {
    seq(if n < 0 then 0 else n, _ => '0')
  }

  /** Positional notation; `e10` is the place of the decimal point in the digits. */
  function Plain(digits: string, e10: int): string
  {
    if e10 <= 0 then "0." + Zeros(-e10) + digits
    else if e10 >= |digits| then digits + Zeros(e10 - |digits|)
    else digits[..e10] + "." + digits[e10..]
  }

  function MantissaText(digits: string): string { if |digits| > 1 then digits[..1] + "." + digits[1..] else digits }

  function ExponentText(e: int): string { if e < 0 then "e-" + Digits(-e) else "e+" + Digits(e) }

  lemma DigitsLength(n: nat)
    ensures |Digits(n)| == 1 <==> n < 10
    ensures |Digits(n)| == 2 <==> 10 <= n < 100
  {
    if n >= 10 {
      assert |Digits(n)| == |Digits(n / 10)| + 1;
      assert |Digits(n / 10)| == 1 <==> n / 10 < 10;
    }
  }

  /** Exponents are not padded: they have two digits exactly from 10 to 99. */
  lemma ExponentWidth(e: int)
    ensures |ExponentText(e)| == 4 <==> 10 <= e < 100 || -100 < e <= -10
    ensures ExponentText(-7) == "e-7"
  {
    DigitsLength(if e < 0 then -e else e);
    assert Digits(7) == "7";
  }

  /** Exponent notation: one digit before the point. */
  function Scientific(digits: string, e10: int): string { MantissaText(digits) + ExponentText(e10 - 1) }

  predicate UsesPlain(digits: string, exp: int)
    requires IsDigits(digits)
  {
    Pow10(-6) <= ToReal(Magnitude(digits, exp)) < Pow10(21)
  }

  function Print(f: Float): string
    requires FloatOk(f)
  {
    match f
    case Zero(negative) => if negative then "-0" else "0"
    case NonFinite => "0"
    case Finite(negative, digits, exp) =>
      (if negative then "-" else "")
        + if UsesPlain(digits, exp) then Plain(digits, exp + 1) else Scientific(digits, exp + 1)
  }

  method PushZeros(out: string, n: nat) returns (r: string)
    ensures r == out + Zeros(n)
  {
    r := out;
    for i := 0 to n
      invariant r == out + Zeros(i)
    {
      r := r + ['0'];
    }
  }

  method PushPlain(sign: string, digits: string, e10: int) returns (out: string)
    ensures out == sign + Plain(digits, e10)
  {
    if e10 <= 0 {
      out := PushZeros(sign + "0.", -e10);
      out := out + digits;
      assert out == sign + ("0." + Zeros(-e10) + digits);
    } else if e10 >= |digits| {
      out := PushZeros(sign + digits, e10 - |digits|);
      assert out == sign + (digits + Zeros(e10 - |digits|));
    } else {
      out := sign + digits[..e10];
      out := out + ".";
      out := out + digits[e10..];
      assert out == sign + (digits[..e10] + "." + digits[e10..]);
    }
  }

  method PushMantissa(sign: string, digits: string) returns (out: string)
    requires digits != []
    ensures out == sign + MantissaText(digits)
  {
    out := sign + digits[..1];
    if |digits| > 1 {
      out := out + ".";
      out := out + digits[1..];
    }
  }

  method PushScientific(sign: string, digits: string, e10: int) returns (out: string)
    requires digits != []
    ensures out == sign + Scientific(digits, e10)
  {
    out := PushMantissa(sign, digits);
    var exponent := ExponentText(e10 - 1);
    Regroup(sign, MantissaText(digits), exponent);
    out := out + exponent;
  }

  /** `go_json_f64`, from the digits and exponent of the shortest scientific form. */
  method GoJsonF64(f: Float) returns (out: string)
    requires FloatOk(f)
    ensures out == Print(f)
  {
    if f.Zero? {
      return if f.negative then "-0" else "0";
    }
    if f.NonFinite? {
      return "0";
    }
    out := PushFinite(if f.negative then "-" else "", f.digits, f.exp + 1, UsesPlain(f.digits, f.exp));
  }

  method PushFinite(sign: string, digits: string, e10: int, plain: bool) returns (out: string)
    requires digits != []
    ensures out == sign + if plain then Plain(digits, e10) else Scientific(digits, e10)
  {
    if plain {
      out := PushPlain(sign, digits, e10);
    } else {
      out := PushScientific(sign, digits, e10);
    }
  }

  // ---------- Reading a number back ----------

  /** A reader of number texts: the digits of mantissa and exponent so far, how many of the former
      stand behind the point, and which part is being read. */
  datatype Reader = Reader(digits: string, frac: nat, point: bool, exponent: bool, minus: bool, expDigits: string)

  function Step(r: Reader, c: char): Reader
  {
    if IsDigit(c) then
      (if r.exponent then r.(expDigits := r.expDigits + [c])
       else r.(digits := r.digits + [c], frac := if r.point then r.frac + 1 else r.frac))
    else if c == '.' then r.(point := true)
    else if c == 'e' then r.(exponent := true)
    else if c == '-' then r.(minus := true)
    else r
  }

  function ReadAll(s: string): (r: Reader)
    ensures IsDigits(r.digits) && IsDigits(r.expDigits)
  {
    if s == [] then Reader("", 0, false, false, false, "") else Step(ReadAll(s[..|s| - 1]), s[|s| - 1])
  }

  function Amount(r: Reader): Scaled
    requires IsDigits(r.digits) && IsDigits(r.expDigits)
  {
    var e: int := DigitsValue(r.expDigits);
    Scaled(DigitsValue(r.digits), (if r.minus then -e else e) - r.frac)
  }

  /** The number that a JSON number text denotes. */
  function NumberValue(s: string): real
  {
    if s != [] && s[0] == '-' then -ToReal(Amount(ReadAll(s[1..]))) else ToReal(Amount(ReadAll(s)))
  }

  lemma ReadSnoc(a: string, c: char)
    ensures ReadAll(a + [c]) == Step(ReadAll(a), c)
  {
    assert (a + [c])[..|a|] == a;
  }

  /** The reader after further digits, which join the part being read. */
  function Extended(r: Reader, d: string): Reader
  {
    if r.exponent then r.(expDigits := r.expDigits + d)
    else r.(digits := r.digits + d, frac := if r.point then r.frac + |d| else r.frac)
  }

  lemma ExtendStep(r: Reader, front: string, c: char)
    requires IsDigit(c)
    ensures Step(Extended(r, front), c) == Extended(r, front + [c])
  {
    assert r.digits + front + [c] == r.digits + (front + [c]);
    assert r.expDigits + front + [c] == r.expDigits + (front + [c]);
  }

  lemma {:induction false} ReadDigits(a: string, d: string)
    requires IsDigits(d)
    ensures ReadAll(a + d) == Extended(ReadAll(a), d)
  {
    if d == [] {
      assert a + d == a;
      var r := ReadAll(a);
      assert r.digits + d == r.digits && r.expDigits + d == r.expDigits;
    } else {
      var front, c := d[..|d| - 1], d[|d| - 1];
      ReadDigits(a, front);
      assert d == front + [c];
      Regroup(a, front, [c]);
      ReadSnoc(a + front, c);
      ExtendStep(ReadAll(a), front, c);
    }
  }

  lemma ReadWhole(d: string)
    requires IsDigits(d)
    ensures ReadAll(d) == Reader(d, 0, false, false, false, "")
  {
    ReadDigits("", d);
    ExtendedDigits(d);
    assert "" + d == d;
  }

  lemma ExtendedDigits(d: string)
    ensures Extended(Reader("", 0, false, false, false, ""), d) == Reader(d, 0, false, false, false, "")
  {
    assert "" + d == d;
  }

  lemma ReadPointed(whole: string, frac: string)
    requires IsDigits(whole) && IsDigits(frac)
    ensures ReadAll(whole + "." + frac) == Reader(whole + frac, |frac|, true, false, false, "")
  {
    ReadWhole(whole);
    ReadSnoc(whole, '.');
    ReadDigits(whole + ".", frac);
  }

  lemma {:induction false} LeadingZeros(n: nat, s: string)
    requires IsDigits(s)
    ensures DigitsValue(Zeros(n) + s) == DigitsValue(s)
  {
    if s == [] {
      assert Zeros(n) + s == Zeros(n);
      ValueOfZeros(n);
    } else {
      var t := Zeros(n) + s;
      assert t[..|t| - 1] == Zeros(n) + s[..|s| - 1];
      LeadingZeros(n, s[..|s| - 1]);
    }
  }

  lemma {:induction false} ValueOfZeros(n: nat)
    ensures DigitsValue(Zeros(n)) == 0
  {
    if n > 0 {
      assert Zeros(n)[..n - 1] == Zeros(n - 1);
      ValueOfZeros(n - 1);
    }
  }

  lemma TimesTen(m: nat, e: nat)
    requires e > 0
    ensures ToReal(Scaled(m, e)) == 10.0 * ToReal(Scaled(m, e - 1))
  {
    var p := Pow10(e - 1);
    assert Pow10(e) == 10.0 * p;
    assert m as real * (10.0 * p) == 10.0 * (m as real * p);
  }

  lemma Unscaled(m: nat)
    ensures ToReal(Scaled(m, 0)) == m as real
  {
    assert Pow10(0) == 1.0;
  }

  lemma {:induction false} TrailingZeros(s: string, n: nat)
    requires IsDigits(s)
    ensures DigitsValue(s + Zeros(n)) as real == ToReal(Scaled(DigitsValue(s), n))
  {
    if n == 0 {
      assert s + Zeros(0) == s;
      Unscaled(DigitsValue(s));
    } else {
      var t := s + Zeros(n);
      assert t[..|t| - 1] == s + Zeros(n - 1) && t[|t| - 1] == '0';
      TrailingZeros(s, n - 1);
      TimesTen(DigitsValue(s), n);
    }
  }

  lemma ZeroInFront(k: nat, digits: string)
    requires IsDigits(digits)
    ensures DigitsValue("0" + (Zeros(k) + digits)) == DigitsValue(digits)
  {
    assert "0" + (Zeros(k) + digits) == Zeros(k + 1) + digits;
    LeadingZeros(k + 1, digits);
  }

  lemma TextBelowOne(zeros: string, digits: string)
    ensures "0." + zeros + digits == "0" + "." + (zeros + digits)
  {
  }

  lemma Rejoined(digits: string, k: nat)
    requires k <= |digits|
    ensures digits[..k] + digits[k..] == digits
  {
  }

  lemma ReadPlain(digits: string, e10: int)
    requires IsDigits(digits)
    ensures ReadAll(Plain(digits, e10)) ==
            if e10 <= 0 then Reader("0" + (Zeros(-e10) + digits), |digits| - e10, true, false, false, "")
            else if e10 >= |digits| then Reader(digits + Zeros(e10 - |digits|), 0, false, false, false, "")
            else Reader(digits, |digits| - e10, true, false, false, "")
  {
    if e10 <= 0 {
      TextBelowOne(Zeros(-e10), digits);
      ReadPointed("0", Zeros(-e10) + digits);
    } else if e10 >= |digits| {
      ReadWhole(digits + Zeros(e10 - |digits|));
    } else {
      ReadPointed(digits[..e10], digits[e10..]);
      Rejoined(digits, e10);
    }
  }

  lemma ScaleUp(digits: string, n: nat)
    requires IsDigits(digits)
    ensures ToReal(Scaled(DigitsValue(digits + Zeros(n)), 0)) == ToReal(Scaled(DigitsValue(digits), n))
  {
    TrailingZeros(digits, n);
    Unscaled(DigitsValue(digits + Zeros(n)));
  }

  /** With a digit behind the point, the text reads back as the same decimal. */
  lemma PlainWithPoint(digits: string, exp: int)
    requires IsDigits(digits) && (exp + 1 <= 0 || exp + 1 < |digits|)
    ensures Amount(ReadAll(Plain(digits, exp + 1))) == Magnitude(digits, exp)
  {
    ReadPlain(digits, exp + 1);
    if exp + 1 <= 0 {
      ZeroInFront(-exp - 1, digits);
    }
  }

  /** Without one, it reads back as the digits shifted by the zeros. */
  lemma PlainWithoutPoint(digits: string, exp: int)
    requires IsDigits(digits) && exp + 1 > 0 && exp + 1 >= |digits|
    ensures Amount(ReadAll(Plain(digits, exp + 1))) == Scaled(DigitsValue(digits + Zeros(exp + 1 - |digits|)), 0)
  {
    ReadPlain(digits, exp + 1);
  }

  /** Positional notation keeps the value, for every digit string and every place of the point. */
  lemma PlainKeepsValue(digits: string, exp: int)
    requires IsDigits(digits)
    ensures ToReal(Amount(ReadAll(Plain(digits, exp + 1)))) == ToReal(Magnitude(digits, exp))
  {
    if exp + 1 <= 0 || exp + 1 < |digits| {
      PlainWithPoint(digits, exp);
    } else {
      PlainWithoutPoint(digits, exp);
      ScaleUp(digits, exp + 1 - |digits|);
    }
  }

  lemma ReadMantissa(digits: string)
    requires IsDigits(digits) && digits != []
    ensures var m := MantissaText(digits);
            ReadAll(m) == Reader(digits, |digits| - 1, |digits| > 1, false, false, "")
  {
    if |digits| > 1 {
      ReadPointed(digits[..1], digits[1..]);
      Rejoined(digits, 1);
    } else {
      ReadWhole(digits);
    }
  }

  lemma ReadSign(m: string, sign: char)
    requires sign == '-' || sign == '+'
    requires !ReadAll(m).minus
    ensures ReadAll(m + ['e'] + [sign]) == ReadAll(m).(exponent := true, minus := sign == '-')
  {
    ReadSnoc(m, 'e');
    ReadSnoc(m + ['e'], sign);
  }

  lemma ReadExponent(head: string, d: string)
    requires IsDigits(d) && ReadAll(head).exponent && ReadAll(head).expDigits == ""
    ensures ReadAll(head + d) == ReadAll(head).(expDigits := d)
  {
    ReadDigits(head, d);
    ExtendedExponent(ReadAll(head), d);
  }

  lemma ExtendedExponent(r: Reader, d: string)
    requires r.exponent && r.expDigits == ""
    ensures Extended(r, d) == r.(expDigits := d)
  {
    assert "" + d == d;
  }

  lemma ExponentSplit(m: string, e: int)
    ensures m + ExponentText(e) == (m + ['e'] + [if e < 0 then '-' else '+']) + Digits(if e < 0 then -e else e)
  {
  }

  lemma ReadScientific(m: string, e: int)
    requires !ReadAll(m).minus && ReadAll(m).expDigits == ""
    ensures ReadAll(m + ExponentText(e)) ==
            ReadAll(m).(exponent := true, minus := e < 0, expDigits := Digits(if e < 0 then -e else e))
  {
    var sign := if e < 0 then '-' else '+';
    ExponentSplit(m, e);
    ReadSign(m, sign);
    ReadExponent(m + ['e'] + [sign], Digits(if e < 0 then -e else e));
  }

  lemma AmountOfScientific(r: Reader, digits: string, e: int)
    requires IsDigits(digits) && digits != []
    requires r.digits == digits && r.frac == |digits| - 1
    requires r.minus == (e < 0) && r.expDigits == Digits(if e < 0 then -e else e)
    ensures Amount(r) == Magnitude(digits, e)
  {
    ValueOfDigits(if e < 0 then -e else e);
  }

  /** Exponent notation keeps the value, for every digit string and exponent. */
  lemma ScientificKeepsValue(digits: string, exp: int)
    requires digits != [] && IsDigits(digits)
    ensures Amount(ReadAll(Scientific(digits, exp + 1))) == Magnitude(digits, exp)
  {
    var m := MantissaText(digits);
    ReadMantissa(digits);
    ReadScientific(m, exp);
    AmountOfScientific(ReadAll(m + ExponentText(exp)), digits, exp);
  }

  lemma ZeroTexts()
    ensures NumberValue("0") == 0.0 && NumberValue("-0") == 0.0
  {
    ReadWhole("0");
    assert "-0"[1..] == "0";
    assert "0"[..0] == [];
    assert DigitsValue("0") == 0;
  }

  lemma SignedBody(body: string, negative: bool)
    requires body != [] && body[0] != '-'
    ensures NumberValue((if negative then "-" else "") + body) ==
            if negative then -ToReal(Amount(ReadAll(body))) else ToReal(Amount(ReadAll(body)))
  {
    assert ("-" + body)[1..] == body && "" + body == body;
  }

  lemma NoSignInside(digits: string, e10: int)
    requires digits != [] && IsDigits(digits)
    ensures Plain(digits, e10) != [] && Plain(digits, e10)[0] != '-'
    ensures Scientific(digits, e10) != [] && Scientific(digits, e10)[0] != '-'
  {
    assert IsDigit(digits[0]);
    assert MantissaText(digits)[0] == digits[0];
  }

  /** The printed text denotes the number, whichever notation is chosen. */
  lemma PrintKeepsValue(f: Float)
    requires FloatOk(f)
    ensures NumberValue(Print(f)) == Value(f)
  {
    if !f.Finite? {
      ZeroTexts();
    } else {
      FiniteKeepsValue(f.digits, f.exp, f.negative, UsesPlain(f.digits, f.exp));
    }
  }

  lemma FiniteKeepsValue(digits: string, exp: int, negative: bool, plain: bool)
    requires digits != [] && IsDigits(digits)
    ensures var body := if plain then Plain(digits, exp + 1) else Scientific(digits, exp + 1);
            var value := ToReal(Magnitude(digits, exp));
            NumberValue((if negative then "-" else "") + body) == if negative then -value else value
  {
    NoSignInside(digits, exp + 1);
    if plain {
      PlainKeepsValue(digits, exp);
      SignedBody(Plain(digits, exp + 1), negative);
    } else {
      ScientificKeepsValue(digits, exp);
      SignedBody(Scientific(digits, exp + 1), negative);
    }
  }

  lemma PlainAlphabet(digits: string, e10: int)
    requires IsDigits(digits)
    ensures NumberText(Plain(digits, e10))
  {
    assert NumberText("0.") && NumberText(".") && NumberText(digits);
  }

  lemma ScientificAlphabet(digits: string, e10: int)
    requires IsDigits(digits)
    ensures NumberText(Scientific(digits, e10))
  {
    assert NumberText(MantissaText(digits));
    assert NumberText(ExponentText(e10 - 1));
  }

  lemma PrintAlphabet(f: Float)
    requires FloatOk(f)
    ensures NumberText(Print(f))
  {
    if f.Finite? {
      PlainAlphabet(f.digits, f.exp + 1);
      ScientificAlphabet(f.digits, f.exp + 1);
    }
  }

  // ---------- The shape of a printed number ----------

  /** The parts of a JSON number: no superfluous leading zero, digits behind a point, an exponent with its sign. */
  predicate JsonNumber(whole: string, fraction: string, exponent: string)
  {
    && (whole == "0" || (whole != [] && IsDigits(whole) && whole[0] != '0'))
    && (fraction == "" || (|fraction| > 1 && fraction[0] == '.' && IsDigits(fraction[1..])))
    && (exponent == "" ||
        (|exponent| > 2 && exponent[0] == 'e' && (exponent[1] == '+' || exponent[1] == '-') && IsDigits(exponent[2..])))
  }

  lemma PlainShape(digits: string, e10: int) returns (whole: string, fraction: string)
    requires digits != [] && IsDigits(digits) && digits[0] != '0'
    ensures Plain(digits, e10) == whole + fraction && JsonNumber(whole, fraction, "")
    ensures |fraction| == if e10 >= |digits| then 0 else 1 + |digits| - e10
  {
    if e10 <= 0 {
      whole, fraction := "0", "." + (Zeros(-e10) + digits);
      assert fraction[1..] == Zeros(-e10) + digits;
      assert "0." + Zeros(-e10) + digits == "0" + ("." + (Zeros(-e10) + digits));
    } else if e10 >= |digits| {
      whole, fraction := digits + Zeros(e10 - |digits|), "";
    } else {
      whole, fraction := digits[..e10], "." + digits[e10..];
      assert fraction[1..] == digits[e10..];
    }
  }

  lemma ScientificShape(digits: string, e10: int) returns (fraction: string, exponent: string)
    requires digits != [] && IsDigits(digits) && digits[0] != '0'
    ensures Scientific(digits, e10) == digits[..1] + fraction + exponent && |exponent| > 2
    ensures exponent[2] != '0' || |exponent| == 3
    ensures |fraction| == if |digits| == 1 then 0 else |digits|
    ensures JsonNumber(digits[..1], fraction, exponent)
  {
    fraction := if |digits| > 1 then "." + digits[1..] else "";
    exponent := ExponentText(e10 - 1);
    assert |digits| > 1 ==> fraction[1..] == digits[1..];
    assert exponent[2..] == Digits(if e10 - 1 < 0 then -(e10 - 1) else e10 - 1);
    NoLeadingZero(if e10 - 1 < 0 then -(e10 - 1) else e10 - 1);
    assert MantissaText(digits) == digits[..1] + fraction;
  }

  lemma PowersOfThree(e: int)
    ensures e >= 0 ==> Pow10(e + 3) == 1000.0 * Pow10(e)
    ensures e <= 0 ==> Pow10(e - 3) == Pow10(e) / 1000.0
  {
    if e >= 0 {
      assert Pow10(e + 3) == 10.0 * Pow10(e + 2) && Pow10(e + 2) == 10.0 * Pow10(e + 1);
      assert Pow10(e + 1) == 10.0 * Pow10(e);
    }
    if e <= 0 {
      assert Pow10(e - 3) == Pow10(e - 2) / 10.0 && Pow10(e - 2) == Pow10(e - 1) / 10.0;
      assert Pow10(e - 1) == Pow10(e) / 10.0;
    }
  }

  lemma Bounds()
    ensures Pow10(-6) == 0.000001 && Pow10(21) == 1000000000000000000000.0
  {
    PowersOfThree(0);
    PowersOfThree(-3);
    PowersOfThree(3);
    PowersOfThree(6);
    PowersOfThree(9);
    PowersOfThree(12);
    PowersOfThree(15);
    PowersOfThree(18);
  }

  /** A printed number is a JSON number: a minus sign exactly for negative ones, an exponent exactly for magnitudes
      below one millionth or from 10^21 on, no superfluous digit; what is not finite prints as zero. */
  lemma PrintShape(f: Float) returns (whole: string, fraction: string, exponent: string)
    requires FloatOk(f)
    ensures Print(f) == (if !f.NonFinite? && f.negative then "-" else "") + (whole + fraction + exponent)
    ensures JsonNumber(whole, fraction, exponent)
    ensures !f.Finite? ==> whole == "0" && fraction == "" && exponent == ""
    ensures f.Finite? ==>
              var v := if f.negative then -Value(f) else Value(f);
              exponent == "" <==> 0.000001 <= v < 1000000000000000000000.0
    ensures f.Finite? && exponent == "" ==>
              |fraction| == if f.exp + 1 >= |f.digits| then 0 else |f.digits| - f.exp
    ensures f.Finite? && exponent != "" ==>
              && |whole| == 1 && |fraction| == (if |f.digits| == 1 then 0 else |f.digits|)
              && (exponent[2] != '0' || |exponent| == 3)
  {
    if !f.Finite? {
      whole, fraction, exponent := "0", "", "";
      assert "-" + ("0" + "" + "") == "-0" && "" + ("0" + "" + "") == "0";
    } else {
      NotationChoice(f);
      whole, fraction, exponent := FiniteShape(f.digits, f.exp + 1, UsesPlain(f.digits, f.exp));
    }
  }

  lemma NotationChoice(f: Float)
    requires FloatOk(f) && f.Finite?
    ensures var v := if f.negative then -Value(f) else Value(f);
            UsesPlain(f.digits, f.exp) <==> 0.000001 <= v < 1000000000000000000000.0
  {
    Bounds();
  }

  lemma FiniteShape(digits: string, e10: int, plain: bool) returns (whole: string, fraction: string, exponent: string)
    requires digits != [] && IsDigits(digits) && digits[0] != '0'
    ensures whole + fraction + exponent == (if plain then Plain(digits, e10) else Scientific(digits, e10))
    ensures JsonNumber(whole, fraction, exponent) && (exponent == "" <==> plain)
    ensures plain ==> |fraction| == if e10 >= |digits| then 0 else 1 + |digits| - e10
    ensures !plain ==>
              && |whole| == 1 && |fraction| == (if |digits| == 1 then 0 else |digits|)
              && (exponent[2] != '0' || |exponent| == 3)
  {
    if plain {
      whole, fraction := PlainShape(digits, e10);
      exponent := "";
      assert whole + fraction + "" == whole + fraction;
    } else {
      fraction, exponent := ScientificShape(digits, e10);
      whole := digits[..1];
    }
  }
}
