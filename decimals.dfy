/**
 * Finite decimal numbers as Python's decimal module represents them: a sign,
 * the coefficient's digits and an exponent. The ledger stores amounts as such
 * numbers, compares them exactly, renders them with str() inside the hash
 * payload, and keeps them in a column of fixed precision.
 */
module Decimals {
  import Delimited

  /** The value is (-1)^negative * coefficient * 10^exponent. Leading zeros of
      the coefficient are never kept, so the coefficient is a natural number. */
  datatype Decimal = Decimal(negative: bool, coefficient: nat, exponent: int)

  function Pow10(n: nat): (p: nat)
    ensures p >= 1
  {
    if n == 0 then 1 else 10 * Pow10(n - 1)
  }

  function Signed(d: Decimal): int
  {
    if d.negative then -(d.coefficient as int) else d.coefficient
  }

  /** `x` times 10^e, as an exact rational, one factor of ten at a time. */
  function Shifted(x: real, e: int): real
    decreases if e >= 0 then e else -e
  {
    if e == 0 then x
    else if e > 0 then 10.0 * Shifted(x, e - 1)
    else Shifted(x, e + 1) / 10.0
  }

  /** The exact number a decimal stands for. */
  function Value(d: Decimal): real
  {
    Shifted(Signed(d) as real, d.exponent)
  }

  /** Moving one factor of ten from the exponent into the number. */
  lemma {:induction false} ShiftedStep(x: real, e: int)
    ensures Shifted(x, e + 1) == Shifted(10.0 * x, e)
    decreases if e >= 0 then e else -e
  {
    if e > 0 {
      ShiftedStep(x, e - 1);
    } else if e < -1 {
      ShiftedStep(x, e + 1);
    }
  }

  lemma {:induction false} ShiftedOrder(x: real, y: real, e: int)
    requires x < y
    ensures Shifted(x, e) < Shifted(y, e)
    decreases if e >= 0 then e else -e
  {
    if e > 0 {
      ShiftedOrder(x, y, e - 1);
    } else if e < 0 {
      ShiftedOrder(x, y, e + 1);
    }
  }

  /** The signed coefficient of `d` rewritten for the smaller exponent `e`. */
  function Aligned(d: Decimal, e: int): int
    requires e <= d.exponent
  {
    Signed(d) * Pow10(d.exponent - e)
  }

  lemma {:induction false} ShiftedPow(n: int, e: int, k: nat)
    ensures Shifted(n as real, e + k) == Shifted((n * Pow10(k)) as real, e)
    decreases k
  {
    if k > 0 {
      ShiftedStep(n as real, e + k - 1);
      assert (10 * n) as real == 10.0 * n as real;
      ShiftedPow(10 * n, e, k - 1);
      assert 10 * n * Pow10(k - 1) == n * Pow10(k);
    }
  }

  lemma AlignedValue(d: Decimal, e: int)
    requires e <= d.exponent
    ensures Shifted(Aligned(d, e) as real, e) == Value(d)
  {
    ShiftedPow(Signed(d), e, d.exponent - e);
  }

  /** Numeric comparison of two decimals (Python's `<`, `==`, `>` on Decimal):
      both are brought to the smaller exponent and their integers compared. */
  function Compare(a: Decimal, b: Decimal): (c: int)
    ensures c == -1 || c == 0 || c == 1
    ensures c < 0 <==> Value(a) < Value(b)
    ensures c == 0 <==> Value(a) == Value(b)
    ensures c > 0 <==> Value(a) > Value(b)
  {
    var e := if a.exponent <= b.exponent then a.exponent else b.exponent;
    var x, y := Aligned(a, e), Aligned(b, e);
    AlignedValue(a, e);
    AlignedValue(b, e);
    if x < y then
      ShiftedOrder(x as real, y as real, e);
      -1
    else if x == y then
      0
    else
      ShiftedOrder(y as real, x as real, e);
      1
  }

  // ----- str(): the text a decimal renders to -----

  function DigitChar(n: nat): char
    requires n < 10
  {
    "0123456789"[n]
  }

  /** The decimal digits of `n`, without leading zeros ("0" for zero). */
  function NatToString(n: nat): (s: string)
    ensures |s| >= 1
  {
    if n < 10 then [DigitChar(n)] else NatToString(n / 10) + [DigitChar(n % 10)]
  }

  function Zeros(n: nat): (s: string)
    ensures |s| == n
  {
    if n == 0 then "" else "0" + Zeros(n - 1)
  }

  /** An integer with an explicit sign, as "%+d" writes it. */
  function SignedToString(i: int): string
  {
    if i < 0 then "-" + NatToString(-i) else "+" + NatToString(i)
  }

  /** Where str() puts the decimal point, counted in digits from the left:
      plain notation when the exponent is not positive and the number is not
      too small, one digit before the point (scientific notation) otherwise. */
  function DotPlace(digits: string, exponent: int): int
  {
    var leftDigits := exponent + |digits|;
    if exponent <= 0 && leftDigits > -6 then leftDigits else 1
  }

  /** The digits str() writes before the point. */
  function IntPart(digits: string, dotPlace: int): string
  {
    if dotPlace <= 0 then "0"
    else if dotPlace >= |digits| then digits + Zeros(dotPlace - |digits|)
    else digits[..dotPlace]
  }

  /** The point and the digits after it, or nothing. */
  function FracPart(digits: string, dotPlace: int): string
  {
    if dotPlace <= 0 then "." + Zeros(-dotPlace) + digits
    else if dotPlace >= |digits| then ""
    else "." + digits[dotPlace..]
  }

  /** "E" and the power of ten left over once the point is placed, or nothing. */
  function ExpPart(shift: int): string
  {
    if shift == 0 then "" else "E" + SignedToString(shift)
  }

  /** str() of the decimal with this sign, coefficient digits and exponent. */
  function Written(negative: bool, digits: string, exponent: int): string
  {
    var dotPlace := DotPlace(digits, exponent);
    (if negative then "-" else "") + IntPart(digits, dotPlace) + FracPart(digits, dotPlace)
      + ExpPart(exponent + |digits| - dotPlace)
  }

  /** Python's str() of a finite Decimal. */
  function Render(d: Decimal): string
  {
    Written(d.negative, NatToString(d.coefficient), d.exponent)
  }

  // ----- reading rendered text back -----

  predicate IsDigits(s: string)
  {
    forall i :: 0 <= i < |s| ==> '0' <= s[i] <= '9'
  }

  function DigitValue(c: char): nat
  {
    if '0' <= c <= '9' then c as int - '0' as int else 0
  }

  /** The number a string of decimal digits spells. */
  function DigitsValue(s: string): nat
  {
    if s == [] then 0 else DigitsValue(s[..|s| - 1]) * 10 + DigitValue(s[|s| - 1])
  }

  /** The integer a "%+d" text spells. */
  function SignedValue(t: string): int
  {
    if |t| > 0 && t[0] == '-' then -(DigitsValue(t[1..]) as int)
    else if |t| > 0 && t[0] == '+' then DigitsValue(t[1..])
    else DigitsValue(t)
  }

  /** The decimal a text in str()'s notation spells: an optional '-', digits
      with an optional point, an optional "E" and signed power of ten. The
      coefficient is all digits read as one number and the exponent is the
      power of ten less the digits after the point. Text of another shape
      also gives some decimal; only what str() writes is read faithfully. */
  function FromText(s: string): Decimal
  {
    if |s| > 0 && s[0] == '-' then ReadUnsigned(true, s[1..]) else ReadUnsigned(false, s)
  }

  /** The decimal of the given sign whose digits, point and exponent `body`
      spells. */
  function ReadUnsigned(negative: bool, body: string): Decimal
  {
    var halves := Delimited.Split(body, 'E');
    var mantissa := Delimited.Split(halves[0], '.');
    var fraction := if |mantissa| > 1 then mantissa[1] else "";
    var shift := if |halves| > 1 then SignedValue(halves[1]) else 0;
    Decimal(negative, DigitsValue(mantissa[0] + fraction), shift - |fraction|)
  }

  lemma DigitCharValue(n: nat)
    requires n < 10
    ensures '0' <= DigitChar(n) <= '9' && DigitValue(DigitChar(n)) == n
  {
  }

  lemma {:induction false} NatToStringDigits(n: nat)
    ensures IsDigits(NatToString(n))
  {
    if n < 10 {
      DigitCharValue(n);
    } else {
      NatToStringDigits(n / 10);
      DigitCharValue(n % 10);
    }
  }

  /** The digits of `n` spell `n`. */
  lemma {:induction false} NatToStringValue(n: nat)
    ensures DigitsValue(NatToString(n)) == n
  {
    DigitCharValue(n % 10);
    if n >= 10 {
      var s := NatToString(n);
      assert s[..|s| - 1] == NatToString(n / 10);
      NatToStringValue(n / 10);
    } else {
      assert NatToString(n)[..0] == [];
    }
  }

  lemma {:induction false} ZerosDigits(n: nat)
    ensures IsDigits(Zeros(n))
  {
    if n > 0 {
      ZerosDigits(n - 1);
    }
  }

  /** A leading zero does not change the number. */
  lemma {:induction false} LeadingZero(s: string)
    ensures DigitsValue("0" + s) == DigitsValue(s)
  {
    if s != [] {
      assert ("0" + s)[..|"0" + s| - 1] == "0" + s[..|s| - 1];
      LeadingZero(s[..|s| - 1]);
    }
  }

  lemma {:induction false} LeadingZeros(k: nat, s: string)
    ensures DigitsValue(Zeros(k) + s) == DigitsValue(s)
  {
    if k > 0 {
      assert Zeros(k) + s == "0" + (Zeros(k - 1) + s);
      LeadingZero(Zeros(k - 1) + s);
      LeadingZeros(k - 1, s);
    } else {
      assert Zeros(k) + s == s;
    }
  }

  lemma SignedToStringValue(i: int)
    ensures SignedValue(SignedToString(i)) == i
    ensures 'E' !in SignedToString(i) && '|' !in SignedToString(i)
  {
    var m: nat := if i < 0 then -i else i;
    NatToStringValue(m);
    NatToStringDigits(m);
    assert SignedToString(i)[1..] == NatToString(m);
  }

  /** The digits str() writes around the point are the coefficient's digits,
      with leading zeros when the point comes first, and as many of them
      follow the point as the point is placed before the end. */
  lemma PiecesSpell(digits: string, dotPlace: int)
    requires IsDigits(digits) && dotPlace <= |digits|
    ensures |IntPart(digits, dotPlace)| >= 1 && IsDigits(IntPart(digits, dotPlace))
    ensures var fracPart := FracPart(digits, dotPlace);
      fracPart == "" || (fracPart == "." + fracPart[1..] && IsDigits(fracPart[1..]))
    ensures var fracPart := FracPart(digits, dotPlace);
      var fraction := if fracPart == "" then "" else fracPart[1..];
      && DigitsValue(IntPart(digits, dotPlace) + fraction) == DigitsValue(digits)
      && |fraction| == |digits| - dotPlace
  {
    if dotPlace <= 0 {
      PointFirst(digits, -dotPlace);
    } else if dotPlace >= |digits| {
      assert IntPart(digits, dotPlace) == digits;
    } else {
      PointInside(digits, dotPlace);
    }
  }

  lemma PointFirst(digits: string, zeros: nat)
    requires IsDigits(digits)
    ensures IntPart(digits, -(zeros as int)) == "0"
    ensures FracPart(digits, -(zeros as int)) == "." + (Zeros(zeros) + digits)
    ensures IsDigits(Zeros(zeros) + digits)
    ensures DigitsValue("0" + (Zeros(zeros) + digits)) == DigitsValue(digits)
  {
    ZerosDigits(zeros);
    LeadingZero(Zeros(zeros) + digits);
    LeadingZeros(zeros, digits);
  }

  lemma PointInside(digits: string, dotPlace: nat)
    requires IsDigits(digits) && 0 < dotPlace < |digits|
    ensures IntPart(digits, dotPlace) == digits[..dotPlace]
    ensures FracPart(digits, dotPlace) == "." + digits[dotPlace..]
    ensures digits[..dotPlace] + digits[dotPlace..] == digits
  {
  }

  /** Digits hold neither separator nor point nor exponent mark. */
  lemma DigitsPlain(s: string)
    requires IsDigits(s)
    ensures '.' !in s && 'E' !in s && '|' !in s
  {
  }

  /** Cutting the digits and point at '.' gives the digits before it and
      the digits after it. */
  lemma MantissaSplit(intPart: string, fracPart: string)
    requires IsDigits(intPart)
    requires fracPart == "" || (fracPart == "." + fracPart[1..] && IsDigits(fracPart[1..]))
    ensures 'E' !in intPart + fracPart
    ensures var parts := Delimited.Split(intPart + fracPart, '.');
      && parts[0] == intPart
      && (if |parts| > 1 then parts[1] else "") == (if fracPart == "" then "" else fracPart[1..])
  {
    DigitsPlain(intPart);
    if fracPart == "" {
      assert intPart + fracPart == intPart;
      Delimited.SplitWhole(intPart, '.');
    } else {
      var fraction := fracPart[1..];
      DigitsPlain(fraction);
      assert intPart + fracPart == intPart + ['.'] + fraction;
      Delimited.SplitAfterField(intPart, '.', fraction);
      Delimited.SplitWhole(fraction, '.');
    }
  }

  /** Cutting at 'E' gives the mantissa and the power of ten. */
  lemma ExponentSplit(mantissa: string, shift: int)
    requires 'E' !in mantissa
    ensures var halves := Delimited.Split(mantissa + ExpPart(shift), 'E');
      && halves[0] == mantissa
      && (if |halves| > 1 then SignedValue(halves[1]) else 0) == shift
  {
    SignedToStringValue(shift);
    if shift == 0 {
      assert mantissa + ExpPart(shift) == mantissa;
      Delimited.SplitWhole(mantissa, 'E');
    } else {
      assert mantissa + ExpPart(shift) == mantissa + ['E'] + SignedToString(shift);
      Delimited.SplitAfterField(mantissa, 'E', SignedToString(shift));
      Delimited.SplitWhole(SignedToString(shift), 'E');
    }
  }

  /** Text in str()'s notation is read back as the sign, the digits on both
      sides of the point as one number, and the power of ten less the digits
      after the point. */
  lemma FromTextPieces(negative: bool, intPart: string, fracPart: string, shift: int, coefficient: nat, exponent: int)
    requires |intPart| >= 1 && IsDigits(intPart)
    requires fracPart == "" || (fracPart == "." + fracPart[1..] && IsDigits(fracPart[1..]))
    requires var fraction := if fracPart == "" then "" else fracPart[1..];
      DigitsValue(intPart + fraction) == coefficient && shift - |fraction| == exponent
    ensures ReadUnsigned(negative, intPart + fracPart + ExpPart(shift)) == Decimal(negative, coefficient, exponent)
  {
    MantissaSplit(intPart, fracPart);
    ExponentSplit(intPart + fracPart, shift);
  }

  /** A leading '-' is the sign; text that starts with a digit is positive. */
  lemma SignRead(negative: bool, intPart: string, fracPart: string, expPart: string)
    requires |intPart| >= 1 && '0' <= intPart[0] <= '9'
    ensures FromText((if negative then "-" else "") + intPart + fracPart + expPart)
      == ReadUnsigned(negative, intPart + fracPart + expPart)
  {
    var s := (if negative then "-" else "") + intPart + fracPart + expPart;
    if negative {
      assert s[1..] == intPart + fracPart + expPart;
    } else {
      assert s == intPart + fracPart + expPart;
    }
  }

  /** Text made of a sign, digits, an optional point and digits, and an
      optional exponent is read back as the decimal those pieces spell. */
  lemma ReadPieces(negative: bool, intPart: string, fracPart: string, shift: int,
                   coefficient: nat, exponent: int, text: string)
    requires |intPart| >= 1 && IsDigits(intPart)
    requires fracPart == "" || (fracPart == "." + fracPart[1..] && IsDigits(fracPart[1..]))
    requires var fraction := if fracPart == "" then "" else fracPart[1..];
      DigitsValue(intPart + fraction) == coefficient && shift - |fraction| == exponent
    requires text == (if negative then "-" else "") + intPart + fracPart + ExpPart(shift)
    ensures FromText(text) == Decimal(negative, coefficient, exponent)
  {
    SignRead(negative, intPart, fracPart, ExpPart(shift));
    FromTextPieces(negative, intPart, fracPart, shift, coefficient, exponent);
  }

  /** What str() writes is the sign, the digits before the point, the point
      and the digits after it (if any), and the exponent (if any); the digits
      spell the coefficient and the exponent less the digits after the point
      is the decimal's exponent. */
  lemma WrittenPieces(negative: bool, digits: string, exponent: int)
    returns (intPart: string, fracPart: string, shift: int)
    requires IsDigits(digits) && |digits| >= 1
    ensures |intPart| >= 1 && IsDigits(intPart)
    ensures fracPart == "" || (fracPart == "." + fracPart[1..] && IsDigits(fracPart[1..]))
    ensures var fraction := if fracPart == "" then "" else fracPart[1..];
      DigitsValue(intPart + fraction) == DigitsValue(digits) && shift - |fraction| == exponent
    ensures Written(negative, digits, exponent) == (if negative then "-" else "") + intPart + fracPart + ExpPart(shift)
  {
    var dotPlace := DotPlace(digits, exponent);
    intPart, fracPart, shift := IntPart(digits, dotPlace), FracPart(digits, dotPlace), exponent + |digits| - dotPlace;
    PiecesSpell(digits, dotPlace);
  }

  /** Reading back what str() writes for a sign, digits and exponent gives
      that sign, the number the digits spell and that exponent. */
  lemma WrittenRead(negative: bool, digits: string, exponent: int)
    requires IsDigits(digits) && |digits| >= 1
    ensures FromText(Written(negative, digits, exponent)) == Decimal(negative, DigitsValue(digits), exponent)
  {
    var intPart, fracPart, shift := WrittenPieces(negative, digits, exponent);
    ReadPieces(negative, intPart, fracPart, shift, DigitsValue(digits), exponent, Written(negative, digits, exponent));
  }

  /** Reading back what str() writes gives the same decimal: str() loses
      nothing of sign, coefficient or exponent. */
  lemma FromTextRender(d: Decimal)
    ensures FromText(Render(d)) == d
  {
    NatToStringDigits(d.coefficient);
    NatToStringValue(d.coefficient);
    WrittenRead(d.negative, NatToString(d.coefficient), d.exponent);
  }

  /** Different decimals render differently. */
  lemma RenderInjective(a: Decimal, b: Decimal)
    requires Render(a) == Render(b)
    ensures a == b
  {
    FromTextRender(a);
    FromTextRender(b);
  }

  /** Text made of a sign, digits, a point and an exponent has no '|'. */
  lemma PiecesPlain(negative: bool, intPart: string, fracPart: string, shift: int, text: string)
    requires IsDigits(intPart)
    requires fracPart == "" || (fracPart == "." + fracPart[1..] && IsDigits(fracPart[1..]))
    requires text == (if negative then "-" else "") + intPart + fracPart + ExpPart(shift)
    ensures '|' !in text
  {
    DigitsPlain(intPart);
    if fracPart != "" {
      DigitsPlain(fracPart[1..]);
    }
    SignedToStringValue(shift);
  }

  /** What str() writes is digits, a sign, a point and an exponent, never the
      '|' separator. */
  lemma WrittenPlain(negative: bool, digits: string, exponent: int)
    requires IsDigits(digits) && |digits| >= 1
    ensures '|' !in Written(negative, digits, exponent)
  {
    var intPart, fracPart, shift := WrittenPieces(negative, digits, exponent);
    PiecesPlain(negative, intPart, fracPart, shift, Written(negative, digits, exponent));
  }

  /** Rendered text never holds the '|' separator. */
  lemma RenderPlain(d: Decimal)
    ensures '|' !in Render(d)
  {
    NatToStringDigits(d.coefficient);
    WrittenPlain(d.negative, NatToString(d.coefficient), d.exponent);
  }

  // ----- a decimal column of fixed precision -----

  /** How many digits a decimal has in all, counted as a fixed-precision
      decimal column's validator counts them. */
  function TotalDigits(d: Decimal): nat
  {
    var n := |NatToString(d.coefficient)|;
    if d.exponent >= 0 then n + (if d.coefficient != 0 then d.exponent else 0)
    else if -d.exponent > n then -d.exponent
    else n
  }

  /** How many digits a decimal has after the point. */
  function DecimalPlaces(d: Decimal): nat
  {
    if d.exponent >= 0 then 0 else -d.exponent
  }

  /** The value as a column of `places` fractional digits stores and returns it:
      the same number, padded to exactly `places` digits after the point. */
  function Quantize(d: Decimal, places: nat): (q: Decimal)
    requires DecimalPlaces(d) <= places
    ensures q.exponent == -(places as int)
    ensures Value(q) == Value(d)
  {
    var q := Decimal(d.negative, d.coefficient * Pow10(d.exponent + places), -(places as int));
    AlignedValue(d, -(places as int));
    assert Signed(q) == Aligned(d, -(places as int));
    q
  }
}
