/**
 * The policy checks a transaction must pass before it is written: an amount
 * strictly above zero and at most one million, and a currency that is one
 * of three supported codes in any letter case.
 */
module Validators {
  import opened Wrappers
  import opened Decimals

  /** The currencies a transaction may be in. */
  const SupportedCurrencies: set<string> := {"USD", "EUR", "GBP"}

  /** The ceiling on a single transaction's amount: 1000000.00. */
  const MaxTransactionAmount: Decimal := Decimal(false, 100000000, -2)

  /** The integer zero that amounts are compared with. */
  const Zero: Decimal := Decimal(false, 0, 0)

  /** The reason a policy check raises, one per message of the source. */
  datatype ValidationError = AmountMalformed | AmountNotPositive | AmountOverLimit | CurrencyUnsupported

  /** Reads an amount from the text of the raw value. `parse` is the decimal
      module's constructor on text: a decimal, or nothing where it raises.
      Any failure to read becomes the "not a valid decimal" error. */
  function ParseAmount(parse: string -> Option<Decimal>, raw: string): (r: Result<Decimal, ValidationError>)
    ensures r.Ok? <==> parse(raw).Some?
    ensures r.Ok? ==> r.value == parse(raw).value
    ensures r.Err? ==> r.error == AmountMalformed
  {
    match parse(raw)
    case None => Err(AmountMalformed)
    case Some(amount) => Ok(amount)
  }

  /** An amount that already is a decimal comes back unchanged: its str()
      text, read as the decimal constructor reads such text, is the same
      decimal. */
  lemma ParseAmountOfDecimal(parse: string -> Option<Decimal>, amount: Decimal)
    requires parse(Render(amount)) == Some(FromText(Render(amount)))
    ensures ParseAmount(parse, Render(amount)) == Ok(amount)
  {
    FromTextRender(amount);
  }

  /** Accepts an amount above zero and not above the ceiling; the first
      failing bound decides the error. */
  function ValidateAmount(amount: Decimal): (r: Outcome<ValidationError>)
    ensures r == Pass <==> 0.0 < Value(amount) <= 1000000.0
    ensures r == Fail(AmountNotPositive) <==> Value(amount) <= 0.0
    ensures r == Fail(AmountOverLimit) <==> Value(amount) > 1000000.0
  {
    assert Value(Zero) == 0.0;
    assert Value(MaxTransactionAmount) == 1000000.0;
    if Compare(amount, Zero) <= 0 then Fail(AmountNotPositive)
    else if Compare(amount, MaxTransactionAmount) > 0 then Fail(AmountOverLimit)
    else Pass
  }

  // ----- letter case -----

  /** Upper-casing of one character, for the ASCII letters only. */
  function UpperChar(c: char): char
  {
    if 'a' <= c <= 'z' then (c as int - 32) as char else c
  }

  /** Upper-casing of a string, character by character. */
  function Upper(s: string): string
  {
    if s == [] then [] else [UpperChar(s[0])] + Upper(s[1..])
  }

  lemma {:induction false} UpperAt(s: string, i: nat)
    requires i < |s|
    ensures |Upper(s)| == |s| && Upper(s)[i] == UpperChar(s[i])
  {
    UpperLength(s);
    if i > 0 {
      UpperAt(s[1..], i - 1);
    }
  }

  lemma {:induction false} UpperLength(s: string)
    ensures |Upper(s)| == |s|
  {
    if s != [] {
      UpperLength(s[1..]);
    }
  }

  /** Upper-casing twice is upper-casing once. */
  lemma {:induction false} UpperIdempotent(s: string)
    ensures Upper(Upper(s)) == Upper(s)
  {
    if s != [] {
      var u := Upper(s);
      assert u[1..] == Upper(s[1..]);
      UpperIdempotent(s[1..]);
    }
  }

  /** `c` spells the code `code` letter by letter, each letter in either case. */
  predicate SpellsIgnoringCase(c: string, code: string)
  {
    && |c| == |code|
    && forall i :: 0 <= i < |c| ==>
         c[i] == code[i] || ('A' <= code[i] <= 'Z' && c[i] as int == code[i] as int + 32)
  }

  /** For a code made of capital letters, upper-casing a string gives the
      code exactly when the string spells it in any mix of cases. */
  lemma UpperSpells(c: string, code: string)
    requires forall i :: 0 <= i < |code| ==> 'A' <= code[i] <= 'Z'
    ensures Upper(c) == code <==> SpellsIgnoringCase(c, code)
  {
    UpperLength(c);
    if Upper(c) == code {
      forall i | 0 <= i < |c|
        ensures c[i] == code[i] || c[i] as int == code[i] as int + 32
      {
        UpperAt(c, i);
      }
    }
    if SpellsIgnoringCase(c, code) {
      forall i | 0 <= i < |c|
        ensures Upper(c)[i] == code[i]
      {
        UpperAt(c, i);
      }
    }
  }

  /** Accepts a currency whose upper-cased form is supported. */
  function ValidateCurrency(currency: string): (r: Outcome<ValidationError>)
    ensures r.Pass? <==>
      SpellsIgnoringCase(currency, "USD") || SpellsIgnoringCase(currency, "EUR") || SpellsIgnoringCase(currency, "GBP")
    ensures r.Fail? ==> r.error == CurrencyUnsupported
  {
    UpperSpells(currency, "USD");
    UpperSpells(currency, "EUR");
    UpperSpells(currency, "GBP");
    if Upper(currency) in SupportedCurrencies then Pass else Fail(CurrencyUnsupported)
  }

  /** The currency check ignores letter case: a currency and its upper-cased
      form are accepted or refused together. */
  lemma CurrencyCaseInsensitive(currency: string)
    ensures ValidateCurrency(Upper(currency)) == ValidateCurrency(currency)
  {
    UpperIdempotent(currency);
  }

  /** Every supported code is already upper-case. */
  lemma SupportedAreUpper(code: string)
    requires code in SupportedCurrencies
    ensures Upper(code) == code
  {
  }

  /** The boundary cases of both checks. */
  lemma ValidatorExamples()
    ensures ValidateAmount(Decimal(false, 100000000, -2)) == Pass              // 1000000.00
    ensures ValidateAmount(Decimal(false, 100000001, -2)) == Fail(AmountOverLimit)   // 1000000.01
    ensures ValidateAmount(Decimal(false, 1, -2)) == Pass                      // 0.01
    ensures ValidateAmount(Zero) == Fail(AmountNotPositive)                    // 0
    ensures ValidateAmount(Decimal(true, 500, -2)) == Fail(AmountNotPositive)  // -5.00
    ensures ValidateCurrency("usd") == Pass
    ensures ValidateCurrency("gBp") == Pass
    ensures ValidateCurrency("XXX") == Fail(CurrencyUnsupported)
  {
    assert Value(Decimal(false, 100000001, -2)) == 1000000.01;
    assert Value(Decimal(false, 1, -2)) == 0.01;
    assert Value(Decimal(true, 500, -2)) == -5.0;
    assert SpellsIgnoringCase("usd", "USD");
    assert SpellsIgnoringCase("gBp", "GBP");
  }
}
