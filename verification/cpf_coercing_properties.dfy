/** What the coercing `validaCPF` of engenharia-software/src/cpf.js promises:
    it agrees with src/cpf.js on every string, it validates numbers through
    their decimal rendering (so leading zeros cannot be expressed by an
    integer), and it rejects the other non-string values the tests try. */
module CpfCoercingProperties {
  import opened JsText
  import opened JsValues
  import Cpf
  import CpfProperties
  import opened CpfCoercing

  /** On strings the two validators coincide: the whitelists differ only on
      the empty string, which both reject (one by `+`, the other by the length
      test). */
  lemma AgreesOnStrings(s: string)
    ensures ValidaCpf(Str(s)) == Cpf.ValidaCpf(Str(s))
  {
    if s == "" {
      assert Digits(s) == "";
    }
  }

  /** On every value the coercing validator is: not `null` or `undefined`,
      a rendering of only digits, `.`, `-` and whitespace, and digits that form
      a CPF number by the textbook rule. */
  lemma CoercingIsTextbookRule(v: JsValue)
    ensures ValidaCpf(v) <==>
      && !v.Null? && !v.Undefined?
      && Cpf.OnlyFormatChars(ToJsString(v))
      && CpfProperties.IsCpfNumber(Digits(ToJsString(v)))
  {
    CpfProperties.PassesChecksIsCpfNumber(Digits(ToJsString(v)));
  }

  /** A number is accepted exactly when the decimal digits of its magnitude
      form a CPF number. */
  lemma NumberIsTextbookRule(n: SafeInteger)
    ensures ValidaCpf(Num(n)) <==> CpfProperties.IsCpfNumber(Decimal(if n < 0 then -n else n))
  {
    NumberDigits(n);
    CoercingIsTextbookRule(Num(n));
  }

  /** The digits of a number's rendering are its decimal digits: the sign
      contributes none. */
  lemma NumberDigits(n: SafeInteger)
    ensures Digits(ToJsString(Num(n))) == Decimal(if n < 0 then -n else n)
    ensures Cpf.OnlyFormatChars(ToJsString(Num(n)))
  {
    var d := Decimal(if n < 0 then -n else n);
    DigitsOfDigits(d);
    if n < 0 {
      var e: string := [];
      assert ToJsString(Num(n)) == e + ['-'] + d;
      DigitsSkipNonDigit(e, '-', d);
      assert e + d == d;
    }
  }

  /** An integer is accepted only if its magnitude has exactly eleven decimal
      digits; in particular every integer of twelve or more digits is rejected. */
  lemma NumberNeedsElevenDigits(n: SafeInteger)
    ensures ValidaCpf(Num(n)) ==> Pow10(10) <= (if n < 0 then -n else n) < Pow10(11)
  {
    NumberDigits(n);
    DecimalHasElevenDigits(if n < 0 then -n else n);
  }

  /** No integer renders to digits with a leading zero, so a CPF such as
      "01234567890" cannot be passed as an integer. */
  lemma LeadingZeroNotExpressible(n: SafeInteger)
    ensures |Digits(ToJsString(Num(n)))| == 11 ==> Digits(ToJsString(Num(n)))[0] != '0'
  {
    NumberDigits(n);
  }

  /** The leading `-` of a negative number is a whitelisted separator, so a
      number and its negation get the same verdict. */
  lemma SignIgnored(n: SafeInteger)
    ensures ValidaCpf(Num(n)) == ValidaCpf(Num(-n))
  {
    NumberDigits(n);
    NumberDigits(-n);
  }

  lemma DecimalOfVector(n: nat)
    requires n == 12345678909
    ensures Decimal(n) == "12345678909"
  {
    var k1 := 1;
    assert Decimal(k1) == "1";
    DecimalAppend(k1, 2); var k2 := 10 * k1 + 2;
    DecimalAppend(k2, 3); var k3 := 10 * k2 + 3;
    DecimalAppend(k3, 4); var k4 := 10 * k3 + 4;
    DecimalAppend(k4, 5); var k5 := 10 * k4 + 5;
    DecimalAppend(k5, 6); var k6 := 10 * k5 + 6;
    DecimalAppend(k6, 7); var k7 := 10 * k6 + 7;
    DecimalAppend(k7, 8); var k8 := 10 * k7 + 8;
    DecimalAppend(k8, 9); var k9 := 10 * k8 + 9;
    DecimalAppend(k9, 0); var k10 := 10 * k9 + 0;
    DecimalAppend(k10, 9); var k11 := 10 * k10 + 9;
    assert k11 == n;
  }

  /** `validaCPF(12345678909)` is true, as tests/cpf.test.js expects; so is the
      negated number. */
  lemma NumberVectors(n: SafeInteger)
    requires n == 12345678909
    ensures ValidaCpf(Num(n)) && ValidaCpf(Num(-n))
  {
    var s := Decimal(n);
    DecimalOfVector(n);
    NumberDigits(n);
    CpfProperties.PlainVector(s);
    AgreesOnStrings(s);
    DigitsOfDigits(s);
    assert Cpf.OnlyFormatChars(s) && Cpf.PassesChecks(Digits(s));
    SignIgnored(n);
  }

  /** `{}` renders as "[object Object]" and fails the whitelist; `[]` renders
      as the empty string, which passes it but has no digits. */
  lemma ObjectAndEmptyArrayRejected()
    ensures !ValidaCpf(Obj)
    ensures !ValidaCpf(Arr([]))
    ensures !ValidaCpf(Bool(true)) && !ValidaCpf(Bool(false))
  {
    assert !Cpf.IsFormatChar(ToJsString(Obj)[1]);
    assert ToJsString(Arr([])) == "";
    assert !Cpf.IsFormatChar(ToJsString(Bool(true))[0]);
    assert !Cpf.IsFormatChar(ToJsString(Bool(false))[0]);
  }

  /** A one-element array renders as its element, so it gets the element's
      verdict; `[[x]]` likewise. */
  lemma SingletonArrayIsElement(v: JsValue)
    requires !v.Null? && !v.Undefined?
    ensures ValidaCpf(Arr([v])) == ValidaCpf(v)
    ensures ValidaCpf(Arr([Arr([v])])) == ValidaCpf(v)
  {
    assert ToJsString(Arr([v])) == ToJsString(v);
    assert ToJsString(Arr([Arr([v])])) == ToJsString(Arr([v]));
  }

  /** The check as written lets arrays through: `[12345678909]` and
      `["123.456.789-09"]` render as valid CPFs and are accepted, although the
      comment at engenharia-software/src/cpf.js:13 says every value that is
      neither a string nor a number is invalid. The type test it announces
      rejects both. */
  lemma ArraysAcceptedAsWritten(n: SafeInteger, t: string)
    requires n == 12345678909 && t == "123.456.789-09"
    ensures ValidaCpf(Arr([Num(n)])) && ValidaCpf(Arr([Str(t)]))
    ensures !ValidaCpfEstrito(Arr([Num(n)])) && !ValidaCpfEstrito(Arr([Str(t)]))
  {
    NumberVectors(n);
    SingletonArrayIsElement(Num(n));
    CpfProperties.FullFormatVector(t);
    AgreesOnStrings(t);
    SingletonArrayIsElement(Str(t));
  }

  /** The type-tested validator accepts exactly the strings and numbers whose
      rendering is whitelisted and whose digits form a textbook CPF number; on
      strings it agrees with src/cpf.js. */
  lemma EstritoIsTextbookRule(v: JsValue)
    ensures ValidaCpfEstrito(v) <==>
      && (v.Str? || v.Num?)
      && Cpf.OnlyFormatChars(ToJsString(v))
      && CpfProperties.IsCpfNumber(Digits(ToJsString(v)))
    ensures v.Str? ==> ValidaCpfEstrito(v) == Cpf.ValidaCpf(v)
  {
    CoercingIsTextbookRule(v);
    if v.Str? {
      AgreesOnStrings(v.s);
    }
  }
}
