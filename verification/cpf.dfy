/** `validaCPF` of src/cpf.js: the string-only CPF validator. Every step after
    the type test (the clean-up, the length and repetition tests and the two
    mod-11 check digits) is shared with the coercing variant of
    engenharia-software/src/cpf.js, and module `CpfCoercing` reuses it. */
module Cpf {
  import opened JsText
  import opened JsValues

  /** The class `[0-9.\-\s]` of the whitelist: digits, `.`, `-` and whitespace. */
  predicate IsFormatChar(c: char) {
    IsDigit(c) || c == '.' || c == '-' || IsWhitespace(c)
  }

  predicate OnlyFormatChars(s: string) {
    forall k :: 0 <= k < |s| ==> IsFormatChar(s[k])
  }

  /** The sum `calcularDigito` accumulates: the multiplier starts at
      `|ds| + 1` for the leftmost digit and drops by one per digit, so the
      rightmost digit is weighted 2. */
  function WeightedSum(ds: string): nat
    requires AllDigits(ds)
  {
    if |ds| == 0 then 0 else DigitValue(ds[0]) * (|ds| + 1) + WeightedSum(ds[1..])
  }

  /** `calcularDigito`: `(sum * 10) % 11`, with a remainder of 10 mapped to 0. */
  function CheckDigit(ds: string): (d: nat)
    requires AllDigits(ds)
    ensures d <= 9
  {
    var resto := (WeightedSum(ds) * 10) % 11;
    if resto == 10 then 0 else resto
  }

  /** `calcularDigito` as the loop the source runs over the digit string. */
  method CalcularDigito(cpfParcial: string) returns (digito: nat)
    requires AllDigits(cpfParcial)
    ensures digito <= 9
    ensures digito == CheckDigit(cpfParcial)
  {
    var soma := 0;
    var multiplicador := |cpfParcial| + 1;
    for k := 0 to |cpfParcial|
      invariant multiplicador == |cpfParcial| + 1 - k
      invariant soma + WeightedSum(cpfParcial[k..]) == WeightedSum(cpfParcial)
    {
      assert cpfParcial[k..][1..] == cpfParcial[k + 1..];
      soma := soma + DigitValue(cpfParcial[k]) * multiplicador;
      multiplicador := multiplicador - 1;
    }
    assert cpfParcial[|cpfParcial|..] == "";
    var resto := (soma * 10) % 11;
    digito := if resto == 10 then 0 else resto;
  }

  /** `/^(\d)\1{10}$/` on an eleven-digit string: every digit equals the first. */
  predicate AllSame(ds: string) {
    forall k :: 0 <= k < |ds| ==> ds[k] == ds[0]
  }

  /** The steps on the digits-only string `cpfLimpo`: eleven digits, not all
      equal, and both check digits right. */
  predicate PassesChecks(cpfLimpo: string)
    requires AllDigits(cpfLimpo)
  {
    && |cpfLimpo| == 11
    && !AllSame(cpfLimpo)
    && CheckDigit(cpfLimpo[..9]) == DigitValue(cpfLimpo[9])
    && CheckDigit(cpfLimpo[..10]) == DigitValue(cpfLimpo[10])
  }

  /** `validaCPF(cpf)` of src/cpf.js. */
  function ValidaCpf(cpf: JsValue): (valid: bool)
    ensures !cpf.Str? ==> !valid
    ensures cpf.Str? && cpf.s == "" ==> !valid
    ensures cpf.Str? && (exists k :: 0 <= k < |cpf.s| && !IsFormatChar(cpf.s[k])) ==> !valid
    ensures cpf.Str? && |Digits(cpf.s)| != 11 ==> !valid
    ensures valid ==> !AllSame(Digits(cpf.s))
    ensures valid ==> var d := Digits(cpf.s);
      CheckDigit(d[..9]) == DigitValue(d[9]) && CheckDigit(d[..10]) == DigitValue(d[10])
  {
    if !cpf.Str? then false
    else if !(|cpf.s| > 0 && OnlyFormatChars(cpf.s)) then false
    else PassesChecks(Digits(cpf.s))
  }
}
