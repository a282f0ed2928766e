/** `validaCPF` of engenharia-software/src/cpf.js: the coercing variant. It
    rejects only `null` and `undefined` outright, renders everything else with
    `String(cpf)`, and its whitelist `^[\d\s\.\-]*$` admits the empty string.
    The remaining steps are those of src/cpf.js, shared from module `Cpf`. */
module CpfCoercing {
  import opened JsText
  import opened JsValues
  import Cpf

  /** `validaCPF(cpf)` of engenharia-software/src/cpf.js. */
  function ValidaCpf(cpf: JsValue): (valid: bool)
    ensures cpf.Null? || cpf.Undefined? ==> !valid
    ensures (exists k :: 0 <= k < |ToJsString(cpf)| && !Cpf.IsFormatChar(ToJsString(cpf)[k])) ==> !valid
    ensures |Digits(ToJsString(cpf))| != 11 ==> !valid
    ensures valid ==> !Cpf.AllSame(Digits(ToJsString(cpf)))
  {
    if cpf.Null? || cpf.Undefined? then false
    else
      var cpfString := ToJsString(cpf);
      if !Cpf.OnlyFormatChars(cpfString) then false
      else Cpf.PassesChecks(Digits(cpfString))
  }

  /** The type test the comment at engenharia-software/src/cpf.js:13 announces:
      a value that is neither a string nor a number is invalid before any
      rendering. Strings and numbers then go through the same steps. */
  function ValidaCpfEstrito(cpf: JsValue): (valid: bool)
    ensures !cpf.Str? && !cpf.Num? ==> !valid
    ensures valid ==> ValidaCpf(cpf)
  {
    (cpf.Str? || cpf.Num?) && ValidaCpf(cpf)
  }
}
