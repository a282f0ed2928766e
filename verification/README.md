# CPF validation and user registry, in Dafny

This project models the two pieces of logic that carry the behaviour of a small
JavaScript user-registration system.

- **`validaCPF`** checks a Brazilian CPF (taxpayer number). It applies a
  character whitelist, keeps the digits, requires eleven of them that are not
  all equal, and checks two mod-11 check digits. There are two variants:
  - `src/cpf.js` accepts only strings;
  - `engenharia-software/src/cpf.js` rejects `null` and `undefined` and
    renders anything else with `String(...)`.
- **`GerenciadorUsuarios`** (`src/usuario.js`) keeps user records in a list
  and never deletes them: removal clears the `ativo` flag. Insertion validates
  the name, the e-mail (`validarEmail`) and the CPF. It then refuses a CPF or
  an e-mail that an active record already holds. CPFs are compared by their
  digits and e-mails without regard to letter case. Update runs every check
  before it writes anything. Statistics are derived from the list.

Modules:

| file | module | models |
|---|---|---|
| `js_text.dfy` | `JsText` | the string primitives the code relies on: the regular-expression classes `\s` and `\d`, `replace(/\D/g, '')`, `trim()`, `toLowerCase()` and `length` in UTF-16 code units |
| `js_values.dfy` | `JsValues` | the JavaScript values a caller can pass, and `String(v)` |
| `cpf.dfy`, `cpf_properties.dfy` | `Cpf`, `CpfProperties` | the string-only validator and its properties |
| `cpf_coercing.dfy`, `cpf_coercing_properties.dfy` | `CpfCoercing`, `CpfCoercingProperties` | the coercing validator and its properties |
| `email.dfy` | `Email` | `validarEmail` |
| `usuario.dfy`, `usuario_properties.dfy` | `Usuarios`, `UsuariosProperties` | the user record, the manager's operations and their properties |

How the model represents the manager:
- The manager is an immutable value `Gerenciador(usuarios: seq<Usuario>)`.
- Each operation takes the current manager and returns a `Resultado`: the next manager together with the answer the source returns.
- That answer is either `Sucesso(value)` or `Falha(erro)`, with one `Erro` constructor per error message.

`Usuarios.AdicionarUsuario` uses `Cpf.ValidaCpf`, the string-only variant, because `src/usuario.js` imports `./cpf`. The two variants agree on every string (`CpfCoercingProperties.AgreesOnStrings`).

Behaviour worth stating up front:
- Both validators *reject* a string that holds letters or symbols other than `.`, `-` and whitespace (`src/cpf.js:17`, `engenharia-software/src/cpf.js:21`), as the tests at `tests/cpf.test.js:63-69` expect. The doc comment at `engenharia-software/src/cpf.js:4` says non-numeric characters are removed; that holds only for the whitelisted formatting characters.
- `src/cpf.js:14` rejects numbers. The coercing variant accepts them through their decimal rendering. See "Findings".
- The registry decides `validarEmail` with `Email.EmailDecision`, the body of `Email.ValidarEmail`, whose contract ties it to the regular expression.

## Model

| member | source | states |
|---|---|---|
| JsText.Digits | src/cpf.js:21 | the cleaned string holds only digits and is no longer than the input |
| JsText.DigitsMembers | src/cpf.js:21 | a character occurs in the cleaned string iff it occurs in the input and is a digit |
| JsText.DigitsAppend | src/cpf.js:21 | removing the non-digits of a concatenation is the concatenation of the two results, so the clean-up keeps exactly the digits in order |
| JsText.DigitsOfDigits | src/cpf.js:21 | a string of digits is unchanged by the clean-up |
| JsText.DigitsSkipNonDigit | src/cpf.js:21 | a non-digit anywhere in a string contributes nothing to the cleaned string |
| JsText.Trim | src/usuario.js:48 | `trim()` returns a contiguous part of the input, everything before and after it is whitespace, and its own ends are not whitespace |
| JsText.TrimCharacterization | src/usuario.js:48 | `trim()` of a whitespace prefix, a core whose ends are not whitespace, and a whitespace suffix is exactly that core |
| JsText.TrimStart | src/usuario.js:48 | the result is a suffix of the input, everything dropped is whitespace, and it does not start with whitespace |
| JsText.TrimEnd | src/usuario.js:48 | the result is a prefix of the input, everything dropped is whitespace, and it does not end with whitespace |
| JsText.Utf16Length | src/usuario.js:48 | a single code point has length 1 up to U+FFFF and 2 above; `length` lies between the number of code points and twice that, and equals it when no code point is above U+FFFF |
| JsText.Utf16LengthAppend | src/usuario.js:48 | `length` of a concatenation is the sum of the lengths, so with the one-character case it counts one unit per code point up to U+FFFF and two per code point above |
| JsText.LowerCharEquality | src/usuario.js:96 | two characters lower-case to the same character iff they are equal or are the capital and small form of one ASCII letter |
| JsText.LowerEquality | src/usuario.js:96 | two strings compare equal after `toLowerCase()` iff they have the same length and agree at every position up to the case of ASCII letters |
| JsValues.Decimal | engenharia-software/src/cpf.js:18 | the decimal rendering of a natural number is a non-empty digit string without a leading zero unless the number is 0 |
| JsValues.DecimalValue | engenharia-software/src/cpf.js:18 | reading the decimal rendering of n back as a number gives n |
| JsValues.DecimalInjective | engenharia-software/src/cpf.js:18 | two numbers with the same rendering are equal |
| JsValues.ToJsString | engenharia-software/src/cpf.js:18 | `String(v)` gives "undefined", "null", "true"/"false", the string itself, and "[object Object]"; an empty array renders as "", and a one-element array as its element, or as "" when that is `null` or `undefined` |
| JsValues.DecimalLength | engenharia-software/src/cpf.js:18 | a rendering has at most k digits exactly when the number is below 10^k |
| JsValues.DecimalHasElevenDigits | engenharia-software/src/cpf.js:18-29 | a number renders with exactly eleven digits iff it lies in [10^10, 10^11) |
| Cpf.CheckDigit | src/cpf.js:35-36 | the check digit is in 0..9, because a remainder of 10 becomes 0 |
| Cpf.CalcularDigito | src/cpf.js:26-37 | the loop computes the weighted sum, with the multiplier starting at the length plus one and falling by one per digit, and returns the check digit in 0..9 |
| Cpf.ValidaCpf | src/cpf.js:13-46 | each rejection is stated: a non-string, the empty string, a character outside digits, `.`, `-` and whitespace, a digit count other than 11; a valid CPF's digits are not all equal and both check digits match |
| CpfProperties.CheckFormulaIsStandard | src/cpf.js:35-36 | `(10·sum) mod 11` with 10 mapped to 0 equals the textbook check digit: 0 when `sum mod 11 < 2`, else `11 − sum mod 11` |
| CpfProperties.WeightedSumStep | src/cpf.js:30-33 | one loop step adds the current digit times its multiplier |
| CpfProperties.WeightedSumIsFirstSum | src/cpf.js:39 | the sum for the first check digit uses the weights 10 down to 2 on digits 1 to 9 |
| CpfProperties.WeightedSumIsSecondSum | src/cpf.js:42 | the sum for the second check digit uses the weights 11 down to 2 on digits 1 to 10 |
| CpfProperties.PassesChecksIsCpfNumber | src/cpf.js:23-45 | the steps on the cleaned string accept exactly the CPF numbers of the textbook rule |
| CpfProperties.ValidaCpfIsTextbookRule | src/cpf.js:13-46 | a string is accepted iff it is non-empty, holds only whitelisted characters, and its digits form a textbook CPF number |
| CpfProperties.FormattingInsensitive | src/cpf.js:17-21 | inserting `.`, `-` or whitespace anywhere in any string, the empty one included, does not change the answer |
| CpfProperties.DependsOnlyOnDigits | src/cpf.js:17-45 | two whitelisted strings with the same digits get the same answer |
| CpfProperties.PlainVector | tests/cpf.test.js:9-11 | "12345678909" is valid |
| CpfProperties.PartialFormatVector | tests/cpf.test.js:13-15 | "123456789-09" is valid |
| CpfProperties.FullFormatVector | tests/cpf.test.js:5-7 | "123.456.789-09" is valid |
| CpfProperties.PaddedVector | tests/cpf.test.js:25-27 | " 123.456.789-09 " is valid |
| CpfProperties.MostlyZerosVector | tests/cpf.test.js:17-19 | "000.000.001-91" is valid |
| CpfProperties.DescendingVector | tests/cpf.test.js:21-23 | "987.654.321-00" is valid |
| CpfProperties.LeadingZeroVector | test/cpf.js:7-10 | "01234567890" is valid, so a leading zero in a string is kept |
| CpfProperties.RepeatedOnesRejected | tests/cpf.test.js:31-33 | "111.111.111-11" is rejected |
| CpfProperties.RepeatedDigitsRejected | src/cpf.js:24 | "00000000000" passes both check digits and is still rejected by the repetition test |
| CpfProperties.TooFewDigitsRejected | tests/cpf.test.js:39-41 | "123.456.789" is rejected |
| CpfProperties.TooManyDigitsRejected | tests/cpf.test.js:43-45 | "123.456.789-091" is rejected |
| CpfProperties.WrongCheckDigitVector | src/cpf.js:39-45 | "12345678900" matches its first check digit, fails its second, and is rejected |
| CpfProperties.WrongCheckDigitFormatted | tests/cpf.test.js:47-49 | "123.456.789-00" is rejected |
| CpfProperties.WrongCheckDigitOfLeadingZero | test/cpf.js:25-28 | "01234567899" is rejected |
| CpfProperties.RejectedInputs | src/cpf.js:14-19 | the empty string, "123.abc.789-09", "123@456#789$09", `null`, `undefined`, `{}`, `[]` and the number 12345678909 are all rejected |
| CpfCoercing.ValidaCpf | engenharia-software/src/cpf.js:12-73 | `null` and `undefined` are rejected; so is any value whose rendering holds a character outside the whitelist or does not have exactly 11 digits; a valid value's digits are not all equal |
| CpfCoercingProperties.AgreesOnStrings | engenharia-software/src/cpf.js:21-72 | on every string the coercing variant gives the same answer as the string-only one |
| CpfCoercingProperties.CoercingIsTextbookRule | engenharia-software/src/cpf.js:12-73 | any value is accepted iff it is not `null` or `undefined`, its rendering holds only digits, `.`, `-` and whitespace, and its digits form a textbook CPF number |
| CpfCoercingProperties.NumberIsTextbookRule | engenharia-software/src/cpf.js:18-72 | a number is accepted iff the decimal digits of its absolute value form a textbook CPF number |
| CpfCoercingProperties.NumberDigits | engenharia-software/src/cpf.js:18-26 | a number renders as whitelisted characters whose digits are the decimal digits of its absolute value |
| CpfCoercingProperties.NumberNeedsElevenDigits | engenharia-software/src/cpf.js:18-31 | an accepted integer has an absolute value in [10^10, 10^11), so the integer 123456789091 is rejected |
| CpfCoercingProperties.LeadingZeroNotExpressible | engenharia-software/src/cpf.js:18 | an eleven-digit rendering of an integer never starts with 0, so CPFs with a leading zero cannot be passed as integers |
| CpfCoercingProperties.SignIgnored | engenharia-software/src/cpf.js:18-26 | a negative number gets the same answer as its absolute value, because `-` is whitelisted and stripped |
| CpfCoercingProperties.NumberVectors | tests/cpf.test.js:73-75 | the number 12345678909, and its negation, are valid |
| CpfCoercingProperties.ObjectAndEmptyArrayRejected | engenharia-software/src/cpf.js:18-31 | `{}`, `[]`, `true` and `false` are rejected |
| CpfCoercingProperties.SingletonArrayIsElement | engenharia-software/src/cpf.js:18 | an array of one non-null element, nested or not, gets the answer of the element |
| CpfCoercingProperties.ArraysAcceptedAsWritten | engenharia-software/src/cpf.js:13-18 | the arrays `[12345678909]` and `["123.456.789-09"]` are accepted, although the comment announces that anything but a string or a number is invalid; the type-tested validator rejects both |
| CpfCoercing.ValidaCpfEstrito | engenharia-software/src/cpf.js:13 | a value that is neither a string nor a number is rejected, and an accepted value is accepted by the validator as written |
| CpfCoercingProperties.EstritoIsTextbookRule | engenharia-software/src/cpf.js:13-72 | the type-tested validator accepts exactly the strings and numbers whose rendering holds only digits, `.`, `-` and whitespace and whose digits form a textbook CPF number; on strings it agrees with src/cpf.js |
| Email.FirstAt | src/usuario.js:159 | the result is the position of the first `@`, or the length when there is none |
| Email.ValidarEmail | src/usuario.js:158-161 | `validarEmail` returns true iff the string matches `/^[^\s@]+@[^\s@]+\.[^\s@]+$/`: a non-empty local part, `@`, a non-empty middle, `.`, and a non-empty suffix, none of them holding whitespace or `@` |
| Email.DecisionMatchesPattern | src/usuario.js:158-161 | the decision procedure (no whitespace, one `@` not in first position, a `.` strictly inside the domain) accepts exactly the strings that split into a non-empty local part, `@`, a non-empty middle, `.`, and a non-empty suffix, all free of whitespace and `@` |
| Email.PatternParts | src/usuario.js:159 | any such split makes the decision procedure accept |
| Email.AcceptedEmailVectors | engenharia-software/tests/usuario.test.js:295-297 | "teste@email.com" and "usuario.teste@dominio.com.br" are accepted |
| Email.DigitLocalPartAccepted | engenharia-software/tests/usuario.test.js:298 | "123@teste.org" is accepted |
| Email.RejectedEmailVectors | engenharia-software/tests/usuario.test.js:301-306 | "email-sem-arroba", "@dominio.com", "usuario@" and "usuario@dominio" are rejected |
| Usuarios.Find | src/usuario.js:85 | `find` returns the first record that is active and matches the key, and none exists when it returns nothing |
| Usuarios.Buscar | src/usuario.js:85-86 | the record returned is in the list, active and matching; nothing is returned iff no record matches |
| Usuarios.BuscarPorId | src/usuario.js:84-87 | only an active record with that id is returned, and one is returned whenever such a record exists |
| Usuarios.BuscarPorCpf | src/usuario.js:89-93 | only an active record with the same CPF digits is returned, and one is returned whenever such a record exists |
| Usuarios.BuscarPorEmail | src/usuario.js:95-98 | only an active record whose e-mail equals the argument up to letter case is returned, and one is returned whenever such a record exists |
| Usuarios.AdicionarUsuario | src/usuario.js:46-78 | each error holds iff its check is the first to fail, in the order name, e-mail, CPF, CPF already active, e-mail already active; a failure leaves the manager unchanged; a success appends exactly one active record with the given fields and changes nothing else |
| Usuarios.FilterMembers | src/usuario.js:81 | a filter holds exactly the records with the requested flag |
| Usuarios.ListarUsuarios | src/usuario.js:80-82 | the listing holds exactly the active records |
| Usuarios.RemoverUsuario | src/usuario.js:100-109 | not-found iff no active record has the id, and then nothing changes; otherwise only the first such record changes, and only in its `ativo` flag; the length is kept |
| Usuarios.ErroDeAtualizacao | src/usuario.js:119-143 | each update error holds iff its check is the first to fail, in the order name, e-mail, CPF, CPF held by another user, e-mail held by another user; absent and empty fields are not checked |
| Usuarios.AtualizarUsuario | src/usuario.js:111-156 | not-found iff no active record has the id; any failure leaves the manager unchanged; a success replaces only the first active record with that id, overwrites only the supplied non-empty fields and a supplied `telefone`, and keeps the id, the timestamp and the flag |
| Usuarios.FilterCountsIndices | src/usuario.js:164-169 | a filter is as long as the set of positions with the requested flag |
| Usuarios.FilterPartition | src/usuario.js:164-168 | the active and inactive filters together are as long as the list |
| Usuarios.FilterLast | src/usuario.js:171-172 | the last element of a filter is the last record in the list with that flag |
| Usuarios.ObterEstatisticas | src/usuario.js:163-174 | the total is the list length; the active and inactive counts are the numbers of positions with each flag and add up to the total; `ultimoCadastro` is the timestamp of the last active record, or absent iff there is none |
| Usuarios.Reset | src/usuario.js:176-179 | the manager becomes empty and the answer is `true` |
| UsuariosProperties.ResetWf | src/usuario.js:176-179 | after `reset()` the invariant holds and every statistic is zero or absent |
| UsuariosProperties.AnexarPreservaWf | src/usuario.js:60-71 | appending a valid record with a fresh id whose CPF and e-mail no active record holds keeps the invariant |
| UsuariosProperties.AdicionarPreservaWf | src/usuario.js:46-77 | insertion with a fresh id keeps the invariant: valid fields, distinct ids, and no two active records sharing CPF digits or a lower-cased e-mail |
| UsuariosProperties.AdicionadoEncontravel | src/usuario.js:70-98 | after a successful insertion with a fresh id, the look-ups by id, CPF and e-mail return the new record, and the listing gains it at the end |
| UsuariosProperties.FindAppend | src/usuario.js:85 | a record appended after records that do not match is the one found |
| UsuariosProperties.CpfDuasVezes | src/usuario.js:60-63 | after a successful insertion, inserting a valid record with the same CPF digits fails with the duplicate-CPF error |
| UsuariosProperties.EmailDuasVezes | src/usuario.js:65-68 | after a successful insertion, inserting a valid record whose CPF no active record holds and whose e-mail equals the first up to case fails with the duplicate-e-mail error |
| UsuariosProperties.DesativarPreservaWf | src/usuario.js:107 | clearing one record's `ativo` flag keeps the invariant |
| UsuariosProperties.RemoverPreservaWf | src/usuario.js:100-109 | removal keeps the invariant |
| UsuariosProperties.RemovidoOculto | src/usuario.js:100-109 | with distinct ids, after a successful removal the id is no longer found, a second removal fails, the total is unchanged, and one record moved from active to inactive |
| UsuariosProperties.DonoUnico | src/usuario.js:131-143 | when the conflict check passes for a supplied CPF or e-mail, no other active record holds it |
| UsuariosProperties.DonoProprio | src/usuario.js:61-68 | under the invariant, no other active record holds an active record's own CPF or e-mail |
| UsuariosProperties.SemConflito | src/usuario.js:131-148 | after the checks of an update pass, no other active record holds the CPF or e-mail the record ends up with |
| UsuariosProperties.AplicarValido | src/usuario.js:119-148 | the updated record's fields are valid: supplied ones were checked, the others were valid before |
| UsuariosProperties.SubstituirPreservaWf | src/usuario.js:145-149 | replacing a record by a valid one with the same id whose CPF and e-mail no other active record holds keeps the invariant |
| UsuariosProperties.AtualizarPreservaWf | src/usuario.js:111-149 | update keeps the invariant |
| UsuariosProperties.AtualizarSemDados | src/usuario.js:119-149 | an update of an existing user that supplies no non-empty name, e-mail or CPF and no `telefone` succeeds and changes nothing |
| UsuariosProperties.FindPorId | src/usuario.js:112 | with distinct ids, the record found by an active record's id is that record |
| UsuariosProperties.ProprioDono | src/usuario.js:131-143 | under the invariant, a user's own CPF and e-mail never count as held by another user |
| UsuariosProperties.AtualizarComPropriosDados | src/usuario.js:131-143 | under the invariant, resubmitting a user's own name, e-mail and CPF succeeds, returns the record unchanged and leaves the manager as it was |
| UsuariosProperties.BuscarUnico | src/usuario.js:85 | the only record matching a key is the one the look-up returns |
| UsuariosProperties.AtualizarEmailEncontravel | src/usuario.js:138-147 | after a successful e-mail change, the look-up by the new address returns the updated record, and the old address, if it differs up to case, is no longer found |
| UsuariosProperties.ListarAppend | src/usuario.js:80-82 | the listing of a list with one more record is the old listing plus that record when it is active, so insertion order is kept |
| UsuariosProperties.CadastrarDoisRemoverPrimeiro | engenharia-software/tests/usuario.test.js:176-186 | after two successful insertions into an empty manager and the removal of the first, only the second is listed, and the statistics are 2 total, 1 active, 1 inactive, with the second's timestamp last |
| UsuariosProperties.RemoverPrimeiroDeDois | src/usuario.js:100-109 | removing the first of two active records with distinct ids leaves only the second listed, and the statistics are 2 total, 1 active, 1 inactive, with the second's timestamp last |

## Left out

- Id generation (`Math.random().toString(36)`, src/usuario.js:18-20) is replaced by an `id` parameter of `AdicionarUsuario`. Random ids can collide, so the lemmas that need distinct ids assume a fresh one (`IdNovo`) rather than derive it.
- The timestamp that `moment()` formats (src/usuario.js:14) is replaced by an `agora` parameter, an uninterpreted string.
- `toJSON()` (src/usuario.js:22-32) copies the fields. Since the model's records are values, the copy is the record itself.
- Each `Usuario` is built inside `AdicionarUsuario` (src/usuario.js:8-16 and 70). Its `telefone` is `None`, standing for `null`, when the caller supplies none.
- `toLowerCase()` is modelled on ASCII letters only. Unicode case mapping, including mappings that change a string's length, is not modelled.
- `Utf16Length` counts a code point above U+FFFF as two code units. Lone surrogates cannot occur in Dafny strings.
- Only integral numbers within ±(2^53 − 1) are modelled. Fractions, exponent notation, `NaN`, `Infinity`, `-0` and `BigInt` are not, because their `String(...)` renderings lie outside the model.
- CpfCoercingProperties.NumberNeedsElevenDigits: holds for integers only. A fraction whose fixed-notation rendering has eleven digits, such as 123456789.09 (digits 12345678909), is accepted by the source with a magnitude below 10^10.
- CpfCoercingProperties.LeadingZeroNotExpressible: holds for integers only. A fraction such as 0.9876543229 renders with the digits 09876543229, a valid CPF with a leading zero, and the source accepts it.
- `JsValue` covers `undefined`, `null`, booleans, such numbers, strings, plain objects and arrays. Functions, symbols, dates and objects with their own `toString` are not modelled.
- The manager's operations take strings. Other argument types are not modelled: calling `trim` or `replace` on a non-string throws, and the source does not handle that.
- The engenharia-software tests import a `usuario` module that is not part of this model. Their e-mail and listing vectors are checked here against the operations of src/usuario.js.
- engenharia-software/src/interface.js, src/index.js, sistema-simples/src/index.js, scripts/send_email.js and jest.config.js are not part of this model. They handle terminal, HTTP and SMTP I/O and test configuration.

## Findings

| source | as written | input that shows it | evidently intended | confidence | as-written member | corrected member |
|---|---|---|---|---|---|---|
| src/cpf.js:14 | `typeof cpf !== 'string'` rejects every number, although the documentation at src/cpf.js:10 declares `{string\|number}` and tests/cpf.test.js:73-75 expect `validaCPF(12345678909)` to be `true` | the number 12345678909 | numbers are validated through their decimal rendering, as engenharia-software/src/cpf.js:18 does | medium; not executed | CpfProperties.RejectedInputs | CpfCoercingProperties.NumberVectors |
| engenharia-software/src/cpf.js:13-15 | the comment says a value that is neither a string nor a number is invalid, but the test rejects only `null` and `undefined`, so arrays reach `String(cpf)` | the arrays `[12345678909]` and `["123.456.789-09"]`, both accepted | only strings and numbers are validated; every other value is rejected | low; not executed | CpfCoercingProperties.ArraysAcceptedAsWritten | CpfCoercing.ValidaCpfEstrito |

For the first row, `CpfCoercing.ValidaCpf` is the corrected definition. It agrees with the as-written `Cpf.ValidaCpf` on every string (`CpfCoercingProperties.AgreesOnStrings`). The registry passes only strings, so it behaves the same whichever variant it uses.

For the second row, `CpfCoercing.ValidaCpfEstrito` is the corrected definition (`CpfCoercingProperties.EstritoIsTextbookRule`). On strings it agrees with `Cpf.ValidaCpf`, which is what the registry uses.
