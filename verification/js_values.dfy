/** The JavaScript values a caller can hand to a validator, and `String(v)`,
    the coercion the coercing CPF validator applies to them. */
module JsValues {
  import opened JsText

  datatype Option<+T> = None | Some(value: T)

  /** `Number.MAX_SAFE_INTEGER`, 2^53 - 1. */
  const MaxSafeInteger: int := 0x1F_FFFF_FFFF_FFFF

  /** The integral numbers a double represents exactly. */
  type SafeInteger = n: int | -MaxSafeInteger <= n <= MaxSafeInteger

  /** A JavaScript value, as far as the validators can tell values apart. */
  datatype JsValue =
    | Undefined
    | Null
    | Bool(b: bool)
    | Num(n: SafeInteger)
    | Str(s: string)
    /** A plain object such as `{}`. */
    | Obj
    | Arr(items: seq<JsValue>)

  function Pow10(k: nat): (p: nat)
    ensures p >= 1
  {
    if k == 0 then 1 else 10 * Pow10(k - 1)
  }

  function DigitChar(d: nat): (c: char)
    requires d <= 9
    ensures IsDigit(c)
  {
    ('0' as int + d) as char
  }

  /** The decimal rendering of a natural number, most significant digit first. */
  function Decimal(n: nat): (r: string)
    ensures |r| > 0 && AllDigits(r)
    ensures n > 0 ==> r[0] != '0'
  {
    if n < 10 then [DigitChar(n)] else Decimal(n / 10) + [DigitChar(n % 10)]
  }

  /** The number a digit string denotes, read most significant digit first. */
  function Val(ds: string): nat
    requires AllDigits(ds)
  {
    if |ds| == 0 then 0 else 10 * Val(ds[..|ds| - 1]) + DigitValue(ds[|ds| - 1])
  }

  /** The rendering denotes the number it renders: reading `Decimal(n)` back
      gives `n`. */
  lemma {:induction false} DecimalValue(n: nat)
    ensures Val(Decimal(n)) == n
  {
    if n >= 10 {
      var r := Decimal(n);
      assert r[..|r| - 1] == Decimal(n / 10);
      DecimalValue(n / 10);
    }
  }

  /** Distinct numbers have distinct renderings. */
  lemma DecimalInjective(m: nat, n: nat)
    requires Decimal(m) == Decimal(n)
    ensures m == n
  {
    DecimalValue(m);
    DecimalValue(n);
  }

  /** Appending a digit to a positive number appends its character. */
  lemma DecimalAppend(m: nat, d: nat)
    requires m >= 1 && d <= 9
    ensures Decimal(10 * m + d) == Decimal(m) + [DigitChar(d)]
  {
  }

  /** A rendering with at most `k` digits is exactly a number below 10^k. */
  lemma {:induction false} DecimalLength(n: nat, k: nat)
    requires k >= 1
    ensures |Decimal(n)| <= k <==> n < Pow10(k)
  {
    if n >= 10 {
      if k == 1 {
        assert |Decimal(n)| >= 2;
      } else {
        DecimalLength(n / 10, k - 1);
        assert n / 10 < Pow10(k - 1) <==> n < 10 * Pow10(k - 1);
      }
    }
  }

  /** Exactly eleven digits are rendered for the numbers in [10^10, 10^11). */
  lemma DecimalHasElevenDigits(n: nat)
    ensures |Decimal(n)| == 11 <==> Pow10(10) <= n < Pow10(11)
  {
    DecimalLength(n, 10);
    DecimalLength(n, 11);
  }

  /** `array.join()`: the parts separated by commas. */
  function JoinComma(parts: seq<string>): (r: string)
    ensures |parts| == 1 ==> r == parts[0]
  {
    if |parts| == 0 then ""
    else if |parts| == 1 then parts[0]
    else JoinComma(parts[..|parts| - 1]) + "," + parts[|parts| - 1]
  }

  /** `String(v)`. Numbers render in decimal with a leading `-` when negative;
      an array renders as the `join` of its elements, where `null` and
      `undefined` elements render as the empty string. */
  function ToJsString(v: JsValue): (r: string)
    ensures v.Undefined? ==> r == "undefined"
    ensures v.Null? ==> r == "null"
    ensures v.Bool? ==> r == (if v.b then "true" else "false")
    ensures v.Str? ==> r == v.s
    ensures v.Obj? ==> r == "[object Object]"
    ensures v.Arr? && v.items == [] ==> r == ""
    ensures v.Arr? && |v.items| == 1 ==>
      r == if v.items[0].Null? || v.items[0].Undefined? then "" else ToJsString(v.items[0])
  {
    match v
    case Undefined => "undefined"
    case Null => "null"
    case Bool(b) => if b then "true" else "false"
    case Num(n) => if n < 0 then "-" + Decimal(-n) else Decimal(n)
    case Str(s) => s
    case Obj => "[object Object]"
    case Arr(items) =>
      JoinComma(seq(|items|, i requires 0 <= i < |items| =>
        if items[i].Null? || items[i].Undefined? then "" else ToJsString(items[i])))
  }
}
