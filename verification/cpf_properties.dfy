/** What `validaCPF` of src/cpf.js promises: agreement with the textbook CPF
    rule (explicit weight tables 10..2 and 11..2, check digit `11 - sum mod 11`
    with 0 for remainders below 2), indifference to formatting characters, and
    the behaviour on the repository's test vectors. */
module CpfProperties {
  import opened JsText
  import opened JsValues
  import opened Cpf

  /** The textbook check digit of a weighted sum. */
  function StandardCheck(sum: nat): (d: nat)
    ensures d <= 9
  {
    var r := sum % 11;
    if r < 2 then 0 else 11 - r
  }

  /** The textbook first sum: digits 1 to 9 against the weights 10 down to 2. */
  function FirstSum(d: string): nat
    requires |d| >= 9 && AllDigits(d)
  {
    10 * DigitValue(d[0]) + 9 * DigitValue(d[1]) + 8 * DigitValue(d[2])
    + 7 * DigitValue(d[3]) + 6 * DigitValue(d[4]) + 5 * DigitValue(d[5])
    + 4 * DigitValue(d[6]) + 3 * DigitValue(d[7]) + 2 * DigitValue(d[8])
  }

  /** The textbook second sum: digits 1 to 10 against the weights 11 down to 2. */
  function SecondSum(d: string): nat
    requires |d| >= 10 && AllDigits(d)
  {
    11 * DigitValue(d[0]) + 10 * DigitValue(d[1]) + 9 * DigitValue(d[2])
    + 8 * DigitValue(d[3]) + 7 * DigitValue(d[4]) + 6 * DigitValue(d[5])
    + 5 * DigitValue(d[6]) + 4 * DigitValue(d[7]) + 3 * DigitValue(d[8])
    + 2 * DigitValue(d[9])
  }

  /** A CPF number by the textbook rule, on its eleven digits. */
  predicate IsCpfNumber(d: string)
    requires AllDigits(d)
  {
    && |d| == 11
    && !AllSame(d)
    && DigitValue(d[9]) == StandardCheck(FirstSum(d))
    && DigitValue(d[10]) == StandardCheck(SecondSum(d))
  }

  /** `(sum * 10) % 11` with 10 mapped to 0 is the textbook check digit. */
  lemma CheckFormulaIsStandard(sum: nat)
    ensures (if (sum * 10) % 11 == 10 then 0 else (sum * 10) % 11) == StandardCheck(sum)
  {
    var q := sum / 11;
    var r := sum % 11;
    assert sum * 10 == 11 * (10 * q) + 10 * r;
    assert (sum * 10) % 11 == (10 * r) % 11;
    assert 0 <= r <= 10;
    if r == 0 {
    } else if r == 1 {
      assert (10 * r) % 11 == 10;
    } else {
      assert 20 <= 10 * r <= 100;
      assert (10 * r) % 11 == 11 - r by {
        assert 10 * r == 11 * (r - 1) + (11 - r);
      }
    }
  }

  /** One step of the descending-multiplier sum, at position `k`. */
  lemma WeightedSumStep(ds: string, k: nat)
    requires AllDigits(ds) && k < |ds|
    ensures WeightedSum(ds[k..]) == DigitValue(ds[k]) * (|ds| - k + 1) + WeightedSum(ds[k + 1..])
  {
    assert ds[k..][1..] == ds[k + 1..];
  }

  lemma WeightedSumIsFirstSum(d: string)
    requires |d| >= 9 && AllDigits(d)
    ensures WeightedSum(d[..9]) == FirstSum(d)
  {
    var e := d[..9];
    assert e[0..] == e;
    WeightedSumStep(e, 0);
    WeightedSumStep(e, 1);
    WeightedSumStep(e, 2);
    WeightedSumStep(e, 3);
    WeightedSumStep(e, 4);
    WeightedSumStep(e, 5);
    WeightedSumStep(e, 6);
    WeightedSumStep(e, 7);
    WeightedSumStep(e, 8);
    assert e[9..] == "";
  }

  lemma WeightedSumIsSecondSum(d: string)
    requires |d| >= 10 && AllDigits(d)
    ensures WeightedSum(d[..10]) == SecondSum(d)
  {
    var e := d[..10];
    assert e[0..] == e;
    WeightedSumStep(e, 0);
    WeightedSumStep(e, 1);
    WeightedSumStep(e, 2);
    WeightedSumStep(e, 3);
    WeightedSumStep(e, 4);
    WeightedSumStep(e, 5);
    WeightedSumStep(e, 6);
    WeightedSumStep(e, 7);
    WeightedSumStep(e, 8);
    WeightedSumStep(e, 9);
    assert e[10..] == "";
  }

  /** The checks of src/cpf.js on the cleaned digits are the textbook rule. */
  lemma PassesChecksIsCpfNumber(d: string)
    requires AllDigits(d)
    ensures PassesChecks(d) <==> IsCpfNumber(d)
  {
    if |d| == 11 {
      WeightedSumIsFirstSum(d);
      WeightedSumIsSecondSum(d);
      CheckFormulaIsStandard(WeightedSum(d[..9]));
      CheckFormulaIsStandard(WeightedSum(d[..10]));
    }
  }

  /** `validaCPF` on a string is: non-empty, only digits, `.`, `-` and
      whitespace, and the digits form a CPF number by the textbook rule. */
  lemma ValidaCpfIsTextbookRule(s: string)
    ensures ValidaCpf(Str(s)) <==> s != "" && OnlyFormatChars(s) && IsCpfNumber(Digits(s))
  {
    PassesChecksIsCpfNumber(Digits(s));
  }

  /** Inserting one `.`, `-` or whitespace character anywhere into a string
      leaves the verdict unchanged; read right to left, so does removing one.
      For the empty string both verdicts are false: the whitelist rejects `""`
      and a lone formatting character has no digits. */
  lemma FormattingInsensitive(s: string, i: nat, c: char)
    requires i <= |s|
    requires IsFormatChar(c) && !IsDigit(c)
    ensures ValidaCpf(Str(s[..i] + [c] + s[i..])) == ValidaCpf(Str(s))
  {
    InsertKeepsDigits(s, i, c);
    InsertKeepsWhitelist(s, i, c);
    if s == "" {
      assert Digits(s) == "";
    }
  }

  lemma InsertKeepsDigits(s: string, i: nat, c: char)
    requires i <= |s| && !IsDigit(c)
    ensures Digits(s[..i] + [c] + s[i..]) == Digits(s)
  {
    DigitsSkipNonDigit(s[..i], c, s[i..]);
    assert s[..i] + s[i..] == s;
  }

  lemma InsertKeepsWhitelist(s: string, i: nat, c: char)
    requires i <= |s| && IsFormatChar(c)
    ensures OnlyFormatChars(s[..i] + [c] + s[i..]) <==> OnlyFormatChars(s)
  {
    var t := s[..i] + [c] + s[i..];
    if OnlyFormatChars(s) {
      forall k | 0 <= k < |t|
        ensures IsFormatChar(t[k])
      {
        if k < i {
          assert t[k] == s[k];
        } else if k > i {
          assert t[k] == s[k - 1];
        }
      }
    }
    if OnlyFormatChars(t) {
      forall k | 0 <= k < |s|
        ensures IsFormatChar(s[k])
      {
        if k < i {
          assert t[k] == s[k];
        } else {
          assert t[k + 1] == s[k];
        }
      }
    }
  }

  /** For strings that pass the whitelist the verdict depends on the digits
      alone; an empty string has no digits, so it agrees with every other
      string without digits. */
  lemma DependsOnlyOnDigits(s: string, t: string)
    requires OnlyFormatChars(s) && OnlyFormatChars(t)
    requires Digits(s) == Digits(t)
    ensures ValidaCpf(Str(s)) == ValidaCpf(Str(t))
  {
    if s == "" || t == "" {
      assert Digits(s) == "";
    }
  }

  /** "12345678909", the main valid vector of tests/cpf.test.js. */
  lemma PlainVector(s: string)
    requires s == "12345678909"
    ensures ValidaCpf(Str(s))
  {
    assert AllDigits(s);
    DigitsOfDigits(s);
    assert !AllSame(s) by {
      assert s[1] != s[0];
    }
    assert FirstSum(s) == 210;
    assert SecondSum(s) == 255;
    assert OnlyFormatChars(s);
    ValidaCpfIsTextbookRule(s);
  }

  /** The digits of the usual `ddd.ddd.ddd-dd` layout. */
  lemma LayoutDigits(t: string, a: string, b: string, c: string, d: string)
    requires AllDigits(a) && AllDigits(b) && AllDigits(c) && AllDigits(d)
    requires t == a + ['.'] + b + ['.'] + c + ['-'] + d
    ensures Digits(t) == a + b + c + d
  {
    assert t == a + ['.'] + (b + ['.'] + c + ['-'] + d);
    DigitsSkipNonDigit(a, '.', b + ['.'] + c + ['-'] + d);
    assert a + (b + ['.'] + c + ['-'] + d) == (a + b) + ['.'] + (c + ['-'] + d);
    DigitsSkipNonDigit(a + b, '.', c + ['-'] + d);
    assert (a + b) + (c + ['-'] + d) == (a + b + c) + ['-'] + d;
    DigitsSkipNonDigit(a + b + c, '-', d);
    assert AllDigits(a + b + c + d);
    DigitsOfDigits(a + b + c + d);
  }

  /** One space on each side contributes no digits. */
  lemma PaddingDigits(t: string)
    ensures Digits([' '] + t + [' ']) == Digits(t)
  {
    var e: string := [];
    assert [' '] + t + [' '] == e + [' '] + (t + [' '] + e);
    DigitsSkipNonDigit(e, ' ', t + [' '] + e);
    assert e + (t + [' '] + e) == t + [' '] + e;
    DigitsSkipNonDigit(t, ' ', e);
    assert t + e == t;
  }

  /** Any whitelisted string whose digits are those of the main vector is valid. */
  lemma SameDigitsAsPlainVector(t: string, s: string)
    requires s == "12345678909"
    requires t != "" && OnlyFormatChars(t) && Digits(t) == s
    ensures ValidaCpf(Str(t))
  {
    PlainVector(s);
    DigitsOfDigits(s);
    DependsOnlyOnDigits(s, t);
  }

  /** The same CPF with partial formatting. */
  lemma PartialFormatVector(t: string)
    requires t == "123456789-09"
    ensures ValidaCpf(Str(t))
  {
    var a, b := "123456789", "09";
    var s := a + b;
    assert s == "12345678909";
    assert Digits(t) == s by {
      DigitsOfDigits(s);
      assert t == a + ['-'] + b;
      DigitsSkipNonDigit(a, '-', b);
    }
    assert OnlyFormatChars(t);
    SameDigitsAsPlainVector(t, s);
  }

  lemma FullFormatDigits(t: string, s: string)
    requires t == "123.456.789-09" && s == "12345678909"
    ensures Digits(t) == s && OnlyFormatChars(t)
  {
    var a, b, c, d := "123", "456", "789", "09";
    assert a + b + c + d == s;
    LayoutDigits(t, a, b, c, d);
  }

  /** The same CPF with full formatting. */
  lemma FullFormatVector(t: string)
    requires t == "123.456.789-09"
    ensures ValidaCpf(Str(t))
  {
    var s := "12345678909";
    FullFormatDigits(t, s);
    SameDigitsAsPlainVector(t, s);
  }

  /** The same CPF with full formatting and a space on each side. */
  lemma PaddedVector(t: string)
    requires t == " 123.456.789-09 "
    ensures ValidaCpf(Str(t))
  {
    var s := "12345678909";
    var inner := t[1..|t| - 1];
    assert inner == "123.456.789-09";
    assert t == [' '] + inner + [' '];
    FullFormatDigits(inner, s);
    PaddingDigits(inner);
    assert OnlyFormatChars(t);
    SameDigitsAsPlainVector(t, s);
  }

  /** The valid vector of test/cpf.js: the leading zero is kept in string form. */
  lemma LeadingZeroVector(s: string)
    requires s == "01234567890"
    ensures ValidaCpf(Str(s))
  {
    assert AllDigits(s);
    DigitsOfDigits(s);
    assert !AllSame(s) by {
      assert s[1] != s[0];
    }
    assert FirstSum(s) == 156;
    assert SecondSum(s) == 210;
    assert OnlyFormatChars(s);
    ValidaCpfIsTextbookRule(s);
  }

  /** Eleven zeros pass both check digits, yet the repetition test rejects them. */
  lemma RepeatedDigitsRejected(z: string)
    requires z == "00000000000"
    ensures CheckDigit(z[..9]) == DigitValue(z[9]) && CheckDigit(z[..10]) == DigitValue(z[10])
    ensures !ValidaCpf(Str(z))
  {
    assert AllDigits(z);
    DigitsOfDigits(z);
    WeightedSumIsFirstSum(z);
    WeightedSumIsSecondSum(z);
    assert AllSame(z);
  }

  /** A wrong second check digit. */
  lemma WrongCheckDigitVector(s: string)
    requires s == "12345678900"
    ensures CheckDigit(s[..9]) == DigitValue(s[9]) && CheckDigit(s[..10]) != DigitValue(s[10])
    ensures !ValidaCpf(Str(s))
  {
    assert AllDigits(s);
    DigitsOfDigits(s);
    WeightedSumIsFirstSum(s);
    WeightedSumIsSecondSum(s);
    assert FirstSum(s) == 210;
    assert SecondSum(s) == 255;
    ValidaCpfIsTextbookRule(s);
  }

  /** The same wrong check digit, formatted. */
  lemma WrongCheckDigitFormatted(t: string)
    requires t == "123.456.789-00"
    ensures !ValidaCpf(Str(t))
  {
    var a, b, c, d := "123", "456", "789", "00";
    var s := a + b + c + d;
    LayoutDigits(t, a, b, c, d);
    assert SecondSum(s) == 255;
    ValidaCpfIsTextbookRule(t);
  }

  /** The wrong check digit of test/cpf.js. */
  lemma WrongCheckDigitOfLeadingZero(z: string)
    requires z == "01234567899"
    ensures !ValidaCpf(Str(z))
  {
    assert AllDigits(z);
    DigitsOfDigits(z);
    assert FirstSum(z) == 156;
    assert SecondSum(z) == 210;
    ValidaCpfIsTextbookRule(z);
  }

  /** Strings the whitelist or the length test rejects, and non-strings. */
  lemma RejectedInputs(empty: string, letters: string, symbols: string)
    requires empty == "" && letters == "123.abc.789-09" && symbols == "123@456#789$09"
    ensures !ValidaCpf(Str(empty)) && !ValidaCpf(Str(letters)) && !ValidaCpf(Str(symbols))
    ensures !ValidaCpf(Null) && !ValidaCpf(Undefined) && !ValidaCpf(Obj) && !ValidaCpf(Arr([]))
    ensures !ValidaCpf(Num(12345678909))
  {
    assert !IsFormatChar(letters[4]);
    assert !IsFormatChar(symbols[3]);
  }

  /** Another valid vector of tests/cpf.test.js, fully formatted. */
  lemma DescendingVector(t: string)
    requires t == "987.654.321-00"
    ensures ValidaCpf(Str(t))
  {
    var a, b, c, d := "987", "654", "321", "00";
    var s := a + b + c + d;
    LayoutDigits(t, a, b, c, d);
    assert OnlyFormatChars(t);
    assert !AllSame(s) by {
      assert s[1] != s[0];
    }
    assert FirstSum(s) == 330;
    assert SecondSum(s) == 375;
    ValidaCpfIsTextbookRule(t);
  }

  /** A valid vector whose first nine digits are mostly zeros. */
  lemma MostlyZerosVector(t: string)
    requires t == "000.000.001-91"
    ensures ValidaCpf(Str(t))
  {
    var a, b, c, d := "000", "000", "001", "91";
    var s := a + b + c + d;
    LayoutDigits(t, a, b, c, d);
    assert OnlyFormatChars(t);
    assert !AllSame(s) by {
      assert s[8] != s[0];
    }
    assert FirstSum(s) == 2;
    assert SecondSum(s) == 21;
    ValidaCpfIsTextbookRule(t);
  }

  /** Repeated ones, formatted. */
  lemma RepeatedOnesRejected(t: string)
    requires t == "111.111.111-11"
    ensures !ValidaCpf(Str(t))
  {
    var a := "111";
    LayoutDigits(t, a, a, a, "11");
    assert AllSame(a + a + a + "11");
  }

  /** A formatted CPF with one digit too many. */
  lemma TooManyDigitsRejected(t: string)
    requires t == "123.456.789-091"
    ensures !ValidaCpf(Str(t))
  {
    LayoutDigits(t, "123", "456", "789", "091");
  }

  /** A formatted CPF with the two check digits missing. */
  lemma TooFewDigitsRejected(t: string)
    requires t == "123.456.789"
    ensures !ValidaCpf(Str(t))
  {
    var e: string := [];
    var u := t + ['-'] + e;
    LayoutDigits(u, "123", "456", "789", e);
    DigitsSkipNonDigit(t, '-', e);
    assert t + e == t;
  }
}
