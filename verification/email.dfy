/** `validarEmail` of src/usuario.js, which tests `/^[^\s@]+@[^\s@]+\.[^\s@]+$/`.
    `EmailPattern` states what the regular expression matches, as a split of
    the string into its three atoms; `EmailDecision` is a decision procedure:
    no whitespace, exactly one `@` with something before it, and a `.` in the
    domain that is neither its first nor its last character. The two agree on
    every string, and `ValidarEmail` runs the procedure. */
module Email {
  import opened JsText

  /** `[^\s@]+` without the `+`: no whitespace and no `@`. */
  predicate Atom(t: string) {
    forall k :: 0 <= k < |t| ==> t[k] != '@' && !IsWhitespace(t[k])
  }

  /** The strings the regular expression matches: `local@domain.suffix` where
      `i` is the position of the `@`, `j` that of the `.`, and the three parts
      are non-empty atoms. */
  ghost predicate EmailPattern(s: string) {
    exists i, j :: 0 < i && i + 1 < j && j + 1 < |s| && s[i] == '@' && s[j] == '.'
      && Atom(s[..i]) && Atom(s[i + 1..j]) && Atom(s[j + 1..])
  }

  predicate NoWhitespace(s: string) {
    forall k :: 0 <= k < |s| ==> !IsWhitespace(s[k])
  }

  /** The position of the first `@`, or `|s|` when there is none. */
  function FirstAt(s: string): (p: nat)
    ensures p <= |s|
    ensures p < |s| ==> s[p] == '@'
    ensures forall k :: 0 <= k < p ==> s[k] != '@'
  {
    if |s| == 0 then 0
    else if s[0] == '@' then 0
    else 1 + FirstAt(s[1..])
  }

  /** A `.` strictly inside `d`: neither its first nor its last character. */
  predicate HasInnerDot(d: string) {
    exists k :: 1 <= k < |d| - 1 && d[k] == '.'
  }

  /** The decision procedure for the pattern. */
  predicate EmailDecision(s: string) {
    var p := FirstAt(s);
    && NoWhitespace(s)
    && 0 < p < |s|
    && '@' !in s[p + 1..]
    && HasInnerDot(s[p + 1..])
  }

  /** The decision procedure accepts exactly what the regular expression matches. */
  lemma DecisionMatchesPattern(s: string)
    ensures EmailDecision(s) <==> EmailPattern(s)
  {
    if EmailDecision(s) {
      var p := FirstAt(s);
      var d := s[p + 1..];
      var k :| 1 <= k < |d| - 1 && d[k] == '.';
      var j := p + 1 + k;
      assert s[j] == d[k];
      assert Atom(s[..p]);
      var mid, suffix := s[p + 1..j], s[j + 1..];
      assert Atom(mid) by {
        forall m | 0 <= m < |mid|
          ensures mid[m] != '@' && !IsWhitespace(mid[m])
        {
          assert mid[m] == d[m];
        }
      }
      assert Atom(suffix) by {
        forall m | 0 <= m < |suffix|
          ensures suffix[m] != '@' && !IsWhitespace(suffix[m])
        {
          assert suffix[m] == d[k + 1 + m];
        }
      }
      assert EmailPattern(s);
    }
    if EmailPattern(s) {
      var i, j :| 0 < i && i + 1 < j && j + 1 < |s| && s[i] == '@' && s[j] == '.'
        && Atom(s[..i]) && Atom(s[i + 1..j]) && Atom(s[j + 1..]);
      PatternParts(s, i, j);
    }
  }

  /** Every character of a matched string lies in one of the three atoms or is
      the `@` or the `.` between them. */
  lemma PatternParts(s: string, i: nat, j: nat)
    requires 0 < i && i + 1 < j && j + 1 < |s| && s[i] == '@' && s[j] == '.'
    requires Atom(s[..i]) && Atom(s[i + 1..j]) && Atom(s[j + 1..])
    ensures EmailDecision(s)
  {
    forall k | 0 <= k < |s|
      ensures !IsWhitespace(s[k]) && (k != i ==> s[k] != '@')
    {
      if k < i {
        assert s[k] == s[..i][k];
      } else if i < k < j {
        assert s[k] == s[i + 1..j][k - i - 1];
      } else if j < k {
        assert s[k] == s[j + 1..][k - j - 1];
      }
    }
    assert FirstAt(s) == i;
    var d := s[i + 1..];
    assert '@' !in d by {
      forall m | 0 <= m < |d|
        ensures d[m] != '@'
      {
        assert d[m] == s[i + 1 + m];
      }
    }
    assert d[j - i - 1] == '.';
    assert HasInnerDot(d);
  }

  /** `validarEmail(email)`: the regular expression's verdict. */
  function ValidarEmail(s: string): (b: bool)
    ensures b <==> EmailPattern(s)
  {
    DecisionMatchesPattern(s);
    EmailDecision(s)
  }

  /** The accepted e-mail vectors of engenharia-software/tests/usuario.test.js. */
  lemma AcceptedEmailVectors(a: string, b: string)
    requires a == "teste@email.com" && b == "usuario.teste@dominio.com.br"
    ensures ValidarEmail(a) && ValidarEmail(b)
  {
    ShortAddressAccepted(a);
    DottedAddressAccepted(b);
  }

  lemma ShortAddressAccepted(a: string)
    requires a == "teste@email.com"
    ensures EmailDecision(a)
  {
    PatternParts(a, 5, 11);
  }

  lemma DottedAddressAccepted(b: string)
    requires b == "usuario.teste@dominio.com.br"
    ensures EmailDecision(b)
  {
    assert b[13] == '@' && b[21] == '.';
    assert b[..13] == "usuario.teste";
    assert b[14..21] == "dominio";
    assert b[22..] == "com.br";
    PatternParts(b, 13, 21);
  }

  /** A local part of digits only is accepted as well. */
  lemma DigitLocalPartAccepted(c: string)
    requires c == "123@teste.org"
    ensures ValidarEmail(c)
  {
    PatternParts(c, 3, 9);
  }

  /** The rejected e-mail vectors of the same tests: no `@`, an empty local
      part, an empty domain, and a domain without an inner dot. */
  lemma RejectedEmailVectors(a: string, b: string, c: string, d: string)
    requires a == "email-sem-arroba" && b == "@dominio.com" && c == "usuario@"
    requires d == "usuario@dominio"
    ensures !ValidarEmail(a) && !ValidarEmail(b) && !ValidarEmail(c) && !ValidarEmail(d)
  {
    assert forall k :: 0 <= k < |a| ==> a[k] != '@';
    assert FirstAt(b) == 0;
    assert c[7] == '@' && forall k :: 0 <= k < 7 ==> c[k] != '@';
    assert FirstAt(c) == 7;
    assert d[7] == '@' && forall k :: 0 <= k < 7 ==> d[k] != '@';
    assert FirstAt(d) == 7;
    var dom := d[8..];
    assert forall k :: 0 <= k < |dom| ==> dom[k] != '.';
  }
}
