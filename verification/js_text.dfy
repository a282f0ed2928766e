/** Text primitives of ECMAScript strings that the validators and the user
    registry rely on: the `\s` class (also the set `trim()` removes), the `\d`
    class, `replace(/\D/g, '')`, `trim()`, `toLowerCase()` restricted to ASCII
    letters, and `length` counted in UTF-16 code units. */
module JsText {

  /** `\s` of a JavaScript regular expression, which is also the set of code
      points `String.prototype.trim` removes: the WhiteSpace code points (TAB,
      VT, FF, ZWNBSP and the Unicode `Zs` category) and the LineTerminator code
      points (LF, CR, LS, PS). */
  predicate IsWhitespace(c: char) {
    || c == '\t' || c == '\n' || c == '\U{000B}' || c == '\U{000C}' || c == '\r'
    || c == ' ' || c == '\U{00A0}' || c == '\U{1680}'
    || ('\U{2000}' <= c <= '\U{200A}')
    || c == '\U{2028}' || c == '\U{2029}' || c == '\U{202F}' || c == '\U{205F}'
    || c == '\U{3000}' || c == '\U{FEFF}'
  }

  /** `\d` of a JavaScript regular expression without the `u` flag: the ASCII
      decimal digits, nothing else. */
  predicate IsDigit(c: char) {
    '0' <= c <= '9'
  }

  predicate AllDigits(s: string) {
    forall k :: 0 <= k < |s| ==> IsDigit(s[k])
  }

  /** `parseInt(c)` of a single digit character. */
  function DigitValue(c: char): (d: nat)
    requires IsDigit(c)
    ensures d <= 9
  {
    c as int - '0' as int
  }

  /** `s.replace(/\D/g, '')`: the digits of `s`, in their original order. */
  function Digits(s: string): (r: string)
    ensures AllDigits(r)
    ensures |r| <= |s|
  {
    if |s| == 0 then ""
    else (if IsDigit(s[0]) then [s[0]] else []) + Digits(s[1..])
  }

  /** The cleaned string holds exactly the digits that occur in `s`. */
  lemma {:induction false} DigitsMembers(s: string)
    ensures forall c :: c in Digits(s) <==> c in s && IsDigit(c)
  {
    if |s| > 0 {
      assert s == [s[0]] + s[1..];
      DigitsMembers(s[1..]);
    }
  }

  /** Removing non-digits distributes over concatenation; together with the
      one-character cases this pins `Digits` down as "keep exactly the digits,
      in order". */
  lemma {:induction false} DigitsAppend(a: string, b: string)
    ensures Digits(a + b) == Digits(a) + Digits(b)
  {
    if |a| == 0 {
      assert a + b == b;
    } else {
      assert (a + b)[0] == a[0];
      assert (a + b)[1..] == a[1..] + b;
      DigitsAppend(a[1..], b);
    }
  }

  /** A string of digits is its own digits. */
  lemma {:induction false} DigitsOfDigits(s: string)
    requires AllDigits(s)
    ensures Digits(s) == s
  {
    if |s| > 0 {
      DigitsOfDigits(s[1..]);
    }
  }

  /** A non-digit between two strings contributes nothing. */
  lemma DigitsSkipNonDigit(a: string, c: char, b: string)
    requires !IsDigit(c)
    ensures Digits(a + [c] + b) == Digits(a + b)
  {
    assert a + [c] + b == a + ([c] + b);
    DigitsAppend(a, [c] + b);
    DigitsAppend([c], b);
    assert [c][1..] == "";
    DigitsAppend(a, b);
  }

  /** `s.trimStart()`: drops the leading whitespace. */
  function TrimStart(s: string): (r: string)
    ensures |r| <= |s| && r == s[|s| - |r|..]
    ensures forall k :: 0 <= k < |s| - |r| ==> IsWhitespace(s[k])
    ensures |r| > 0 ==> !IsWhitespace(r[0])
  {
    if |s| > 0 && IsWhitespace(s[0]) then TrimStart(s[1..]) else s
  }

  /** `s.trimEnd()`: drops the trailing whitespace. */
  function TrimEnd(s: string): (r: string)
    ensures |r| <= |s| && r == s[..|r|]
    ensures forall k :: |r| <= k < |s| ==> IsWhitespace(s[k])
    ensures |r| > 0 ==> !IsWhitespace(r[|r| - 1])
  {
    if |s| > 0 && IsWhitespace(s[|s| - 1]) then TrimEnd(s[..|s| - 1]) else s
  }

  /** `s.trim()`. */
  function Trim(s: string): (r: string)
    ensures |r| <= |s|
    ensures |r| > 0 ==> !IsWhitespace(r[0]) && !IsWhitespace(r[|r| - 1])
    ensures var i := |s| - |TrimStart(s)|;
      && i + |r| <= |s| && r == s[i..i + |r|]
      && (forall k :: 0 <= k < i ==> IsWhitespace(s[k]))
      && (forall k :: i + |r| <= k < |s| ==> IsWhitespace(s[k]))
  {
    TrimEnd(TrimStart(s))
  }

  /** `trim()` returns exactly the part of the string between a whitespace
      prefix and a whitespace suffix whose own ends are not whitespace. */
  lemma TrimCharacterization(pre: string, t: string, post: string)
    requires forall k :: 0 <= k < |pre| ==> IsWhitespace(pre[k])
    requires forall k :: 0 <= k < |post| ==> IsWhitespace(post[k])
    requires |t| > 0 ==> !IsWhitespace(t[0]) && !IsWhitespace(t[|t| - 1])
    ensures Trim(pre + t + post) == t
  {
    if |t| == 0 {
      var s := pre + t + post;
      assert forall k :: 0 <= k < |s| ==> IsWhitespace(s[k]) by {
        forall k | 0 <= k < |s|
          ensures IsWhitespace(s[k])
        {
          if k < |pre| {
            assert s[k] == pre[k];
          } else {
            assert s[k] == post[k - |pre|];
          }
        }
      }
      TrimStartAllWhitespace(s);
    } else {
      assert pre + t + post == pre + (t + post);
      TrimStartSkips(pre, t + post);
      TrimEndSkips(t, post);
    }
  }

  lemma {:induction false} TrimStartSkips(pre: string, rest: string)
    requires forall k :: 0 <= k < |pre| ==> IsWhitespace(pre[k])
    requires |rest| > 0 ==> !IsWhitespace(rest[0])
    ensures TrimStart(pre + rest) == TrimStart(rest)
  {
    if |pre| > 0 {
      assert (pre + rest)[1..] == pre[1..] + rest;
      TrimStartSkips(pre[1..], rest);
    } else {
      assert pre + rest == rest;
    }
  }

  lemma {:induction false} TrimStartAllWhitespace(s: string)
    requires forall k :: 0 <= k < |s| ==> IsWhitespace(s[k])
    ensures TrimStart(s) == ""
  {
    if |s| > 0 {
      TrimStartAllWhitespace(s[1..]);
    }
  }

  lemma {:induction false} TrimEndSkips(t: string, post: string)
    requires forall k :: 0 <= k < |post| ==> IsWhitespace(post[k])
    requires |t| > 0 ==> !IsWhitespace(t[|t| - 1])
    ensures TrimEnd(t + post) == TrimEnd(t)
  {
    if |post| > 0 {
      var post' := post[..|post| - 1];
      assert (t + post)[..|t + post| - 1] == t + post';
      TrimEndSkips(t, post');
    } else {
      assert t + post == t;
    }
  }

  /** `length` of a JavaScript string: a code point above U+FFFF occupies two
      UTF-16 code units. */
  function Utf16Length(s: string): (n: nat)
    ensures |s| <= n <= 2 * |s|
    ensures (forall k :: 0 <= k < |s| ==> s[k] as int < 0x1_0000) ==> n == |s|
    ensures |s| == 1 ==> n == (if s[0] as int < 0x1_0000 then 1 else 2)
  {
    if |s| == 0 then 0
    else (if s[0] as int < 0x1_0000 then 1 else 2) + Utf16Length(s[1..])
  }

  /** `length` is additive over concatenation; with the one-character case of
      its contract it counts one unit per code point up to U+FFFF and two per
      code point above. */
  lemma {:induction false} Utf16LengthAppend(a: string, b: string)
    ensures Utf16Length(a + b) == Utf16Length(a) + Utf16Length(b)
  {
    if |a| == 0 {
      assert a + b == b;
    } else {
      assert (a + b)[0] == a[0];
      assert (a + b)[1..] == a[1..] + b;
      Utf16LengthAppend(a[1..], b);
    }
  }

  /** `toLowerCase()` on one character, for the ASCII letters only. */
  function LowerChar(c: char): (d: char)
    ensures !('A' <= d <= 'Z')
    ensures 'A' <= c <= 'Z' ==> d as int == c as int + 32
    ensures !('A' <= c <= 'Z') ==> d == c
  {
    if 'A' <= c <= 'Z' then (c as int + 32) as char else c
  }

  /** `s.toLowerCase()`, ASCII letters only. */
  function Lower(s: string): (r: string)
    ensures |r| == |s|
    ensures forall k :: 0 <= k < |s| ==> r[k] == LowerChar(s[k])
  {
    seq(|s|, k requires 0 <= k < |s| => LowerChar(s[k]))
  }

  predicate IsAsciiLetter(c: char) {
    'A' <= c <= 'Z' || 'a' <= c <= 'z'
  }

  /** Two characters that are equal, or the capital and small form of the
      same ASCII letter. */
  predicate EqualIgnoringCase(c: char, d: char) {
    || c == d
    || (IsAsciiLetter(c) && IsAsciiLetter(d)
        && (c as int - d as int == 32 || d as int - c as int == 32))
  }

  lemma LowerCharEquality(c: char, d: char)
    ensures LowerChar(c) == LowerChar(d) <==> EqualIgnoringCase(c, d)
  {
  }

  /** Comparing lower-cased strings, as the e-mail look-up does, identifies
      exactly the strings of equal length that agree at every position up to
      the case of ASCII letters. */
  lemma LowerEquality(a: string, b: string)
    ensures Lower(a) == Lower(b) <==>
      |a| == |b| && forall k :: 0 <= k < |a| ==> EqualIgnoringCase(a[k], b[k])
  {
    if Lower(a) == Lower(b) {
      forall k | 0 <= k < |a|
        ensures EqualIgnoringCase(a[k], b[k])
      {
        assert Lower(a)[k] == Lower(b)[k];
        LowerCharEquality(a[k], b[k]);
      }
    }
    if |a| == |b| && forall k :: 0 <= k < |a| ==> EqualIgnoringCase(a[k], b[k]) {
      forall k | 0 <= k < |a|
        ensures Lower(a)[k] == Lower(b)[k]
      {
        LowerCharEquality(a[k], b[k]);
      }
    }
  }
}
