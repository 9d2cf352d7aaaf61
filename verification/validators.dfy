/**
 The three syntactic checks the collection phases apply before storing a
 field: the email and phone regular expressions and the years-of-experience
 bound. Each executable check is paired with a declarative statement of the
 pattern it decides.
 */
module Validators {
  import opened Text

  /** Regex `\w`, read with ASCII semantics. */
  predicate IsWordChar(c: char) {
    'a' <= c <= 'z' || 'A' <= c <= 'Z' || '0' <= c <= '9' || c == '_'
  }

  /** Regex class `[\w\.-]`. */
  predicate IsEmailChar(c: char) {
    IsWordChar(c) || c == '.' || c == '-'
  }

  predicate AllWordChars(s: string) {
    forall i :: 0 <= i < |s| ==> IsWordChar(s[i])
  }

  predicate AllEmailChars(s: string) {
    forall i :: 0 <= i < |s| ==> IsEmailChar(s[i])
  }

  /** The language of `^[\w\.-]+@[\w\.-]+\.\w+$`: a non-empty local part, an
      `@`, a non-empty domain part, a dot and a non-empty word-character
      top-level label. */
  ghost predicate MatchesEmailPattern(s: string) {
    exists at, dot ::
      && 0 < at && at + 1 < dot < |s| - 1
      && s[at] == '@' && s[dot] == '.'
      && AllEmailChars(s[..at])
      && AllEmailChars(s[at + 1..dot])
      && AllWordChars(s[dot + 1..])
  }

  /** `validate_email`: the first `@` and the last `.` split the address. */
  predicate IsValidEmail(s: string) {
    var at := IndexOf(s, '@');
    var dot := LastIndexOf(s, '.');
    && 0 < at && at + 1 < dot < |s| - 1
    && AllEmailChars(s[..at])
    && AllEmailChars(s[at + 1..dot])
    && AllWordChars(s[dot + 1..])
  }

  /** The scanning check decides exactly the regular language. */
  lemma EmailMatchesPattern(s: string)
    ensures IsValidEmail(s) <==> MatchesEmailPattern(s)
  {
    if IsValidEmail(s) {
      ValidEmailWitness(s);
    }
    if MatchesEmailPattern(s) {
      var at, dot :|
        && 0 < at && at + 1 < dot < |s| - 1
        && s[at] == '@' && s[dot] == '.'
        && AllEmailChars(s[..at])
        && AllEmailChars(s[at + 1..dot])
        && AllWordChars(s[dot + 1..]);
      PatternIsValidEmail(s, at, dot);
    }
  }

  /** The positions the scan finds witness the pattern. */
  lemma ValidEmailWitness(s: string)
    requires IsValidEmail(s)
    ensures MatchesEmailPattern(s)
  {
    var at := IndexOf(s, '@');
    var dot := LastIndexOf(s, '.');
    assert s[at] == '@' && s[dot] == '.';
  }

  /** Any split witnessing the pattern is the one the scan finds: no `@` can
      come before the first one, and no `.` after the last. */
  lemma PatternIsValidEmail(s: string, at: int, dot: int)
    requires 0 < at && at + 1 < dot < |s| - 1
    requires s[at] == '@' && s[dot] == '.'
    requires AllEmailChars(s[..at])
    requires AllEmailChars(s[at + 1..dot])
    requires AllWordChars(s[dot + 1..])
    ensures IsValidEmail(s)
  {
    forall k | 0 <= k < at ensures s[k] != '@' {
      assert s[..at][k] == s[k];
    }
    IndexOfIs(s, '@', at);
    forall k | dot < k < |s| ensures s[k] != '.' {
      assert s[dot + 1..][k - dot - 1] == s[k];
    }
    LastIndexOfIs(s, '.', dot);
  }

  /** An accepted address has no surrounding whitespace, so the `strip()`
      applied before storing it changes nothing. */
  lemma ValidEmailIsStripped(s: string)
    requires IsValidEmail(s)
    ensures Strip(s) == s
  {
    assert s[..IndexOf(s, '@')][0] == s[0];
    assert s[LastIndexOf(s, '.') + 1..][|s| - LastIndexOf(s, '.') - 2] == s[|s| - 1];
    StripOfStripped(s);
  }

  /** `validate_phone`, the regex `^\+?\d{7,15}$`. */
  predicate IsValidPhone(s: string) {
    var digits := if s != [] && s[0] == '+' then s[1..] else s;
    7 <= |digits| <= 15 && AllDigits(digits)
  }

  /** The two alternatives of the optional `+`: a bare run of 7 to 15 digits,
      or a `+` followed by one. */
  lemma PhoneAlternatives(s: string)
    ensures IsValidPhone(s) <==>
      || (7 <= |s| <= 15 && AllDigits(s))
      || (8 <= |s| <= 16 && s[0] == '+' && AllDigits(s[1..]))
  {
    if s != [] && s[0] == '+' {
      assert !IsDigit(s[0]);
    }
  }

  /** Prefixing `+` to a bare digit string does not change the verdict; a
      second `+` is always rejected. */
  lemma PhonePlusPrefix(d: string)
    requires d == [] || d[0] != '+'
    ensures IsValidPhone("+" + d) == IsValidPhone(d)
    ensures !IsValidPhone("++" + d)
  {
    assert ("+" + d)[1..] == d;
    assert ("++" + d)[1..][0] == '+';
  }

  lemma ValidPhoneIsStripped(s: string)
    requires IsValidPhone(s)
    ensures Strip(s) == s
  {
    if s[0] != '+' {
      assert IsDigit(s[0]);
    }
    assert IsDigit(s[|s| - 1]) by {
      if s[0] == '+' { assert s[1..][|s| - 2] == s[|s| - 1]; }
    }
    StripOfStripped(s);
  }

  function DigitValue(c: char): nat
    requires IsDigit(c)
  {
    c as int - '0' as int
  }

  function DigitChar(d: nat): (c: char)
    requires d < 10
    ensures IsDigit(c) && DigitValue(c) == d
  {
    ('0' as int + d) as char
  }

  /** Python's `int(s)` on a string of ASCII digits (leading zeros allowed). */
  function DecimalValue(s: string): nat
    requires AllDigits(s)
  {
    if s == [] then 0
    else DecimalValue(s[..|s| - 1]) * 10 + DigitValue(s[|s| - 1])
  }

  /** `str(n)`: the shortest decimal rendering of `n`. */
  function Decimal(n: nat): (r: string)
    ensures r != [] && AllDigits(r)
    ensures DecimalValue(r) == n
    ensures |r| > 1 ==> r[0] != '0'
  {
    if n < 10 then [DigitChar(n)]
    else
      var r := Decimal(n / 10) + [DigitChar(n % 10)];
      assert r[..|r| - 1] == Decimal(n / 10);
      r
  }

  /** The experience handler's test `exp.isdigit() and 0 <= int(exp) < 60`. */
  predicate IsValidExperience(s: string) {
    s != [] && AllDigits(s) && DecimalValue(s) < 60
  }

  /** The bound is exact: the rendering of `n` is accepted iff `n < 60`. */
  lemma ExperienceBound(n: nat)
    ensures IsValidExperience(Decimal(n)) <==> n < 60
  {
  }

  /** Leading zeros do not change the value, so zero-padded numbers below 60
      pass as well. */
  lemma {:induction false} LeadingZero(s: string)
    requires AllDigits(s)
    ensures AllDigits("0" + s) && DecimalValue("0" + s) == DecimalValue(s)
    decreases |s|
  {
    if s != [] {
      var t := "0" + s;
      assert t[..|t| - 1] == "0" + s[..|s| - 1];
      LeadingZero(s[..|s| - 1]);
    }
  }

  /** Signs, blanks and other non-digits are rejected. */
  lemma ExperienceRejectsNonDigits(s: string, i: nat)
    requires i < |s| && !IsDigit(s[i])
    ensures !IsValidExperience(s)
  {
  }

  lemma ValidExperienceIsStripped(s: string)
    requires IsValidExperience(s)
    ensures Strip(s) == s
  {
    assert IsDigit(s[0]) && IsDigit(s[|s| - 1]);
    StripOfStripped(s);
  }
}
