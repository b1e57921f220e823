/**
 * The identifier classifier of shared/utility.py. Its two anchored regular
 * expressions are rewritten as hand-written recognisers over strings:
 *
 *   email  ^[a-zA-Z0-9._%+-]+@[a-zA-Z0-9.-]+\.[a-zA-Z]{2,}$
 *   phone  ^(\+\d{1,3})?\s?\(?\d{1,4}\)?[\s.-]?\d{3}[\s.-]?\d{4}$
 *
 * and `CheckEmailOrPhone` tries the email pattern first, then the phone
 * pattern, and raises a validation error when neither matches the whole input.
 */
module Utility {
  import opened Wrappers
  import opened Text
  import opened Errors

  // ---------------------------------------------------------------- email

  /** `[a-zA-Z0-9._%+-]` */
  predicate IsLocalChar(c: char) {
    IsAsciiLetter(c) || IsDigit(c) || c == '.' || c == '_' || c == '%' || c == '+' || c == '-'
  }

  /** `[a-zA-Z0-9.-]` */
  predicate IsDomainChar(c: char) {
    IsAsciiLetter(c) || IsDigit(c) || c == '.' || c == '-'
  }

  predicate AllLocal(s: string) { forall i :: 0 <= i < |s| ==> IsLocalChar(s[i]) }

  predicate AllDomain(s: string) { forall i :: 0 <= i < |s| ==> IsDomainChar(s[i]) }

  predicate AllLetters(s: string) { forall i :: 0 <= i < |s| ==> IsAsciiLetter(s[i]) }

  /**
   * The email recogniser: a non-empty local part up to the first `@`, and a
   * domain after it. No class of the pattern admits `@`, so the first `@` is
   * the only one.
   */
  predicate IsEmail(s: string) {
    match IndexOf(s, '@')
    case None => false
    case Some(at) => 0 < at && AllLocal(s[..at]) && IsEmailDomain(s[at + 1..])
  }

  /**
   * `[a-zA-Z0-9.-]+\.[a-zA-Z]{2,}`: letters cannot include `.`, so the final
   * group is exactly the text after the last dot.
   */
  predicate IsEmailDomain(d: string) {
    match LastIndexOf(d, '.')
    case None => false
    case Some(dot) => 0 < dot && dot + 2 < |d| && AllDomain(d[..dot]) && AllLetters(d[dot + 1..])
  }

  /**
   * The language of the email pattern, read off its concatenation: the input
   * splits at some `@` and some later `.` into three runs of the three
   * character classes, of lengths at least 1, 1 and 2.
   */
  ghost predicate EmailPattern(s: string) {
    exists at: nat, dot: nat :: EmailSplit(s, at, dot)
  }

  /** `s[..at]`, `s[at + 1..dot]` and `s[dot + 1..]` match the three runs of the email pattern. */
  ghost predicate EmailSplit(s: string, at: nat, dot: nat) {
    && 0 < at && at + 1 < dot && dot + 2 < |s|
    && s[at] == '@' && s[dot] == '.'
    && AllLocal(s[..at]) && AllDomain(s[at + 1..dot]) && AllLetters(s[dot + 1..])
  }

  lemma EmailRecogniserSound(s: string)
    requires IsEmail(s)
    ensures EmailPattern(s)
  {
    var at := IndexOf(s, '@').value;
    var d := s[at + 1..];
    var k := LastIndexOf(d, '.').value;
    var dot := at + 1 + k;
    assert s[at + 1..dot] == d[..k];
    assert s[dot + 1..] == d[k + 1..];
    assert s[dot] == d[k];
    assert EmailSplit(s, at, dot);
  }

  /** A domain split at a dot into a run of domain characters and a run of two or more letters is recognised. */
  lemma DomainRecognised(d: string, k: nat)
    requires 0 < k && k + 2 < |d| && d[k] == '.'
    requires AllDomain(d[..k]) && AllLetters(d[k + 1..])
    ensures IsEmailDomain(d)
  {
    forall j | k < j < |d| ensures d[j] != '.' {
      assert IsAsciiLetter(d[k + 1..][j - k - 1]);
    }
    LastIndexOfIs(d, '.', k);
  }

  lemma EmailRecogniserComplete(s: string)
    requires EmailPattern(s)
    ensures IsEmail(s)
  {
    var at: nat, dot: nat :| EmailSplit(s, at, dot);
    forall j | 0 <= j < at ensures s[j] != '@' {
      assert IsLocalChar(s[..at][j]);
    }
    IndexOfIs(s, '@', at);
    var d := s[at + 1..];
    var k := dot - at - 1;
    assert d[..k] == s[at + 1..dot];
    assert d[k + 1..] == s[dot + 1..];
    DomainRecognised(d, k);
  }

  /** The recogniser accepts exactly the language of the email pattern. */
  lemma EmailRecogniserMatchesPattern(s: string)
    ensures IsEmail(s) <==> EmailPattern(s)
  {
    if IsEmail(s) {
      EmailRecogniserSound(s);
    }
    if EmailPattern(s) {
      EmailRecogniserComplete(s);
    }
  }

  /** No character of a recognised domain is `@`. */
  lemma DomainHasNoAt(d: string)
    requires IsEmailDomain(d)
    ensures '@' !in d
  {
    var dot := LastIndexOf(d, '.').value;
    forall j | 0 <= j < |d| ensures d[j] != '@' {
      if j < dot {
        assert IsDomainChar(d[..dot][j]);
      } else if j > dot {
        assert IsAsciiLetter(d[dot + 1..][j - dot - 1]);
      }
    }
  }

  /** An accepted email holds exactly one `@`. */
  lemma EmailHasSingleAt(s: string)
    requires IsEmail(s)
    ensures Occurrences(s, '@') == 1
  {
    var at := IndexOf(s, '@').value;
    DomainHasNoAt(s[at + 1..]);
    OccursOnce(s, '@', at);
  }

  // ---------------------------------------------------------------- phone

  /** `[\s.-]` */
  predicate IsSeparator(c: char) { IsSpace(c) || c == '.' || c == '-' }

  /** `\d{4}$` */
  predicate LineNumber(s: string) { |s| == 4 && AllDigits(s) }

  /** `[\s.-]?\d{4}$` */
  predicate AfterExchange(s: string) {
    LineNumber(s) || (|s| > 0 && IsSeparator(s[0]) && LineNumber(s[1..]))
  }

  /** `\d{3}[\s.-]?\d{4}$` */
  predicate Exchange(s: string) {
    |s| >= 3 && AllDigits(s[..3]) && AfterExchange(s[3..])
  }

  /** `[\s.-]?\d{3}…` */
  predicate BeforeExchange(s: string) {
    Exchange(s) || (|s| > 0 && IsSeparator(s[0]) && Exchange(s[1..]))
  }

  /** `\)?[\s.-]?…` */
  predicate AfterAreaCode(s: string) {
    BeforeExchange(s) || (|s| > 0 && s[0] == ')' && BeforeExchange(s[1..]))
  }

  /** `\d{1,4}\)?…`: the area code is 1 to 4 digits, backtracking over the split. */
  predicate AreaCode(s: string) {
    exists n :: 1 <= n <= 4 && n <= |s| && AllDigits(s[..n]) && AfterAreaCode(s[n..])
  }

  /** `\(?\d{1,4}…` */
  predicate BeforeAreaCode(s: string) {
    AreaCode(s) || (|s| > 0 && s[0] == '(' && AreaCode(s[1..]))
  }

  /** `\s?\(?…` */
  predicate AfterCountryCode(s: string) {
    BeforeAreaCode(s) || (|s| > 0 && IsSpace(s[0]) && BeforeAreaCode(s[1..]))
  }

  /** `\d{1,3}\s?…`: the country code after its `+` is 1 to 3 digits. */
  predicate CountryCode(s: string) {
    exists n :: 1 <= n <= 3 && n <= |s| && AllDigits(s[..n]) && AfterCountryCode(s[n..])
  }

  /** The phone recogniser: `^(\+\d{1,3})?` followed by the rest of the pattern. */
  predicate IsPhone(s: string) {
    AfterCountryCode(s) || (|s| > 0 && s[0] == '+' && CountryCode(s[1..]))
  }

  /** The characters any part of the phone pattern can consume. */
  predicate IsPhoneChar(c: char) {
    IsDigit(c) || c == '+' || IsSpace(c) || c == '(' || c == ')' || c == '.' || c == '-'
  }

  predicate AllPhoneChars(s: string) { forall i :: 0 <= i < |s| ==> IsPhoneChar(s[i]) }

  lemma Join(s: string, n: nat)
    requires n <= |s| && AllPhoneChars(s[..n]) && AllPhoneChars(s[n..])
    ensures AllPhoneChars(s)
    ensures DigitCount(s) == DigitCount(s[..n]) + DigitCount(s[n..])
  {
    assert s == s[..n] + s[n..];
    DigitCountAppend(s[..n], s[n..]);
    forall i | 0 <= i < |s| ensures IsPhoneChar(s[i]) {
      if i < n { assert s[i] == s[..n][i]; } else { assert s[i] == s[n..][i - n]; }
    }
  }

  /** A single punctuation character counts no digit. */
  lemma JoinMark(s: string)
    requires |s| > 0 && IsPhoneChar(s[0]) && !IsDigit(s[0]) && AllPhoneChars(s[1..])
    ensures AllPhoneChars(s) && DigitCount(s) == DigitCount(s[1..])
  {
    Join(s, 1);
  }

  /** A run of `n` digits counts `n`. */
  lemma JoinDigits(s: string, n: nat)
    requires n <= |s| && AllDigits(s[..n]) && AllPhoneChars(s[n..])
    ensures AllPhoneChars(s) && DigitCount(s) == n + DigitCount(s[n..])
  {
    DigitCountOfDigits(s[..n]);
    Join(s, n);
  }

  lemma AfterExchangeShape(s: string)
    requires AfterExchange(s)
    ensures AllPhoneChars(s) && DigitCount(s) == 4
  {
    if LineNumber(s) {
      DigitCountOfDigits(s);
    } else {
      DigitCountOfDigits(s[1..]);
      JoinMark(s);
    }
  }

  lemma ExchangeShape(s: string)
    requires Exchange(s)
    ensures AllPhoneChars(s) && DigitCount(s) == 7
  {
    AfterExchangeShape(s[3..]);
    JoinDigits(s, 3);
  }

  lemma AfterAreaCodeShape(s: string)
    requires AfterAreaCode(s)
    ensures AllPhoneChars(s) && DigitCount(s) == 7
  {
    if BeforeExchange(s) {
      BeforeExchangeShape(s);
    } else {
      BeforeExchangeShape(s[1..]);
      JoinMark(s);
    }
  }

  lemma BeforeExchangeShape(s: string)
    requires BeforeExchange(s)
    ensures AllPhoneChars(s) && DigitCount(s) == 7
  {
    if Exchange(s) {
      ExchangeShape(s);
    } else {
      ExchangeShape(s[1..]);
      JoinMark(s);
    }
  }

  lemma AreaCodeShape(s: string)
    requires AreaCode(s)
    ensures AllPhoneChars(s) && 8 <= DigitCount(s) <= 11
  {
    var n :| 1 <= n <= 4 && n <= |s| && AllDigits(s[..n]) && AfterAreaCode(s[n..]);
    AfterAreaCodeShape(s[n..]);
    JoinDigits(s, n);
  }

  lemma AfterCountryCodeShape(s: string)
    requires AfterCountryCode(s)
    ensures AllPhoneChars(s) && 8 <= DigitCount(s) <= 11
  {
    if BeforeAreaCode(s) {
      BeforeAreaCodeShape(s);
    } else {
      BeforeAreaCodeShape(s[1..]);
      JoinMark(s);
    }
  }

  lemma BeforeAreaCodeShape(s: string)
    requires BeforeAreaCode(s)
    ensures AllPhoneChars(s) && 8 <= DigitCount(s) <= 11
  {
    if AreaCode(s) {
      AreaCodeShape(s);
    } else {
      AreaCodeShape(s[1..]);
      JoinMark(s);
    }
  }

  /**
   * A phone match is made of digits, `+`, whitespace, parentheses, dots and
   * dashes only, and holds 8 to 14 digits: 1 to 3 of country code, 1 to 4 of
   * area code, then 3 and 4.
   */
  lemma PhoneShape(s: string)
    requires IsPhone(s)
    ensures AllPhoneChars(s) && 8 <= DigitCount(s) <= 14
  {
    if AfterCountryCode(s) {
      AfterCountryCodeShape(s);
    } else {
      var t := s[1..];
      var n :| 1 <= n <= 3 && n <= |t| && AllDigits(t[..n]) && AfterCountryCode(t[n..]);
      AfterCountryCodeShape(t[n..]);
      JoinDigits(t, n);
      JoinMark(s);
    }
  }

  /** No string is both an email and a phone number: only the email has an `@`. */
  lemma EmailPhoneDisjoint(s: string)
    ensures IsEmail(s) ==> !IsPhone(s)
  {
    if IsEmail(s) {
      var at := IndexOf(s, '@').value;
      assert !IsPhoneChar(s[at]);
      if IsPhone(s) {
        PhoneShape(s);
        assert false;
      }
    }
  }

  /** The two parentheses are independently optional, so an unclosed one is accepted. */
  lemma UnbalancedParenthesisAccepted()
    ensures IsPhone("(123 456 7890")
  {
    var s := "(123 456 7890";
    assert LineNumber("7890");
    assert AfterExchange(" 7890");
    assert "456 7890"[..3] == "456" && "456 7890"[3..] == " 7890";
    assert Exchange("456 7890");
    assert BeforeExchange(" 456 7890");
    assert AfterAreaCode(" 456 7890");
    assert "123 456 7890"[..3] == "123" && "123 456 7890"[3..] == " 456 7890";
    assert AreaCode("123 456 7890");
    assert s[1..] == "123 456 7890";
    assert BeforeAreaCode(s);
  }

  // ---------------------------------------------------------------- classifier

  /** The two answers of `check_email_or_phone_number`: `'email'` and `'phone'`. */
  datatype InputKind = EmailInput | PhoneInput

  /**
   * `check_email_or_phone_number`: the email pattern is tried first, then the
   * phone pattern; an input matching neither raises a validation error.
   */
  function CheckEmailOrPhone(s: string): (r: Result<InputKind, Error>)
    ensures r == Success(EmailInput) <==> EmailPattern(s)
    ensures r == Success(PhoneInput) <==> IsPhone(s)
    ensures r.Failure? <==> !EmailPattern(s) && !IsPhone(s)
    ensures r.Failure? ==> r.error == ValidationError(BadEmailOrPhone)
    ensures r == Success(EmailInput) ==> Occurrences(s, '@') == 1
    ensures r == Success(PhoneInput) ==> '@' !in s && AllPhoneChars(s) && 8 <= DigitCount(s) <= 14
  {
    EmailRecogniserMatchesPattern(s);
    EmailPhoneDisjoint(s);
    if IsEmail(s) then
      EmailHasSingleAt(s);
      Success(EmailInput)
    else if IsPhone(s) then
      PhoneShape(s);
      Success(PhoneInput)
    else
      Failure(ValidationError(BadEmailOrPhone))
  }
}
