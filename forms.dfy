/**
 * The form validation rules, one predicate per schema. Each regular
 * expression is written out over characters: `^...$` without flags anchors
 * at the two ends of the whole input, and `.` matches anything except a
 * line terminator.
 */
module Forms {
  import opened Js
  import Messages
  import opened Wrappers

  // ---------------------------------------------------------------- username

  const MinUsernameLength: nat := 2
  const MaxUsernameLength: nat := 20

  /** `/^[a-zA-Z0-9_]+$/` */
  predicate WordCharsOnly(s: string) {
    |s| >= 1 && forall i :: 0 <= i < |s| ==> IsWordChar(s[i])
  }

  /** The `username` field: `.min(2).max(20).regex(/^[a-zA-Z0-9_]+$/)`. */
  predicate UsernameRule(name: string) {
    |name| >= MinUsernameLength && |name| <= MaxUsernameLength && WordCharsOnly(name)
  }

  // ---------------------------------------------------------------- password

  datatype CharClass = DigitClass | LowerClass | UpperClass | LetterClass

  predicate InClass(c: char, k: CharClass) {
    match k
    case DigitClass => IsDigit(c)
    case LowerClass => IsLower(c)
    case UpperClass => IsUpper(c)
    case LetterClass => IsLower(c) || IsUpper(c)
  }

  /** `(?=.*X)` at the start of `p`: some character of class X with no line terminator before it. */
  predicate LookaheadAt0(p: string, k: CharClass) {
    exists i :: 0 <= i < |p| && InClass(p[i], k) && NoLineTerminatorBefore(p, i)
  }

  predicate NoLineTerminatorBefore(p: string, i: int)
    requires 0 <= i <= |p|
  {
    forall j :: 0 <= j < i ==> !IsLineTerminator(p[j])
  }

  /** `.{8,}$` from the start: at least eight characters, none a line terminator. */
  predicate EightOrMoreDots(p: string) {
    |p| >= 8 && NoLineTerminatorBefore(p, |p|)
  }

  /** `/^(?=.*\d)(?=.*[a-z])(?=.*[A-Z])(?=.*[a-zA-Z]).{8,}$/` */
  predicate PasswordPattern(p: string) {
    && LookaheadAt0(p, DigitClass)
    && LookaheadAt0(p, LowerClass)
    && LookaheadAt0(p, UpperClass)
    && LookaheadAt0(p, LetterClass)
    && EightOrMoreDots(p)
  }

  /** The `password` field of the sign-up and change-password forms: `.min(6).regex(...)`. */
  predicate PasswordRule(p: string) {
    |p| >= 6 && PasswordPattern(p)
  }

  predicate HasClass(p: string, k: CharClass) {
    exists i :: 0 <= i < |p| && InClass(p[i], k)
  }

  /**
   * What the password rule comes down to: at least eight characters, no line
   * break, and at least one digit, one lower-case and one upper-case ASCII
   * letter. The `min(6)` check and the `[a-zA-Z]` look-ahead add nothing.
   */
  lemma PasswordRuleMeaning(p: string)
    ensures PasswordRule(p) <==>
      |p| >= 8 && NoLineTerminatorBefore(p, |p|)
      && HasClass(p, DigitClass) && HasClass(p, LowerClass) && HasClass(p, UpperClass)
  {
    if |p| >= 8 && NoLineTerminatorBefore(p, |p|) {
      forall k: CharClass | HasClass(p, k) ensures LookaheadAt0(p, k) {
        var i :| 0 <= i < |p| && InClass(p[i], k);
        assert NoLineTerminatorBefore(p, i);
      }
      if HasClass(p, LowerClass) {
        var i :| 0 <= i < |p| && InClass(p[i], LowerClass);
        assert InClass(p[i], LetterClass);
      }
    }
  }

  /**
   * The error text asks for a special character, but the rule accepts a
   * password made of letters and digits only.
   */
  lemma NoSpecialCharacterNeeded(p: string)
    requires |p| >= 8 && forall i :: 0 <= i < |p| ==> IsWordChar(p[i])
    requires HasClass(p, DigitClass) && HasClass(p, LowerClass) && HasClass(p, UpperClass)
    ensures PasswordRule(p)
  {
    forall j | 0 <= j < |p| ensures !IsLineTerminator(p[j]) {
      assert IsWordChar(p[j]);
    }
    PasswordRuleMeaning(p);
  }

  /** The `password` field of `changePasswordSchema`, the same rule as at sign-up. */
  predicate ChangePasswordRule(p: string) {
    PasswordRule(p)
  }

  // ---------------------------------------------------------------- the schemas

  datatype SignUpForm = SignUpForm(username: string, email: string, password: string)

  /**
   * `signUpSchema`. Whether the e-mail is well formed is decided by the
   * validation library and is passed in.
   */
  predicate SignUpRule(f: SignUpForm, emailWellFormed: bool) {
    UsernameRule(f.username) && emailWellFormed && PasswordRule(f.password)
  }

  /**
   * What `signUpSchema` accepts, written out: a well-formed e-mail, a
   * username of 2 to 20 word characters, and a password of at least eight
   * characters with no line break and a digit, a lower-case and an
   * upper-case letter.
   */
  lemma SignUpRuleMeaning(f: SignUpForm, emailWellFormed: bool)
    ensures SignUpRule(f, emailWellFormed) <==>
      && emailWellFormed
      && 2 <= |f.username| <= 20
      && (forall i :: 0 <= i < |f.username| ==> IsWordChar(f.username[i]))
      && |f.password| >= 8 && NoLineTerminatorBefore(f.password, |f.password|)
      && HasClass(f.password, DigitClass) && HasClass(f.password, LowerClass)
      && HasClass(f.password, UpperClass)
  {
    PasswordRuleMeaning(f.password);
  }

  /** `signInSchema` */
  predicate SignInRule(identifier: string, password: string) {
    |identifier| >= 1 && |password| >= 1
  }

  /**
   * Every form the sign-up schema accepts passes the sign-in schema with its
   * username as the identifier and the same password.
   */
  lemma SignedUpCanSignIn(f: SignUpForm, emailWellFormed: bool)
    requires SignUpRule(f, emailWellFormed)
    ensures SignInRule(f.username, f.password)
    ensures f.password != "" && f.username != ""
  {
  }

  /** `messageSchema` */
  predicate MessageRule(content: string) {
    Messages.MinContentLength <= |content| <= Messages.MaxContentLength
  }

  /** `/^\d{6}$/` */
  predicate SixDigitPattern(code: string) {
    |code| == 6 && AllDigits(code)
  }

  /** `verifySchema`: `.length(6).regex(/^\d{6}$/)` */
  predicate VerifyCodeRule(code: string) {
    |code| == 6 && SixDigitPattern(code)
  }

  /** A content that passes the form and has no surrounding whitespace is stored as it is. */
  lemma TrimmedFormContentIsStored(content: string)
    requires MessageRule(content) && IsTrimmed(content)
    ensures Messages.StoredContent(content) == Ok(content)
  {
    TrimOfTrimmed(content);
  }

  /**
   * The form counts surrounding whitespace and the schema does not: the form
   * accepts a content that the schema then rejects.
   */
  lemma FormAcceptsWhatSchemaRejects(x: char, pad: string)
    requires !IsSpace(x) && |pad| + 1 == Messages.MinContentLength
    requires forall i :: 0 <= i < |pad| ==> IsSpace(pad[i])
    ensures MessageRule([x] + pad)
    ensures Messages.StoredContent([x] + pad) == Err(Messages.ContentTooShort)
  {
    var c := [x] + pad;
    assert TrimStart(c) == c;
    TrimEndDropsSpaces(c);
    assert !IsSpace(c[0]);
    assert |TrimEnd(c)| >= 1;
    assert Trim(c) == TrimEnd(c) == [x];
  }
}
