/**
 * The account validators: password rules, the e-mail and name checks used at
 * registration, and reading a token from an `Authorization: Bearer` header (a
 * simplified form of section 2.1 of RFC 6750). Password hashing and session
 * token signing are not part of this model.
 */
module Auth {
  import opened Wrappers
  import opened JsString
  import opened EmailPattern

  const PasswordTooShort: string := "Password must be at least 8 characters long"
  const PasswordNoUppercase: string := "Password must contain at least one uppercase letter"
  const PasswordNoLowercase: string := "Password must contain at least one lowercase letter"
  const PasswordNoNumber: string := "Password must contain at least one number"

  /** The position of each password message in the fixed reporting order. */
  function PasswordRuleOrder(message: string): int {
    if message == PasswordTooShort then 0
    else if message == PasswordNoUppercase then 1
    else if message == PasswordNoLowercase then 2
    else if message == PasswordNoNumber then 3
    else 4
  }

  lemma PasswordMessagesDistinct()
    ensures PasswordRuleOrder(PasswordTooShort) == 0
    ensures PasswordRuleOrder(PasswordNoUppercase) == 1
    ensures PasswordRuleOrder(PasswordNoLowercase) == 2
    ensures PasswordRuleOrder(PasswordNoNumber) == 3
  {
    assert PasswordTooShort[14] != PasswordNoUppercase[14];
    assert PasswordTooShort[14] != PasswordNoLowercase[14];
    assert PasswordTooShort[14] != PasswordNoNumber[14];
    assert PasswordNoUppercase[35] != PasswordNoLowercase[35];
    assert |PasswordNoUppercase| != |PasswordNoNumber|;
    assert |PasswordNoLowercase| != |PasswordNoNumber|;
  }

  /** `/[A-Z]/`, `/[a-z]/` and `/\\d/` each find a character. */
  predicate HasUppercase(p: string) {
    exists i :: 0 <= i < |p| && 'A' <= p[i] <= 'Z'
  }

  predicate HasLowercase(p: string) {
    exists i :: 0 <= i < |p| && 'a' <= p[i] <= 'z'
  }

  predicate HasDigit(p: string) {
    exists i :: 0 <= i < |p| && IsDigit(p[i])
  }

  /** The messages for the broken rules, in the order length, uppercase, lowercase, digit. */
  function PasswordErrors(p: string): seq<string> {
    (if |p| < 8 then [PasswordTooShort] else [])
    + (if !HasUppercase(p) then [PasswordNoUppercase] else [])
    + (if !HasLowercase(p) then [PasswordNoLowercase] else [])
    + (if !HasDigit(p) then [PasswordNoNumber] else [])
  }

  /** Each message is reported exactly when its rule is broken. */
  lemma PasswordErrorsReportBrokenRules(p: string)
    ensures PasswordTooShort in PasswordErrors(p) <==> |p| < 8
    ensures PasswordNoUppercase in PasswordErrors(p) <==> !HasUppercase(p)
    ensures PasswordNoLowercase in PasswordErrors(p) <==> !HasLowercase(p)
    ensures PasswordNoNumber in PasswordErrors(p) <==> !HasDigit(p)
  {
    PasswordMessagesDistinct();
  }

  /** At most the four messages are reported, each once and in rule order. */
  lemma PasswordErrorsInRuleOrder(p: string)
    ensures |PasswordErrors(p)| <= 4
    ensures forall i :: 0 <= i < |PasswordErrors(p)| ==> PasswordRuleOrder(PasswordErrors(p)[i]) < 4
    ensures forall i, j :: 0 <= i < j < |PasswordErrors(p)| ==>
      PasswordRuleOrder(PasswordErrors(p)[i]) < PasswordRuleOrder(PasswordErrors(p)[j])
  {
    PasswordMessagesDistinct();
  }

  /** No message is reported exactly when all four rules hold. */
  lemma PasswordValidExactly(p: string)
    ensures PasswordErrors(p) == [] <==> 8 <= |p| && HasUppercase(p) && HasLowercase(p) && HasDigit(p)
  {
  }

  /** `validatePassword`: pushes the message of each broken rule in turn, and is valid
      exactly when it pushed none. */
  method ValidatePassword(password: string) returns (isValid: bool, errors: seq<string>)
    ensures errors == PasswordErrors(password)
    ensures isValid <==> errors == []
  {
    errors := [];
    if |password| < 8 {
      errors := errors + [PasswordTooShort];
    }
    if !HasUppercase(password) {
      errors := errors + [PasswordNoUppercase];
    }
    if !HasLowercase(password) {
      errors := errors + [PasswordNoLowercase];
    }
    if !HasDigit(password) {
      errors := errors + [PasswordNoNumber];
    }
    isValid := |errors| == 0;
  }

  /** A password of eight or more characters with an uppercase letter, a lowercase letter
      and a digit is accepted. */
  method PasswordExample() returns (isValid: bool)
    ensures isValid
  {
    var p := "Passw0rd";
    assert 'A' <= p[0] <= 'Z';
    assert HasUppercase(p);
    assert 'a' <= p[1] <= 'z';
    assert HasLowercase(p);
    assert IsDigit(p[5]);
    assert HasDigit(p);
    PasswordValidExactly(p);
    var errors;
    isValid, errors := ValidatePassword(p);
  }

  /** `validateEmail`: the e-mail shape of the lower-cased address. */
  function ValidateEmail(email: string): (ok: bool)
    ensures ok <==> MatchesPattern(email)
  {
    LowerCaseKeepsShape(email);
    IsEmailShapeMatchesPattern(email);
    IsEmailShape(ToLower(email))
  }

  /** `validateName`: between 2 and 100 characters once trimmed. */
  function ValidateName(name: string): (ok: bool)
    ensures ok ==> 2 <= |name|
  {
    2 <= |Trim(name)| <= 100
  }

  /** A name is accepted exactly when it is 2 to 100 non-space-bounded characters with
      nothing but white space around them. */
  lemma ValidateNameCore(name: string)
    ensures ValidateName(name) <==>
      exists r, i :: TrimmedAt(name, r, i) && Tight(r) && 2 <= |r| <= 100
  {
    TrimShape(name);
    var i0 :| TrimmedAt(name, Trim(name), i0);
    if exists r, i :: TrimmedAt(name, r, i) && Tight(r) && 2 <= |r| <= 100 {
      var r, i :| TrimmedAt(name, r, i) && Tight(r) && 2 <= |r| <= 100;
      TrimmedUnique(name, r, i, Trim(name), i0);
    }
  }

  /** Surrounding white space never changes whether a name is accepted. */
  lemma ValidateNameIgnoresPadding(before: string, name: string, after: string)
    requires AllSpace(before) && AllSpace(after)
    ensures ValidateName(before + name + after) == ValidateName(name)
  {
    TrimPadded(before, name, after);
  }

  /** `extractTokenFromHeader`: the text after `Bearer ` when the header splits on spaces
      into exactly `Bearer` and one more piece; nothing for a missing or empty header. */
  function ExtractTokenFromHeader(authorization: Option<string>): Option<string> {
    if authorization.None? || authorization.value == "" then None
    else
      var parts := Split(authorization.value, ' ');
      if |parts| != 2 || parts[0] != "Bearer" then None
      else Some(parts[1])
  }

  /** A token is read exactly from `Bearer` + one space + a space-free token (which may be
      empty). */
  lemma ExtractTokenExactly(authorization: Option<string>, token: string)
    ensures ExtractTokenFromHeader(authorization) == Some(token) <==>
      authorization == Some("Bearer " + token) && ' ' !in token
  {
    if ExtractTokenFromHeader(authorization) == Some(token) {
      var h := authorization.value;
      var parts := Split(h, ' ');
      JoinSplit(h, ' ');
      assert parts[1..] == [token];
      assert h == "Bearer" + " " + token;
    }
    if authorization == Some("Bearer " + token) && ' ' !in token {
      assert "Bearer " + token == "Bearer" + [' '] + token;
      SplitAfterPiece("Bearer", ' ', token);
      SplitNoSeparator(token, ' ');
    }
  }
}
