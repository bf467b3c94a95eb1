/**
 * The contact-form checks: the e-mail shape test, the input sanitiser, the
 * per-field validation of a submitted form and the sanitised copy of a form.
 */
module Validation {
  import opened Wrappers
  import opened JsString
  import opened EmailPattern

  /** `isValidEmail`: the regular expression `^[^\s@]+@[^\s@]+\.[^\s@]+$`. */
  function IsValidEmail(email: string): (ok: bool)
    ensures ok <==> MatchesPattern(email)
  {
    IsEmailShapeMatchesPattern(email);
    IsEmailShape(email)
  }

  /** `replace(/[<>]/g, '')`: every angle bracket removed, every other character kept. */
  function RemoveAngles(s: string): (r: string)
    ensures '<' !in r && '>' !in r
  {
    if s == [] then []
    else (if s[0] == '<' || s[0] == '>' then [] else [s[0]]) + RemoveAngles(s[1..])
  }

  /** Every other character is kept as often as it occurs, and the length drops by the
      number of angle brackets. */
  lemma {:induction false} RemoveAnglesKeepsOthers(s: string)
    ensures forall c :: c != '<' && c != '>' ==> multiset(RemoveAngles(s))[c] == multiset(s)[c]
    ensures |RemoveAngles(s)| == |s| - multiset(s)['<'] - multiset(s)['>']
  {
    if s != [] {
      assert s == [s[0]] + s[1..];
      RemoveAnglesKeepsOthers(s[1..]);
    }
  }

  /** Text without angle brackets passes through unchanged. */
  lemma {:induction false} RemoveAnglesIdentity(s: string)
    requires '<' !in s && '>' !in s
    ensures RemoveAngles(s) == s
  {
    if s != [] {
      var t := s[1..];
      assert s[0] != '<' && s[0] != '>' by { assert s[0] in s; }
      assert '<' !in t && '>' !in t by {
        forall k | 0 <= k < |t|
          ensures t[k] != '<' && t[k] != '>'
        {
          assert t[k] == s[k + 1];
        }
      }
      RemoveAnglesIdentity(t);
      calc {
        RemoveAngles(s);
        [s[0]] + RemoveAngles(t);
        [s[0]] + t;
        s;
      }
    }
  }

  const Protocol: string := "javascript:"

  /** `t` equals `pat` once its ASCII letters are lower-cased. */
  predicate LowerEquals(t: string, pat: string) {
    |t| == |pat| && (t == [] || (LowerChar(t[0]) == pat[0] && LowerEquals(t[1..], pat[1..])))
  }

  lemma {:induction false} LowerEqualsToLower(t: string, pat: string)
    ensures LowerEquals(t, pat) <==> ToLower(t) == pat
  {
    if t != [] && |t| == |pat| {
      LowerEqualsToLower(t[1..], pat[1..]);
      assert ToLower(t) == [LowerChar(t[0])] + ToLower(t[1..]);
      assert pat == [pat[0]] + pat[1..];
    }
  }

  /** The regular expression `/javascript:/i` matches at index `i`. */
  predicate ProtocolAt(s: string, i: nat) {
    i + |Protocol| <= |s| && LowerEquals(s[i..i + |Protocol|], Protocol)
  }

  /** The match test is `toLowerCase` of the eleven characters at `i` against the pattern. */
  lemma ProtocolAtLowerSlice(s: string, i: nat)
    requires i + |Protocol| <= |s|
    ensures ProtocolAt(s, i) <==> ToLower(s[i..i + |Protocol|]) == Protocol
  {
    LowerEqualsToLower(s[i..i + |Protocol|], Protocol);
  }

  /** `replace(/javascript:/gi, '')`: scanning left to right, each match is dropped and
      the scan resumes after it; a match is never looked for inside what was dropped or
      across what has been kept. */
  function StripProtocol(s: string): (r: string)
    ensures forall k :: 0 <= k < |r| ==> r[k] in s
    ensures |r| <= |s|
    decreases |s|
  {
    if s == [] then []
    else if ProtocolAt(s, 0) then
      assert s == s[..|Protocol|] + s[|Protocol|..];
      StripProtocol(s[|Protocol|..])
    else
      assert s == [s[0]] + s[1..];
      [s[0]] + StripProtocol(s[1..])
  }

  /** Only whole matches are removed: the length shrinks by a multiple of eleven. */
  lemma {:induction false} StripProtocolRemovesWholeMatches(s: string)
    ensures (|s| - |StripProtocol(s)|) % |Protocol| == 0
    decreases |s|
  {
    if s == [] {
    } else if ProtocolAt(s, 0) {
      StripProtocolRemovesWholeMatches(s[|Protocol|..]);
      var d := |s[|Protocol|..]| - |StripProtocol(s[|Protocol|..])|;
      assert |s| - |StripProtocol(s)| == d + |Protocol|;
    } else {
      StripProtocolRemovesWholeMatches(s[1..]);
    }
  }

  lemma ProtocolAtShift(s: string, i: nat)
    requires s != []
    ensures ProtocolAt(s[1..], i) <==> ProtocolAt(s, i + 1)
  {
    if i + 1 + |Protocol| <= |s| {
      assert s[1..][i..i + |Protocol|] == s[i + 1..i + 1 + |Protocol|];
    }
  }

  /** Text in which the pattern matches nowhere passes through unchanged. */
  lemma {:induction false} StripProtocolIdentity(s: string)
    requires forall i: nat :: !ProtocolAt(s, i)
    ensures StripProtocol(s) == s
  {
    if s != [] {
      assert !ProtocolAt(s, 0);
      forall i: nat ensures !ProtocolAt(s[1..], i) {
        ProtocolAtShift(s, i);
      }
      StripProtocolIdentity(s[1..]);
    }
  }

  /** The leftmost match is removed, what precedes it is kept, and the scan continues
      after it. */
  /** No match before `i` in `s` means none before `i - 1` in `s[1..]`. */
  lemma NoProtocolBeforeShift(s: string, i: nat)
    requires s != [] && i > 0
    requires forall j: nat :: j < i ==> !ProtocolAt(s, j)
    ensures forall j: nat :: j < i - 1 ==> !ProtocolAt(s[1..], j)
  {
    forall j: nat | j < i - 1 ensures !ProtocolAt(s[1..], j) {
      ProtocolAtShift(s, j);
    }
  }

  /** The leftmost match is removed, what precedes it is kept, and the scan continues
      after it. */
  lemma {:induction false} StripProtocolAtFirstMatch(s: string, i: nat)
    requires ProtocolAt(s, i)
    requires forall j: nat :: j < i ==> !ProtocolAt(s, j)
    ensures StripProtocol(s) == s[..i] + StripProtocol(s[i + |Protocol|..])
  {
    if i == 0 {
      assert s[..i] == [];
    } else {
      var t := s[1..];
      assert !ProtocolAt(s, 0);
      assert StripProtocol(s) == [s[0]] + StripProtocol(t);
      ProtocolAtShift(s, i - 1);
      NoProtocolBeforeShift(s, i);
      StripProtocolAtFirstMatch(t, i - 1);
      var rest := s[i + |Protocol|..];
      assert t[i - 1 + |Protocol|..] == rest;
      calc {
        StripProtocol(s);
        [s[0]] + StripProtocol(t);
        [s[0]] + (t[..i - 1] + StripProtocol(rest));
        ([s[0]] + t[..i - 1]) + StripProtocol(rest);
        { assert s[..i] == [s[0]] + t[..i - 1]; }
        s[..i] + StripProtocol(rest);
      }
    }
  }

  /** `sanitizeInput`: trim, drop angle brackets, drop the protocol, cut to 5000. */
  function SanitizeInput(input: string): (r: string)
    ensures '<' !in r && '>' !in r
    ensures |r| <= 5000
  {
    NoAnglesAfterStrip(RemoveAngles(Trim(input)));
    Take(StripProtocol(RemoveAngles(Trim(input))), 5000)
  }

  /** Removing the protocol cannot bring back an angle bracket, nor can cutting. */
  lemma NoAnglesAfterStrip(a: string)
    requires '<' !in a && '>' !in a
    ensures forall n: nat :: '<' !in Take(StripProtocol(a), n) && '>' !in Take(StripProtocol(a), n)
  {
    var p := StripProtocol(a);
    forall k | 0 <= k < |p| ensures p[k] != '<' && p[k] != '>' {
      assert p[k] in a;
    }
    forall n: nat ensures '<' !in Take(p, n) && '>' !in Take(p, n) {
      assert Take(p, n) == p[..|Take(p, n)|];
    }
  }

  /** Trimming comes first, so white space uncovered by a removal stays. */
  lemma SanitizeKeepsUncoveredSpace()
    ensures SanitizeInput("< x") == " x"
  {
    UncoveredSpacePipeline();
  }

  lemma UncoveredSpacePipeline()
    ensures Take(StripProtocol(RemoveAngles(Trim("< x"))), 5000) == " x"
  {
    TrimTight("< x");
    UncoveredSpaceRemoval();
  }

  lemma UncoveredSpaceRemoval()
    ensures StripProtocol(RemoveAngles("< x")) == " x"
  {
    assert RemoveAngles("< x") == " x";
    StripProtocolIdentity(" x");
  }

  /** Character by character: a case-insensitive match agrees at every index. */
  lemma {:induction false} LowerEqualsAt(t: string, pat: string, k: nat)
    requires LowerEquals(t, pat) && k < |t|
    ensures LowerChar(t[k]) == pat[k]
  {
    if k > 0 {
      LowerEqualsAt(t[1..], pat[1..], k - 1);
    }
  }

  /** A case variant of the protocol is tight and free of angle brackets. */
  lemma ProtocolVariantPlain(m: string)
    requires LowerEquals(m, Protocol)
    ensures Tight(m) && '<' !in m && '>' !in m
  {
    LowerEqualsAt(m, Protocol, 0);
    LowerEqualsAt(m, Protocol, 10);
    forall k | 0 <= k < |m| ensures m[k] != '<' && m[k] != '>' {
      LowerEqualsAt(m, Protocol, k);
    }
  }

  lemma {:induction false} RemoveAnglesAppend(a: string, b: string)
    ensures RemoveAngles(a + b) == RemoveAngles(a) + RemoveAngles(b)
  {
    if a != [] {
      var h := if a[0] == '<' || a[0] == '>' then [] else [a[0]];
      assert (a + b)[1..] == a[1..] + b;
      RemoveAnglesAppend(a[1..], b);
      calc {
        RemoveAngles(a + b);
        h + RemoveAngles(a[1..] + b);
        h + (RemoveAngles(a[1..]) + RemoveAngles(b));
        (h + RemoveAngles(a[1..])) + RemoveAngles(b);
        RemoveAngles(a) + RemoveAngles(b);
      }
    } else {
      assert a + b == b;
    }
  }

  /** One pass only: removing a match nested inside another one joins the outer pieces
      into a new match, which stays. */
  lemma StripNestedProtocol(m: string)
    requires LowerEquals(m, Protocol)
    ensures StripProtocol(m[..4] + m + m[4..]) == m
  {
    var s := m[..4] + m + m[4..];
    assert s[4..15] == m;
    LowerEqualsAt(m, Protocol, 0);
    forall j: nat | j < 4 ensures !ProtocolAt(s, j) {
      if ProtocolAt(s, j) {
        LowerEqualsAt(s[j..j + |Protocol|], Protocol, 4 - j);
      }
    }
    StripProtocolAtFirstMatch(s, 4);
    assert s[15..] == m[4..] && s[..4] == m[..4];
    StripProtocolIdentity(m[4..]);
    calc {
      StripProtocol(s);
      s[..4] + StripProtocol(s[15..]);
      m[..4] + StripProtocol(m[4..]);
      m[..4] + m[4..];
      { assert m == m[..4] + m[4..]; }
      m;
    }
  }

  lemma SanitizeIsSinglePass(m: string)
    requires LowerEquals(m, Protocol)
    ensures SanitizeInput(m[..4] + m + m[4..]) == m
    ensures ProtocolAt(SanitizeInput(m[..4] + m + m[4..]), 0)
  {
    var s := m[..4] + m + m[4..];
    ProtocolVariantPlain(m);
    assert s[0] == m[0] && s[|s| - 1] == m[|m| - 1];
    TrimTight(s);
    RemoveAnglesIdentity(s);
    StripNestedProtocol(m);
  }

  /** Removing a bracket placed inside the protocol gives back the protocol. */
  lemma RemoveBracketInside(m: string)
    requires |m| >= 4 && '<' !in m && '>' !in m
    ensures RemoveAngles(m[..4] + "<" + m[4..]) == m
  {
    var a, b := m[..4], m[4..];
    assert '<' !in a && '>' !in a && '<' !in b && '>' !in b;
    RemoveAnglesIdentity(a);
    RemoveAnglesIdentity(b);
    assert RemoveAngles("<") == [];
    calc {
      RemoveAngles(a + "<" + b);
      { RemoveAnglesAppend(a + "<", b); }
      RemoveAngles(a + "<") + RemoveAngles(b);
      { RemoveAnglesAppend(a, "<"); }
      RemoveAngles(a) + RemoveAngles("<") + RemoveAngles(b);
      a + [] + b;
      { assert m == a + b; }
      m;
    }
  }

  /** A whole case variant of the protocol is removed. */
  lemma StripWholeProtocol(m: string)
    requires LowerEquals(m, Protocol)
    ensures StripProtocol(m) == []
  {
    assert m[0..|Protocol|] == m;
    assert StripProtocol(m) == StripProtocol(m[|Protocol|..]);
  }

  /** Angle brackets go first, so one placed inside the protocol does not hide it. */
  lemma SanitizeRemovesBracketedProtocol(m: string)
    requires LowerEquals(m, Protocol)
    ensures SanitizeInput(m[..4] + "<" + m[4..]) == ""
  {
    var s := m[..4] + "<" + m[4..];
    ProtocolVariantPlain(m);
    assert s[0] == m[0] && s[|s| - 1] == m[|m| - 1];
    TrimTight(s);
    RemoveBracketInside(m);
    StripWholeProtocol(m);
  }

  /** A submitted contact form; `company` is the one optional field. */
  datatype ContactForm = ContactForm(
    name: string, email: string, company: Option<string>, message: string, interestArea: string)

  /** The fields that can carry an error: `company` never does. */
  datatype Field = Name | Email | Message | InterestArea

  const NameTooShort: string := "Name must be at least 2 characters long"
  const EmailRequired: string := "Email is required"
  const EmailInvalid: string := "Please enter a valid email address"
  const MessageTooShort: string := "Message must be at least 10 characters long"
  const InterestAreaMissing: string := "Please select an area of interest"

  /** The error record the contact form should produce: one entry per broken rule, keyed
      by its field, with that rule's message, the fields checked in form order. */
  ghost function ContactErrors(data: ContactForm): map<Field, string> {
    InterestAreaCheck(data, MessageCheck(data, EmailCheck(data, NameCheck(data))))
  }

  ghost function NameCheck(data: ContactForm): map<Field, string> {
    if |Trim(data.name)| < 2 then map[Name := NameTooShort] else map[]
  }

  ghost function EmailCheck(data: ContactForm, errors: map<Field, string>): map<Field, string> {
    if data.email == [] then errors[Email := EmailRequired]
    else if !MatchesPattern(data.email) then errors[Email := EmailInvalid]
    else errors
  }

  ghost function MessageCheck(data: ContactForm, errors: map<Field, string>): map<Field, string> {
    if |Trim(data.message)| < 10 then errors[Message := MessageTooShort] else errors
  }

  ghost function InterestAreaCheck(data: ContactForm, errors: map<Field, string>): map<Field, string> {
    if data.interestArea == [] then errors[InterestArea := InterestAreaMissing] else errors
  }

  /** Each field has an error exactly when its rule is broken, and the error is that rule's
      message; `company` never has one. */
  lemma ContactErrorsPerField(data: ContactForm)
    ensures var errors := ContactErrors(data);
      && (Name in errors <==> |Trim(data.name)| < 2)
      && (Name in errors ==> errors[Name] == NameTooShort)
      && (Email in errors <==> data.email == [] || !MatchesPattern(data.email))
      && (Email in errors ==> errors[Email] == if data.email == [] then EmailRequired else EmailInvalid)
      && (Message in errors <==> |Trim(data.message)| < 10)
      && (Message in errors ==> errors[Message] == MessageTooShort)
      && (InterestArea in errors <==> data.interestArea == [])
      && (InterestArea in errors ==> errors[InterestArea] == InterestAreaMissing)
  {
  }

  /** The record is empty exactly when all four rules hold. */
  lemma ContactFormValidExactly(data: ContactForm)
    ensures ContactErrors(data) == map[] <==>
      (2 <= |Trim(data.name)| && MatchesPattern(data.email) &&
       10 <= |Trim(data.message)| && data.interestArea != [])
  {
    ContactErrorsPerField(data);
    if data.email == [] {
      assert !MatchesPattern(data.email);
    }
    var errors := ContactErrors(data);
    if errors != map[] {
      var f :| f in errors;
    }
  }

  /** `validateContactForm`: fills the error record field by field; the form is valid
      exactly when the record stays empty. */
  method ValidateContactForm(data: ContactForm) returns (isValid: bool, errors: map<Field, string>)
    ensures errors == ContactErrors(data)
    ensures isValid <==> errors == map[]
  {
    errors := map[];
    if data.name == [] || |Trim(data.name)| < 2 {
      errors := errors[Name := NameTooShort];
    }
    assert errors == NameCheck(data);
    ghost var before := errors;
    if data.email == [] {
      errors := errors[Email := EmailRequired];
    } else if !IsValidEmail(data.email) {
      errors := errors[Email := EmailInvalid];
    }
    assert errors == EmailCheck(data, before);
    before := errors;
    if data.message == [] || |Trim(data.message)| < 10 {
      errors := errors[Message := MessageTooShort];
    }
    assert errors == MessageCheck(data, before);
    before := errors;
    if data.interestArea == [] {
      errors := errors[InterestArea := InterestAreaMissing];
    }
    assert errors == InterestAreaCheck(data, before);
    isValid := |errors| == 0;
  }

  /** Lower-casing leaves angle brackets alone and removes every ASCII capital. */
  lemma ToLowerKeepsNoAngles(s: string)
    requires '<' !in s && '>' !in s
    ensures '<' !in ToLower(s) && '>' !in ToLower(s)
    ensures forall k :: 0 <= k < |s| ==> !('A' <= ToLower(s)[k] <= 'Z')
  {
    var l := ToLower(s);
    forall k | 0 <= k < |l| ensures l[k] != '<' && l[k] != '>' {
      assert s[k] in s;
    }
  }

  /** `sanitizeContactForm`: every field sanitised, the e-mail lower-cased afterwards, and
      a missing or empty company dropped. */
  function SanitizeContactForm(data: ContactForm): (r: ContactForm)
    ensures Clean(r.name) && Clean(r.email) && Clean(r.message) && Clean(r.interestArea)
    ensures r.company.Some? ==> Clean(r.company.value)
    ensures forall k :: 0 <= k < |r.email| ==> !('A' <= r.email[k] <= 'Z')
    ensures r.company.None? <==> data.company.None? || data.company.value == []
    ensures r.name == SanitizeInput(data.name) && r.message == SanitizeInput(data.message)
    ensures r.interestArea == SanitizeInput(data.interestArea)
    ensures r.email == ToLower(SanitizeInput(data.email))
    ensures r.company.Some? ==> r.company.value == SanitizeInput(data.company.value)
  {
    ToLowerKeepsNoAngles(SanitizeInput(data.email));
    ContactForm(
      SanitizeInput(data.name),
      ToLower(SanitizeInput(data.email)),
      if data.company.Some? && data.company.value != [] then Some(SanitizeInput(data.company.value)) else None,
      SanitizeInput(data.message),
      SanitizeInput(data.interestArea))
  }

  /** What every sanitised field satisfies: no angle brackets, at most 5000 characters. */
  predicate Clean(s: string) {
    '<' !in s && '>' !in s && |s| <= 5000
  }
}
