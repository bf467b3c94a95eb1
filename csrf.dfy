/**
 * Anti-forgery tokens of the form `timestamp.nonce.session.signature`, where the
 * signature is an HMAC (section 2 of RFC 2104) of the first three fields. The
 * HMAC is the parameter `hmac`, the random nonce and the clock are inputs.
 */
module Csrf {
  import opened Wrappers
  import opened JsString

  /** A token is accepted for one hour after its timestamp. */
  const MaxAgeMs: int := 60 * 60 * 1000

  /** The session field used when no (or an empty) session id is given. */
  function SessionOrAnonymous(sessionId: Option<string>): string {
    if sessionId.Some? && sessionId.value != "" then sessionId.value else "anonymous"
  }

  /** The signed part of a token. */
  function Payload(timestamp: string, nonce: string, session: string): string {
    timestamp + "." + nonce + "." + session
  }

  /** `generateCSRFToken` at time `now` (milliseconds) with the hex nonce `nonce`. */
  function Generate(hmac: string -> string, now: nat, nonce: string, sessionId: Option<string>): string {
    var payload := Payload(NatToString(now), nonce, SessionOrAnonymous(sessionId));
    payload + "." + hmac(payload)
  }

  predicate IsHexDigit(c: char) {
    ('0' <= c <= '9') || ('a' <= c <= 'f') || ('A' <= c <= 'F')
  }

  function HexValue(c: char): int
    requires IsHexDigit(c)
  {
    if '0' <= c <= '9' then c as int - '0' as int
    else if 'a' <= c <= 'f' then c as int - 'a' as int + 10
    else c as int - 'A' as int + 10
  }

  /** `Buffer.from(s, 'hex')`: bytes from successive pairs of hex digits, stopping at the
      first pair that is not two hex digits (an odd last digit is dropped). */
  function HexBytes(s: string): seq<int>
    decreases |s|
  {
    if |s| >= 2 && IsHexDigit(s[0]) && IsHexDigit(s[1])
    then [HexValue(s[0]) * 16 + HexValue(s[1])] + HexBytes(s[2..])
    else []
  }

  /** `timingSafeEqual` of the two decoded signatures; buffers of different lengths make it
      throw, which the verifier turns into a rejection, so this is equality of the bytes. */
  predicate SignatureMatches(signature: string, expected: string) {
    HexBytes(signature) == HexBytes(expected)
  }

  /** `verifyCSRFToken`: four fields, the expected session, not older than an hour (a
      timestamp that does not parse is never too old), and a matching signature. */
  function Verify(hmac: string -> string, token: string, sessionId: Option<string>, now: int): bool {
    var parts := Split(token, '.');
    if |parts| != 4 then false
    else if parts[2] != SessionOrAnonymous(sessionId) then false
    else
      var tokenTime := ParseInt(parts[0]);
      if tokenTime.Some? && now - tokenTime.value > MaxAgeMs then false
      else SignatureMatches(parts[3], hmac(Payload(parts[0], parts[1], parts[2])))
  }

  /** The four fields joined by dots. */
  function Token(timestamp: string, nonce: string, session: string, signature: string): string {
    Payload(timestamp, nonce, session) + "." + signature
  }

  lemma TokenIsJoin(timestamp: string, nonce: string, session: string, signature: string)
    ensures Token(timestamp, nonce, session, signature) == Join([timestamp, nonce, session, signature], '.')
  {
    var fields := [timestamp, nonce, session, signature];
    assert Join(fields[3..], '.') == signature;
    assert Join(fields[2..], '.') == session + "." + signature;
    assert Join(fields[1..], '.') == nonce + "." + (session + "." + signature);
  }

  /** An accepted token has exactly three dots and carries the expected session. */
  lemma VerifiedTokenShape(hmac: string -> string, token: string, sessionId: Option<string>, now: int)
    requires Verify(hmac, token, sessionId, now)
    ensures Count(token, '.') == 3
    ensures var parts := Split(token, '.');
      && token == Token(parts[0], parts[1], parts[2], parts[3])
      && parts[2] == SessionOrAnonymous(sessionId)
  {
    var parts := Split(token, '.');
    SplitLength(token, '.');
    JoinSplit(token, '.');
    TokenIsJoin(parts[0], parts[1], parts[2], parts[3]);
    assert parts == [parts[0], parts[1], parts[2], parts[3]];
  }

  /** A token built from dot-free fields is accepted exactly when its session field is the
      expected one, it is at most an hour old (or its timestamp does not parse) and its
      signature decodes to the recomputed HMAC. */
  lemma VerifyWellFormed(hmac: string -> string, timestamp: string, nonce: string, session: string,
                         signature: string, sessionId: Option<string>, now: int)
    requires '.' !in timestamp && '.' !in nonce && '.' !in session && '.' !in signature
    ensures Verify(hmac, Token(timestamp, nonce, session, signature), sessionId, now) <==>
      && session == SessionOrAnonymous(sessionId)
      && !(ParseInt(timestamp).Some? && now - ParseInt(timestamp).value > MaxAgeMs)
      && SignatureMatches(signature, hmac(Payload(timestamp, nonce, session)))
  {
    TokenIsJoin(timestamp, nonce, session, signature);
    SplitJoin([timestamp, nonce, session, signature], '.');
  }

  /** A token generated at `now` for a dot-free session verifies for that session up to
      an hour later (and at any earlier time), given a dot-free nonce and HMAC output. */
  lemma RoundTrip(hmac: string -> string, now: nat, nonce: string, sessionId: Option<string>, later: int)
    requires '.' !in nonce && '.' !in SessionOrAnonymous(sessionId)
    requires forall p :: '.' !in hmac(p)
    requires later - now <= MaxAgeMs
    ensures Verify(hmac, Generate(hmac, now, nonce, sessionId), sessionId, later)
  {
    var ts := NatToString(now);
    var session := SessionOrAnonymous(sessionId);
    var payload := Payload(ts, nonce, session);
    assert '.' !in ts by { assert AllDigits(ts); }
    ParseNatToString(now);
    VerifyWellFormed(hmac, ts, nonce, session, hmac(payload), sessionId, later);
  }

  /** More than an hour after generation the token is refused. */
  lemma ExpiredAfterOneHour(hmac: string -> string, now: nat, nonce: string, sessionId: Option<string>, later: int)
    requires '.' !in nonce && '.' !in SessionOrAnonymous(sessionId)
    requires forall p :: '.' !in hmac(p)
    requires later - now > MaxAgeMs
    ensures !Verify(hmac, Generate(hmac, now, nonce, sessionId), sessionId, later)
  {
    var ts := NatToString(now);
    var session := SessionOrAnonymous(sessionId);
    var payload := Payload(ts, nonce, session);
    assert '.' !in ts by { assert AllDigits(ts); }
    ParseNatToString(now);
    VerifyWellFormed(hmac, ts, nonce, session, hmac(payload), sessionId, later);
  }

  /** A token is refused for any session other than the one it was generated for. */
  lemma OtherSessionRefused(hmac: string -> string, now: nat, nonce: string, sessionId: Option<string>,
                            other: Option<string>, later: int)
    requires '.' !in nonce && '.' !in SessionOrAnonymous(sessionId)
    requires forall p :: '.' !in hmac(p)
    requires SessionOrAnonymous(other) != SessionOrAnonymous(sessionId)
    ensures !Verify(hmac, Generate(hmac, now, nonce, sessionId), other, later)
  {
    var ts := NatToString(now);
    var session := SessionOrAnonymous(sessionId);
    var payload := Payload(ts, nonce, session);
    assert '.' !in ts by { assert AllDigits(ts); }
    VerifyWellFormed(hmac, ts, nonce, session, hmac(payload), other, later);
  }

  /** A token generated for a session id containing a dot splits into more than four
      fields, so it never verifies, for any session and at any time. */
  lemma DottedSessionNeverVerifies(hmac: string -> string, now: nat, nonce: string, sessionId: Option<string>,
                                   expected: Option<string>, later: int)
    requires sessionId.Some? && '.' in sessionId.value
    ensures !Verify(hmac, Generate(hmac, now, nonce, sessionId), expected, later)
  {
    var token := Generate(hmac, now, nonce, sessionId);
    var session := SessionOrAnonymous(sessionId);
    assert session == sessionId.value;
    var payload := Payload(NatToString(now), nonce, session);
    assert token == NatToString(now) + "." + nonce + "." + session + "." + hmac(payload);
    assert Count(session, '.') >= 1;
    assert Count(token, '.') >= 4;
    SplitLength(token, '.');
  }

  /** A timestamp that does not parse as a number never makes a token too old. */
  lemma UnparsableTimestampNeverExpires(hmac: string -> string, token: string, sessionId: Option<string>,
                                        now1: int, now2: int)
    requires ParseInt(Split(token, '.')[0]).None?
    ensures Verify(hmac, token, sessionId, now1) == Verify(hmac, token, sessionId, now2)
  {
  }

  /** Signatures are compared as decoded bytes, so characters after the hex digits are
      ignored: a valid signature followed by a non-hex character is still accepted. */
  lemma {:induction false} TrailingNonHexIgnored(signature: string, c: char)
    requires |signature| % 2 == 0 && forall i :: 0 <= i < |signature| ==> IsHexDigit(signature[i])
    requires !IsHexDigit(c)
    ensures SignatureMatches(signature + [c], signature)
    decreases |signature|
  {
    if signature != [] {
      TrailingNonHexIgnored(signature[2..], c);
      assert (signature + [c])[2..] == signature[2..] + [c];
    }
  }

  /** `extractCSRFToken`: the `X-CSRF-Token` header when it is non-empty, else nothing,
      whatever the content type. */
  function Extract(headerToken: Option<string>, contentType: Option<string>): (token: Option<string>)
    ensures token.Some? <==> headerToken.Some? && headerToken.value != ""
    ensures token.Some? ==> token == headerToken
  {
    if headerToken.Some? && headerToken.value != "" then headerToken
    else if contentType.Some? && Contains(contentType.value, "application/json") then None
    else None
  }
}
