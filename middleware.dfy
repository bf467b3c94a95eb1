/**
 * The request gatekeeper, run on every path its route matcher selects: it derives the client address,
 * rate-limits API paths under a policy chosen by path prefix, answers refused
 * calls with status 429 (section 4 of RFC 6585), sends visitors who hold a
 * session cookie away from the login and register pages, and marks the pages
 * that must not be cached.
 */
module Middleware {
  import opened Wrappers
  import opened JsString
  import opened RateLimit

  /** What the gatekeeper reads from a request: the path, the two proxy headers and
      the `auth-token` cookie. `None` stands for an absent header or cookie. */
  datatype Request = Request(path: string, forwardedFor: Option<string>, realIp: Option<string>,
                             authToken: Option<string>)

  /** The response headers the gatekeeper sets. */
  datatype Header = RateLimitLimit | RateLimitRemaining | RateLimitReset | RetryAfter | CacheControl
                  | ServiceWorkerAllowed

  /** The header's name on the wire. */
  function Name(h: Header): string {
    match h
    case RateLimitLimit => "X-RateLimit-Limit"
    case RateLimitRemaining => "X-RateLimit-Remaining"
    case RateLimitReset => "X-RateLimit-Reset"
    case RetryAfter => "Retry-After"
    case CacheControl => "Cache-Control"
    case ServiceWorkerAllowed => "Service-Worker-Allowed"
  }

  /** `headers.get(name)` for the headers the gatekeeper sets. */
  function HeaderNamed(name: string): Option<Header> {
    if name == "X-RateLimit-Limit" then Some(RateLimitLimit)
    else if name == "X-RateLimit-Remaining" then Some(RateLimitRemaining)
    else if name == "X-RateLimit-Reset" then Some(RateLimitReset)
    else if name == "Retry-After" then Some(RetryAfter)
    else if name == "Cache-Control" then Some(CacheControl)
    else if name == "Service-Worker-Allowed" then Some(ServiceWorkerAllowed)
    else None
  }

  /** A header is found again under its own name. */
  lemma HeaderNamedName(h: Header)
    ensures HeaderNamed(Name(h)) == Some(h)
  {
    if h == RateLimitReset {
      assert Name(h)[12] != "X-RateLimit-Limit"[12];
    }
  }

  /** Each header has its own name on the wire, so keying the response headers by `Header`
      loses nothing. */
  lemma HeaderNamesDistinct(h1: Header, h2: Header)
    ensures Name(h1) == Name(h2) <==> h1 == h2
  {
    HeaderNamedName(h1);
    HeaderNamedName(h2);
  }

  /** The gatekeeper's answer: pass the request on (with extra response headers), refuse
      it with a JSON body, or redirect. */
  datatype Response =
    | Next(headers: map<Header, string>)
    | Reject(status: int, error: string, retryAfter: int, headers: map<Header, string>)
    | Redirect(status: int, location: string)

  const Loopback: string := "127.0.0.1"
  const NoCache: string := "no-cache, no-store, must-revalidate"
  const TooManyRequests: int := 429
  const TemporaryRedirect: int := 307

  /** Math.ceil(a / b) for a positive divisor. */
  function CeilDiv(a: int, b: int): int
    requires b > 0
  {
    -((-a) / b)
  }

  /** CeilDiv rounds up: the smallest multiple of `b` not below `a`. */
  lemma CeilDivBounds(a: int, b: int)
    requires b > 0
    ensures (CeilDiv(a, b) - 1) * b < a <= CeilDiv(a, b) * b
  {
    var q := (-a) / b;
    assert q * b <= -a < q * b + b;
  }

  /** The client address: the first comma-separated element of a non-empty
      `X-Forwarded-For`, trimmed; else a non-empty `X-Real-IP`; else the loopback address. */
  function ClientIp(forwardedFor: Option<string>, realIp: Option<string>): string {
    if forwardedFor.Some? && forwardedFor.value != "" then Trim(Split(forwardedFor.value, ',')[0])
    else if realIp.Some? && realIp.value != "" then realIp.value
    else Loopback
  }

  /** `X-Forwarded-For` wins over `X-Real-IP`, which wins over the loopback default; the
      forwarded address is the trimmed text before the first comma. */
  lemma ClientIpOrder(forwardedFor: Option<string>, realIp: Option<string>)
    ensures var ip := ClientIp(forwardedFor, realIp);
      && (forwardedFor.Some? && forwardedFor.value != "" ==>
            var h := forwardedFor.value;
            exists n :: 0 <= n <= |h| && ',' !in h[..n] && (n < |h| ==> h[n] == ',') && ip == Trim(h[..n]))
      && (!(forwardedFor.Some? && forwardedFor.value != "") && realIp.Some? && realIp.value != "" ==>
            ip == realIp.value)
      && (!(forwardedFor.Some? && forwardedFor.value != "") && !(realIp.Some? && realIp.value != "") ==>
            ip == Loopback)
  {
    if forwardedFor.Some? && forwardedFor.value != "" {
      var h := forwardedFor.value;
      var first := Split(h, ',')[0];
      SplitFirst(h, ',');
      assert h[..|first|] == first;
    }
  }

  predicate IsApiPath(path: string) {
    StartsWith(path, "/api/")
  }

  /** The characters the regular-expression `.` does not match. */
  predicate IsLineTerminator(c: char) {
    c == '\n' || c == '\r' || c == '\U{2028}' || c == '\U{2029}'
  }

  predicate HasLineTerminator(s: string) {
    s != [] && (IsLineTerminator(s[0]) || HasLineTerminator(s[1..]))
  }

  predicate EndsWith(s: string, suffix: string) {
    |suffix| <= |s| && s[|s| - |suffix|..] == suffix
  }

  const ImageExtensions: seq<string> := ["svg", "png", "jpg", "jpeg", "gif", "webp", "ico"]

  /** `s` ends with a dot and one of `exts` (case-sensitive). */
  predicate EndsWithExtension(s: string, exts: seq<string>) {
    exts != [] && (EndsWith(s, "." + exts[0]) || EndsWithExtension(s, exts[1..]))
  }

  /** The route matcher `/((?!_next/static|_next/image|favicon.ico|.*\.(?:svg|png|jpg|jpeg|gif|webp|ico)$).*)`
      over the whole path: a leading `/`, then a rest without line terminators that does not
      start with `_next/static`, `_next/image` or `favicon`, any character, `ico`, and does
      not end with an image extension. */
  predicate Matched(path: string) {
    && path != [] && path[0] == '/'
    && var rest := path[1..];
      && !HasLineTerminator(rest)
      && !StartsWith(rest, "_next/static") && !StartsWith(rest, "_next/image")
      && !(|rest| >= 11 && rest[..7] == "favicon" && rest[8..11] == "ico")
      && !EndsWithExtension(rest, ImageExtensions)
  }

  /** The scan finds a line terminator exactly when there is one. */
  lemma {:induction false} HasLineTerminatorExactly(s: string)
    ensures HasLineTerminator(s) <==> exists k :: 0 <= k < |s| && IsLineTerminator(s[k])
  {
    if s != [] {
      HasLineTerminatorExactly(s[1..]);
      if exists k :: 0 <= k < |s| && IsLineTerminator(s[k]) {
        var k :| 0 <= k < |s| && IsLineTerminator(s[k]);
        if k > 0 { assert s[1..][k - 1] == s[k]; }
      }
      if exists k :: 0 <= k < |s[1..]| && IsLineTerminator(s[1..][k]) {
        var k :| 0 <= k < |s[1..]| && IsLineTerminator(s[1..][k]);
        assert s[k + 1] == s[1..][k];
      }
    }
  }

  /** The extension test holds exactly when one of the extensions, after a dot, ends `s`. */
  lemma {:induction false} EndsWithExtensionExactly(s: string, exts: seq<string>)
    ensures EndsWithExtension(s, exts) <==> exists i :: 0 <= i < |exts| && EndsWith(s, "." + exts[i])
  {
    if exts != [] {
      EndsWithExtensionExactly(s, exts[1..]);
      if exists i :: 0 <= i < |exts[1..]| && EndsWith(s, "." + exts[1..][i]) {
        var i :| 0 <= i < |exts[1..]| && EndsWith(s, "." + exts[1..][i]);
        assert exts[i + 1] == exts[1..][i];
      }
      if exists i :: 0 <= i < |exts| && EndsWith(s, "." + exts[i]) {
        var i :| 0 <= i < |exts| && EndsWith(s, "." + exts[i]);
        if i > 0 { assert exts[1..][i - 1] == exts[i]; }
      }
    }
  }

  /** An API path reaches the gatekeeper exactly when it has no line terminator and does
      not end with an image extension. */
  lemma ApiPathMatched(path: string)
    requires IsApiPath(path)
    ensures Matched(path) <==>
      !HasLineTerminator(path[1..]) && !EndsWithExtension(path[1..], ImageExtensions)
  {
    var rest := path[1..];
    assert path[..5] == "/api/";
    assert rest[0] == path[1] == 'a';
    assert !StartsWith(rest, "_next/static") && !StartsWith(rest, "_next/image");
    if |rest| >= 11 {
      assert rest[..7][0] != "favicon"[0];
    }
  }

  /** So an image path under `/api/` never reaches the gatekeeper and is never rate-limited. */
  lemma ApiImageSkipped(path: string, i: int)
    requires IsApiPath(path) && 0 <= i < |ImageExtensions| && EndsWith(path, "." + ImageExtensions[i])
    ensures !Matched(path)
  {
    var rest := path[1..];
    var e := "." + ImageExtensions[i];
    assert |e| <= 5;
    assert path[..5] == "/api/";
    assert path[|path| - |e|] == e[0] == '.';
    assert path[0] == '/';
    assert rest[|rest| - |e|..] == path[|path| - |e|..];
    EndsWithExtensionExactly(rest, ImageExtensions);
  }

  /** Paths under `/_next/static/` never reach the gatekeeper. */
  lemma StaticAssetsSkipped(path: string)
    requires StartsWith(path, "/_next/static/")
    ensures !Matched(path)
  {
    assert path[1..][..12] == path[..14][1..13];
  }

  datatype Policy = AuthLimits | ContactLimits | ApiLimits

  /** The policy for an API path, by prefix: registration and login, then the contact
      form, then everything else. */
  function PolicyFor(path: string): Policy {
    if StartsWith(path, "/api/auth/register") || StartsWith(path, "/api/auth/login") then AuthLimits
    else if StartsWith(path, "/api/contact") then ContactLimits
    else ApiLimits
  }

  function ConfigOf(p: Policy): Config {
    match p
    case AuthLimits => AuthPolicy
    case ContactLimits => ContactPolicy
    case ApiLimits => ApiPolicy
  }

  /** Policies are chosen by prefix, not by exact route. */
  lemma PolicyByPrefix()
    ensures PolicyFor("/api/auth/login/extra") == AuthLimits
    ensures PolicyFor("/api/auth/registered") == AuthLimits
    ensures PolicyFor("/api/contacts") == ContactLimits
    ensures PolicyFor("/api/auth/me") == ApiLimits
  {
    assert "/api/auth/me"[5] != "/api/contact"[5];
  }

  /** Which policy applies to any path: the two auth prefixes select the login policy, the
      contact prefix (which no auth path carries) the contact policy, everything else the
      general API policy. */
  lemma PolicyForExactly(path: string)
    ensures PolicyFor(path) == AuthLimits <==>
      StartsWith(path, "/api/auth/register") || StartsWith(path, "/api/auth/login")
    ensures PolicyFor(path) == ContactLimits <==> StartsWith(path, "/api/contact")
    ensures PolicyFor(path) == ApiLimits <==>
      !StartsWith(path, "/api/auth/register") && !StartsWith(path, "/api/auth/login")
      && !StartsWith(path, "/api/contact")
  {
    if StartsWith(path, "/api/contact") {
      assert path[5] == "/api/contact"[5] == 'c';
      assert !StartsWith(path, "/api/auth/register") by {
        if |"/api/auth/register"| <= |path| {
          assert path[..18][5] == path[5];
        }
      }
      assert !StartsWith(path, "/api/auth/login") by {
        if |"/api/auth/login"| <= |path| {
          assert path[..15][5] == path[5];
        }
      }
    }
  }

  /** The three `X-RateLimit-*` headers describing a check. */
  function RateHeaders(r: Result): map<Header, string> {
    map[RateLimitLimit := IntToString(r.limit),
        RateLimitRemaining := IntToString(r.remaining),
        RateLimitReset := IntToString(r.resetTime)]
  }

  /** The answer to an API request once the limiter has decided. */
  function ApiResponse(r: Result, now: int): Response {
    if !r.success then
      var headers := RateHeaders(r);
      Reject(TooManyRequests, "Rate limit exceeded", CeilDiv(r.resetTime - now, 1000),
             if Truthy(r.blockUntil)
             then headers[RetryAfter := IntToString(CeilDiv(r.blockUntil.value - now, 1000))]
             else headers)
    else
      Next(RateHeaders(r)[CacheControl := NoCache][ServiceWorkerAllowed := "false"])
  }

  /** A refused check gives 429 with the seconds left in the window, the three rate-limit
      headers, and `Retry-After` exactly when a lock-out time is known; an accepted check
      passes the request on with the same headers and no caching. */
  lemma ApiResponseContract(r: Result, now: int)
    ensures var resp := ApiResponse(r, now);
      && (resp.Next? <==> r.success) && !resp.Redirect?
      && (!r.success ==>
            && resp.status == 429 && resp.error == "Rate limit exceeded"
            && (resp.retryAfter - 1) * 1000 < r.resetTime - now <= resp.retryAfter * 1000
            && resp.headers.Keys == RateHeaders(r).Keys + (if Truthy(r.blockUntil) then {RetryAfter} else {})
            && (forall h :: h in RateHeaders(r) ==> resp.headers[h] == RateHeaders(r)[h]))
      && (r.success ==>
            && resp.headers.Keys == RateHeaders(r).Keys + {CacheControl, ServiceWorkerAllowed}
            && resp.headers[CacheControl] == NoCache
            && (forall h :: h in RateHeaders(r) ==> resp.headers[h] == RateHeaders(r)[h]))
  {
    CeilDivBounds(r.resetTime - now, 1000);
  }

  /** While a lock-out is active, `Retry-After` announces a positive number of seconds
      that covers the rest of the lock-out. */
  lemma RetryAfterCoversLockOut(r: Result, now: int)
    requires !r.success && Truthy(r.blockUntil) && r.blockUntil.value > now
    ensures var q := CeilDiv(r.blockUntil.value - now, 1000);
      && q >= 1 && q * 1000 >= r.blockUntil.value - now
      && ApiResponse(r, now).headers[RetryAfter] == IntToString(q)
  {
    CeilDivBounds(r.blockUntil.value - now, 1000);
  }

  /** The cookie looks like a session: present and longer than ten characters once trimmed. */
  predicate HasSessionCookie(token: Option<string>) {
    token.Some? && token.value != "" && |Trim(token.value)| > 10
  }

  predicate IsAuthPage(path: string) {
    path == "/login" || path == "/register"
  }

  /** The answer to a non-API request. */
  function PageResponse(path: string, token: Option<string>): Response {
    if IsAuthPage(path) && HasSessionCookie(token) then Redirect(TemporaryRedirect, "/dashboard")
    else if IsAuthPage(path) || path == "/dashboard" then
      Next(map[CacheControl := NoCache, ServiceWorkerAllowed := "false"])
    else Next(map[])
  }

  /** Only the exact login and register paths with a session-like cookie redirect, to the
      dashboard; those pages otherwise, and the dashboard, are marked uncacheable; every
      other page passes unchanged. */
  lemma PageResponseContract(path: string, token: Option<string>)
    ensures var resp := PageResponse(path, token);
      && (resp.Redirect? <==> IsAuthPage(path) && HasSessionCookie(token))
      && (resp.Redirect? ==> resp.location == "/dashboard" && resp.status == 307)
      && (!resp.Redirect? && (IsAuthPage(path) || path == "/dashboard") ==>
            resp == Next(map[CacheControl := NoCache, ServiceWorkerAllowed := "false"]))
      && (!IsAuthPage(path) && path != "/dashboard" ==> resp == Next(map[]))
  {
  }

  /** A cookie of at most ten characters never redirects, and sub-paths of the auth pages
      are not auth pages. */
  lemma RedirectNeedsExactPathAndLongCookie(token: string)
    requires |token| <= 10
    ensures !PageResponse("/login", Some(token)).Redirect?
    ensures !PageResponse("/login/x", Some(token + token)).Redirect?
  {
  }

  /** All API policies count against the same `ip:` key, so a client that has spent five
      general API calls in the current window is refused its next login attempt and locked
      out for thirty minutes. */
  lemma PoliciesShareOneCounter(s: State, path: string, ip: string, now: int)
    requires StartsWith(path, "/api/auth/login")
    requires var id := ClientIdentifier(ip, None);
      id in s.entries && !BlockedAt(s.entries[id], now)
      && s.entries[id].resetTime > now && s.entries[id].count >= 5
    ensures var (s', r) := Step(s, ClientIdentifier(ip, None), ConfigOf(PolicyFor(path)), now);
      && !r.success && r.blockUntil == Some(now + 30 * 60 * 1000)
      && ApiResponse(r, now).Reject?
  {
    StepAtLimit(s, ClientIdentifier(ip, None), AuthPolicy, now);
  }

  /** The API branch of the gatekeeper: one check against the policy of `path`, then the
      three rate-limit headers on either answer. */
  method GateApi(limiter: RateLimiter, path: string, ip: string, now: int) returns (resp: Response)
    modifies limiter
    ensures var (s', r) := Step(old(limiter.Snapshot()), ClientIdentifier(ip, None), ConfigOf(PolicyFor(path)), now);
      limiter.Snapshot() == s' && resp == ApiResponse(r, now)
  {
    var identifier := ClientIdentifier(ip, None);
    var config := ApiPolicy;
    if StartsWith(path, "/api/auth/register") || StartsWith(path, "/api/auth/login") {
      config := AuthPolicy;
    } else if StartsWith(path, "/api/contact") {
      config := ContactPolicy;
    }
    assert config == ConfigOf(PolicyFor(path));
    var result := limiter.Check(identifier, config, now);
    var headers := map[];
    headers := headers[RateLimitLimit := IntToString(result.limit)];
    headers := headers[RateLimitRemaining := IntToString(result.remaining)];
    headers := headers[RateLimitReset := IntToString(result.resetTime)];
    assert headers == RateHeaders(result);
    if !result.success {
      var retryAfter := CeilDiv(result.resetTime - now, 1000);
      if Truthy(result.blockUntil) {
        headers := headers[RetryAfter := IntToString(CeilDiv(result.blockUntil.value - now, 1000))];
      }
      return Reject(TooManyRequests, "Rate limit exceeded", retryAfter, headers);
    }
    headers := headers[CacheControl := NoCache];
    headers := headers[ServiceWorkerAllowed := "false"];
    assert Next(headers) == ApiResponse(result, now);
    return Next(headers);
  }

  /** The gatekeeper: a path the matcher skips passes unchanged; matched API paths go
      through the limiter and always return from there; other paths never touch the limiter. */
  method Gatekeep(limiter: RateLimiter, req: Request, now: int) returns (resp: Response)
    modifies limiter
    ensures !Matched(req.path) ==>
      limiter.Snapshot() == old(limiter.Snapshot()) && resp == Next(map[])
    ensures Matched(req.path) && IsApiPath(req.path) ==>
      var (s', r) := Step(old(limiter.Snapshot()), ClientIdentifier(ClientIp(req.forwardedFor, req.realIp), None),
                          ConfigOf(PolicyFor(req.path)), now);
      limiter.Snapshot() == s' && resp == ApiResponse(r, now)
    ensures Matched(req.path) && !IsApiPath(req.path) ==>
      limiter.Snapshot() == old(limiter.Snapshot()) && resp == PageResponse(req.path, req.authToken)
  {
    if !Matched(req.path) {
      return Next(map[]);
    }
    var ip := ClientIp(req.forwardedFor, req.realIp);
    if IsApiPath(req.path) {
      resp := GateApi(limiter, req.path, ip, now);
      return;
    }
    var hasValidToken := req.authToken.Some? && req.authToken.value != "" && |Trim(req.authToken.value)| > 10;
    var isAuthRoute := req.path == "/login" || req.path == "/register";
    if isAuthRoute && hasValidToken {
      return Redirect(TemporaryRedirect, "/dashboard");
    }
    if isAuthRoute || req.path == "/dashboard" {
      var headers := map[];
      headers := headers[CacheControl := NoCache];
      headers := headers[ServiceWorkerAllowed := "false"];
      return Next(headers);
    }
    return Next(map[]);
  }
}
