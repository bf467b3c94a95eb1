# Request security and validation core of a Next.js site

This project models, in Dafny, the request-handling code that guards a small
Next.js company website, and proves properties of that model:

- the in-memory rate limiter (`lib/rate-limit.ts`): a map from client
  identifier to a counter with a window end and an optional lock-out, swept at
  most every five minutes;
- the request gatekeeper (`middleware.ts`): the route matcher that keeps it off
  static files and images, the client address from the proxy
  headers, the rate-limit policy chosen by path prefix, the `429 Too Many
  Requests` answer (section 4 of RFC 6585) with `Retry-After` in seconds
  (section 10.2.3 of RFC 9110), the redirect of signed-in users away from the
  login and register pages, and the no-cache headers;
- CSRF tokens (`lib/csrf.ts`): the `timestamp.nonce.session.signature` format,
  the four verification steps, and the header extraction; the HMAC (RFC 2104)
  is a function parameter and the nonce an input;
- the validators and sanitisers of `lib/auth.ts` and `lib/validation.ts`:
  password rules, the e-mail pattern `^[^\s@]+@[^\s@]+\.[^\s@]+$`, names, the
  `Bearer` header, `sanitizeInput`, and the contact form checks;
- the JSON-LD safety filter (`components/structured-data.tsx`): the dangerous
  content scan, the shape check, the character escaping for a `<script>` body
  and the filter over several entries;
- the `GET /api/auth/me` handler's decision chain, with token verification and
  the user store as parameters;
- two pure helpers from the user interface: the error classifier of
  `app/error.tsx` and the avatar initials of `components/header.tsx`.

Files: `wrappers.dfy` (Option), `strings.dfy` (module `JsString`: the
JavaScript string operations the code relies on: `trim`, ASCII case mapping,
`split`/`join`, `includes`, `parseInt`, number formatting), `email.dfy`
(module `EmailPattern`: the e-mail regular expression as a declarative
predicate and a decision procedure), then one file per source file:
`rate_limit.dfy`, `middleware.dfy`, `csrf.dfy`, `auth.dfy`, `validation.dfy`,
`structured_data.dfy`, `me_route.dfy`, `error_info.dfy`, `initials.dfy`.

The rate limiter is a class `RateLimit.RateLimiter` whose fields are the map
and the time of the last sweep; its methods `Cleanup` and `Check` are proved
against the pure functions `Cleaned` and `Step`, and the lemmas about those
functions carry the limiter's promises (each branch of a check, the count
bound, the frame, and at most `maxRequests` successes per identifier and
window over any chronological sequence of calls). The middleware is a method
over the limiter. Password and contact-form validation build their error lists
step by step, as the source does, and are methods; everything else is pure.

## Model

| member | source | states |
|---|---|---|
| RateLimit.ClientIdentifier | lib/rate-limit.ts:117-119 | the key starts with `user:` exactly when a non-empty user id is given, and then carries that id; otherwise it is `ip:` followed by the address |
| RateLimit.ClientIdentifierInjective | lib/rate-limit.ts:117-119 | two requests share a counter only if they carry the same non-empty user id, or both carry none and come from the same address |
| RateLimit.Cleaned | lib/rate-limit.ts:19-29 | the passive sweep as a function of the state and the clock; what it deletes and keeps is stated by `RateLimit.CleanedDeletesExactlyStale` |
| RateLimit.Decide | lib/rate-limit.ts:53-111 | the per-identifier branches (locked out, fresh window, at the limit, counting); each is stated by one of the `RateLimit.Step*` rows below |
| RateLimit.Step | lib/rate-limit.ts:49-112 | one limiter call, the sweep followed by `Decide`; stated by `RateLimit.StepWhileBlocked` through `RateLimit.AtMostMaxRequestsPerWindow` |
| RateLimit.CleanedDeletesExactlyStale | lib/rate-limit.ts:16-29 | no sweep before five minutes have passed; a due sweep deletes exactly the entries whose window and lock-out are both over, keeps every other entry unchanged and records the time |
| RateLimit.StepWhileBlocked | lib/rate-limit.ts:56-65 | during an active lock-out a check fails with nothing remaining, reports the lock-out and its end, and leaves the entry unchanged |
| RateLimit.StepFreshWindow | lib/rate-limit.ts:68-81 | with no entry or an expired window (and no active lock-out) the entry becomes a count of one for a new window with no lock-out fields, and the call succeeds reporting the policy's limit, `maxRequests - 1` remaining, the new window's end and no lock-out |
| RateLimit.StepAtLimit | lib/rate-limit.ts:84-100 | at the limit in an open window the call fails without counting, reporting the policy's limit, nothing remaining and the window's end; a policy with a lock-out duration sets the lock-out to `now + blockDurationMs` and reports it, one without leaves the entry as it was and reports its existing lock-out fields |
| RateLimit.StepIncrement | lib/rate-limit.ts:103-111 | below the limit in an open window the count rises by exactly one and the call succeeds reporting the policy's limit, `maxRequests - count` remaining (never negative), the window's end and no lock-out |
| RateLimit.StepKeepsCountsWithin | lib/rate-limit.ts:68-111 | when every policy allows between 1 and `bound` requests, no stored count ever leaves 1..`bound` |
| RateLimit.StepFrame | lib/rate-limit.ts:49-112 | a check changes only its own identifier's entry; other entries can only disappear through the sweep, and not at all when no sweep is due |
| RateLimit.StepWithinAllowance | lib/rate-limit.ts:49-112 | one call, by any client and under any policy, never increases what an identifier may still collect under a given policy in a given window |
| RateLimit.SuccessesWithinAllowance | lib/rate-limit.ts:49-112 | over any chronological sequence of calls, in which the identifier may also be checked under other policies, its successes under one policy in a window never exceed its remaining allowance |
| RateLimit.AtMostMaxRequestsPerWindow | lib/rate-limit.ts:49-112 | at most `maxRequests` calls from one identifier succeed under a policy per window, whatever other clients and the same identifier under other policies do in between; the window is the one stored in the entry, whose length was set by the policy that opened it |
| RateLimit.ApiCallShortensLoginWindow | middleware.ts:35-44 | one `ip:` key serves all three policies: after a general API call opens a one-minute window, a login within that minute succeeds in the same window, which ends before a fifteen-minute login window would |
| RateLimit.RateLimiter.constructor | lib/rate-limit.ts:13-17 | the limiter starts with an empty map and the sweep clock set to the start time |
| RateLimit.RateLimiter.Cleanup | lib/rate-limit.ts:19-29 | the loop over the map deletes exactly the stale entries when a sweep is due, leaves the others untouched, and records the sweep time; the new state is `Cleaned` of the old one |
| RateLimit.RateLimiter.Check | lib/rate-limit.ts:49-112 | the new map, sweep time and result are exactly those of `Step` on the old state, so every `Step*` lemma applies to the limiter |
| Middleware.CeilDivBounds | middleware.ts:50 | the rounded-up quotient is the least whole number of seconds covering the remaining milliseconds |
| Middleware.ClientIp | middleware.ts:11-25 | the client address from the proxy headers; stated by `Middleware.ClientIpOrder` |
| Middleware.ClientIpOrder | middleware.ts:11-25 | a non-empty `X-Forwarded-For` wins, giving its trimmed text before the first comma; else a non-empty `X-Real-IP`; else `127.0.0.1` |
| Middleware.PolicyFor | middleware.ts:36-42 | the policy by path prefix; stated by `Middleware.PolicyForExactly`, `Middleware.PolicyByPrefix` and `Middleware.PoliciesShareOneCounter` |
| Middleware.PolicyForExactly | middleware.ts:36-42 | for every path, the login policy exactly when it starts with one of the two auth routes, the contact policy exactly when it starts with `/api/contact`, the general policy exactly when neither |
| Middleware.PolicyByPrefix | middleware.ts:36-42 | policies are chosen by prefix: `/api/auth/login/extra` and `/api/auth/registered` get the login policy, `/api/contacts` the contact policy, `/api/auth/me` the general one |
| Middleware.ApiResponse | middleware.ts:46-75 | the 429 or pass-on answer to a limiter result; stated by `Middleware.ApiResponseContract` and `Middleware.RetryAfterCoversLockOut` |
| Middleware.HeaderNamedName | middleware.ts:56-73 | every header the gatekeeper sets is found again by `headers.get` under the name it was set with |
| Middleware.HeaderNamesDistinct | middleware.ts:56-73 | the six header names set on responses are pairwise different, so keying the headers by kind loses nothing |
| Middleware.ApiResponseContract | middleware.ts:46-75 | a refused check gives 429 with the seconds left in the window, the three `X-RateLimit-*` headers and `Retry-After` exactly when a lock-out time is known; an accepted check forwards with the same headers plus no-cache |
| Middleware.RetryAfterCoversLockOut | middleware.ts:60-62 | during an active lock-out `Retry-After` is a positive number of seconds covering the rest of the lock-out |
| Middleware.PageResponse | middleware.ts:78-100 | the answer to a page request; stated by `Middleware.PageResponseContract` and `Middleware.RedirectNeedsExactPathAndLongCookie` |
| Middleware.PageResponseContract | middleware.ts:78-100 | a redirect to `/dashboard` (307) happens exactly on `/login` or `/register` with a session-like cookie; those pages otherwise, and `/dashboard`, get no-cache headers; other pages pass unchanged |
| Middleware.RedirectNeedsExactPathAndLongCookie | middleware.ts:79-90 | a cookie of at most ten characters never redirects, and `/login/x` is not an auth page |
| Middleware.PoliciesShareOneCounter | middleware.ts:32-44 | all API policies count against the same `ip:` key, so five general API calls in an open window make the next login attempt fail with a thirty-minute lock-out |
| Middleware.Matched | middleware.ts:104-116 | the route matcher over the whole path; stated by `Middleware.ApiPathMatched`, `Middleware.ApiImageSkipped` and `Middleware.StaticAssetsSkipped` |
| Middleware.HasLineTerminatorExactly | middleware.ts:114 | the matcher's `.` fails exactly on a path containing a line terminator |
| Middleware.EndsWithExtensionExactly | middleware.ts:114 | the extension alternative holds exactly when the path ends with a dot and one of the listed extensions |
| Middleware.ApiPathMatched | middleware.ts:104-116 | an API path reaches the gatekeeper exactly when it has no line terminator and does not end with an image extension |
| Middleware.ApiImageSkipped | middleware.ts:104-116 | an API path ending with `.svg`, `.png`, `.jpg`, `.jpeg`, `.gif`, `.webp` or `.ico` never reaches the gatekeeper, so it is never rate-limited |
| Middleware.StaticAssetsSkipped | middleware.ts:104-116 | paths under `/_next/static/` never reach the gatekeeper |
| Middleware.GateApi | middleware.ts:32-76 | the API branch performs one limiter check under the policy of the path and answers `ApiResponse` of its result; the limiter's new state is that check's state |
| Middleware.Gatekeep | middleware.ts:27-116 | a path the matcher skips passes unchanged without touching the limiter; matched API paths always return from the API branch and update the limiter by one check; other matched paths leave the limiter unchanged and answer `PageResponse` |
| Csrf.Generate | lib/csrf.ts:19-29 | the token layout; stated by `Csrf.TokenIsJoin` and, with `Verify`, by `Csrf.RoundTrip` |
| Csrf.Verify | lib/csrf.ts:34-66 | the four verification steps; stated by `Csrf.VerifyWellFormed`, `Csrf.VerifiedTokenShape` and the rows after them |
| Csrf.TokenIsJoin | lib/csrf.ts:22-28 | a token is its four fields joined by dots |
| Csrf.VerifiedTokenShape | lib/csrf.ts:34-66 | an accepted token has exactly three dots, is the join of its four fields and carries the expected session |
| Csrf.VerifyWellFormed | lib/csrf.ts:34-66 | a token of four dot-free fields is accepted exactly when the session matches, the timestamp is at most an hour old or unparsable, and the signature matches the recomputed HMAC |
| Csrf.RoundTrip | lib/csrf.ts:19-66 | a token generated for a dot-free session verifies for that session at any time up to one hour later |
| Csrf.ExpiredAfterOneHour | lib/csrf.ts:46-50 | more than an hour after generation the token is refused |
| Csrf.OtherSessionRefused | lib/csrf.ts:42-43 | a token is refused for any session other than the one it was generated for (a missing session meaning `anonymous`) |
| Csrf.DottedSessionNeverVerifies | lib/csrf.ts:36-37 | a token generated for a session id containing a dot never verifies, for any session and at any time |
| Csrf.UnparsableTimestampNeverExpires | lib/csrf.ts:46-50 | when the timestamp field does not parse as a number, the clock has no influence on the verdict |
| Csrf.TrailingNonHexIgnored | lib/csrf.ts:59-62 | signatures are compared as decoded bytes, so a valid signature followed by a non-hex character is still accepted |
| Csrf.Extract | lib/csrf.ts:71-84 | the `X-CSRF-Token` header is returned exactly when it is non-empty, whatever the content type |
| Auth.PasswordErrors | lib/auth.ts:90-104 | the broken-rule messages in rule order; stated by the three lemmas below |
| Auth.PasswordErrorsReportBrokenRules | lib/auth.ts:90-104 | each of the four messages is reported exactly when its rule (8+ characters, an upper-case letter, a lower-case letter, a digit) is broken |
| Auth.PasswordErrorsInRuleOrder | lib/auth.ts:90-104 | at most four messages are reported, each once, in the order length, upper case, lower case, digit |
| Auth.PasswordValidExactly | lib/auth.ts:90-109 | no message is reported exactly when the password has 8+ characters, an upper-case letter, a lower-case letter and a digit |
| Auth.ValidatePassword | lib/auth.ts:87-110 | the pushed messages are exactly the broken-rule list `PasswordErrors`, so the three lemmas above hold of the result; valid exactly when that list is empty |
| Auth.PasswordExample | lib/auth.ts:87-110 | `Passw0rd` is a valid password |
| Auth.ValidateEmail | lib/auth.ts:115-118 | the lower-cased address is accepted exactly when the address itself matches the e-mail pattern |
| Auth.ValidateName | lib/auth.ts:123-125 | an accepted name has at least two characters |
| Auth.ValidateNameCore | lib/auth.ts:123-125 | a name is accepted exactly when it is 2 to 100 characters, neither starting nor ending with white space, surrounded by white space only |
| Auth.ValidateNameIgnoresPadding | lib/auth.ts:123-125 | white space around a name never changes whether it is accepted |
| Auth.ExtractTokenFromHeader | lib/auth.ts:75-82 | the `Bearer` token of a header; stated by `Auth.ExtractTokenExactly` |
| Auth.ExtractTokenExactly | lib/auth.ts:75-82 | a token is extracted exactly from `Bearer`, one space and a space-free (possibly empty) token |
| EmailPattern.IsEmailShapeMatchesPattern | lib/validation.ts:16-19 | the decision procedure accepts exactly the strings of the pattern: a non-empty local part, `@`, a non-empty domain label, a dot, a non-empty rest, no white space and no second `@` |
| Validation.IsValidEmail | lib/validation.ts:16-19 | accepted exactly when the address matches the e-mail pattern |
| Validation.RemoveAngles | lib/validation.ts:27 | the result contains no `<` and no `>` |
| Validation.RemoveAnglesKeepsOthers | lib/validation.ts:27 | every other character keeps its number of occurrences, and the length drops by the number of brackets |
| Validation.RemoveAnglesIdentity | lib/validation.ts:27 | text without brackets is unchanged |
| Validation.LowerEqualsToLower | lib/validation.ts:28 | the case-insensitive comparison agrees with comparing the lower-cased text |
| Validation.ProtocolAtLowerSlice | lib/validation.ts:28 | a match of `javascript:` at a position is an ASCII case-insensitive match of the eleven characters there |
| Validation.StripProtocol | lib/validation.ts:28 | the result is no longer than the input and consists of input characters |
| Validation.StripProtocolRemovesWholeMatches | lib/validation.ts:28 | the removal shortens the text by a multiple of eleven: only whole matches are removed |
| Validation.StripProtocolIdentity | lib/validation.ts:28 | text with no case-insensitive `javascript:` anywhere is unchanged |
| Validation.StripProtocolAtFirstMatch | lib/validation.ts:28 | everything before the first match is kept, the match is removed and the scan resumes after it |
| Validation.SanitizeInput | lib/validation.ts:24-30 | the sanitised text has no angle brackets and at most 5000 characters |
| Validation.SanitizeKeepsUncoveredSpace | lib/validation.ts:25-27 | trimming happens before bracket removal, so `< x` becomes ` x` |
| Validation.SanitizeIsSinglePass | lib/validation.ts:28 | the protocol removal is a single left-to-right pass: any case variant nested inside itself leaves that variant behind, and the result starts with a match |
| Validation.SanitizeRemovesBracketedProtocol | lib/validation.ts:27-28 | brackets go before the protocol, so a case variant of `javascript:` with a `<` inside is removed completely |
| Validation.RemoveAnglesAppend | lib/validation.ts:27 | bracket removal works character by character: it distributes over concatenation |
| Validation.ContactErrors | lib/validation.ts:42-61 | the error record the form should produce; stated by `Validation.ContactErrorsPerField` and `Validation.ContactFormValidExactly` |
| Validation.ContactErrorsPerField | lib/validation.ts:42-61 | a field has an error exactly when its rule is broken (name or message shorter than 2 or 10 once trimmed, e-mail empty or not matching the pattern, no interest area), with that rule's message; the company never has one |
| Validation.ContactFormValidExactly | lib/validation.ts:42-64 | the error record is empty exactly when all four rules hold |
| Validation.ValidateContactForm | lib/validation.ts:35-67 | the record the method fills is exactly the declarative `ContactErrors`, so the two lemmas above hold of it; valid exactly when the record is empty |
| Validation.SanitizeContactForm | lib/validation.ts:72-80 | name, message and interest area are each `SanitizeInput` of the input field, the e-mail is the lower-cased sanitised e-mail, a kept company is the sanitised company; every field comes out free of brackets and at most 5000 long, the e-mail without capitals, and the company is absent exactly when it was missing or empty |
| StructuredData.Lookup | components/structured-data.tsx:44 | a key is found exactly when some member has it, and the value found belongs to such a member |
| StructuredData.HasUnsafeContent | components/structured-data.tsx:50-75 | the recursive scan; stated by `StructuredData.UnsafeIffDangerousValue` |
| StructuredData.UnsafeIffDangerousValue | components/structured-data.tsx:50-75 | the recursive scan reports a value unsafe exactly when one of the strings in its array elements and object values (not keys), at any depth, is dangerous |
| StructuredData.ValidateStructuredData | components/structured-data.tsx:36-83 | the shape and safety check; stated by `StructuredData.ValidateStructuredDataExactly` |
| StructuredData.ValidateStructuredDataExactly | components/structured-data.tsx:36-83 | data is accepted exactly when it is an object with truthy `@context` and `@type` and none of its value strings is dangerous |
| StructuredData.ReplaceChar | components/structured-data.tsx:18-24 | after a global replacement by text without that character, the character is gone |
| StructuredData.EscapeChain | components/structured-data.tsx:18-24 | the six replacements in their order; stated by `StructuredData.EscapeChainIsEach` and, through it, `StructuredData.EscapeEachSafe` |
| StructuredData.EscapeChainIsEach | components/structured-data.tsx:18-24 | the chain of six global replacements equals escaping each character on its own: the later steps never touch what the earlier ones inserted |
| StructuredData.EscapeEachSafe | components/structured-data.tsx:18-24 | the escaped text has no `<`, `>`, `&`, `'` or `"`, and every `/` follows a backslash |
| StructuredData.EscapeJsonForScript | components/structured-data.tsx:12-31 | the escaped serialisation is safe inside a script element and equals per-character escaping |
| StructuredData.Rendered | components/structured-data.tsx:85-92 | the script body is always safe: `{}` for invalid data, otherwise the escaped serialisation |
| StructuredData.FilterValid | components/structured-data.tsx:105-109 | the filter keeps only valid entries and never adds any |
| StructuredData.FilterValidKeepsValid | components/structured-data.tsx:105-109 | an entry is kept exactly when it is present and valid |
| StructuredData.FilterValidAppend | components/structured-data.tsx:105-109 | the filter keeps entries in order: filtering a concatenation concatenates the filtered parts |
| MeRoute.Me | app/api/auth/me/route.ts:5-52 | missing or empty cookie gives 401 "No authentication token found", a refused token 401 "Invalid or expired token", 200 exactly when the token's user is found with its id, e-mail, name and creation time only; no other status |
| MeRoute.MeLookupOutcomes | app/api/auth/me/route.ts:27-51 | a verified token for an absent user gives 404 "User not found", and a failing store 500 "Internal server error" |
| MeRoute.LookupOnlyAfterVerification | app/api/auth/me/route.ts:8-27 | before a token is found and verified the store is never consulted: any two stores give the same answer |
| MeRoute.LookupUsesTokenUser | app/api/auth/me/route.ts:18-27 | the store is asked only about the verified token's user |
| MeRoute.UpdatedAtNotDisclosed | app/api/auth/me/route.ts:36-43 | the answer does not depend on the stored update time |
| ErrorInfo.GetErrorInfo | app/error.tsx:25-49 | on the lower-cased message (empty when missing): `network` or `fetch` gives Connection Issue, else `timeout` gives Request Timeout, else the generic text |
| ErrorInfo.MissingMessageIsGeneric | app/error.tsx:26 | an error without a message gets the generic text |
| ErrorInfo.ClassificationIgnoresCase | app/error.tsx:26 | an upper-cased message is classified like the original |
| Initials.HeadsOfSplit | components/header.tsx:53-56 | the first characters of the space-separated pieces, empty pieces giving nothing, are exactly the characters that start a word |
| Initials.UserInitials | components/header.tsx:52-59 | the initials are the first two word starts, upper-cased, and never more than two characters |
| Initials.FirstInitial | components/header.tsx:52-59 | the first initial is the upper-cased first non-space character of the name |

## Left out

- Password hashing and JSON Web Token signing and verification are foreign libraries; the `/api/auth/me` handler takes `verifyToken` as a function parameter.
- HMAC-SHA256, the 16 random nonce bytes and the clock are parameters of `Csrf.Generate`; the hex decoding and `timingSafeEqual` are modelled as equality of the decoded byte sequences, with unequal lengths refused.
- `getSessionIdFromRequest` (base64 and JSON decoding of a token segment) is not part of this model.
- The secret checks at module load are a start-up concern and are not modelled.
- `lib/db.ts` is database I/O; `getUserById` is a function parameter whose result is found, not found, or a failure.
- `Date.now()` is an explicit `now` parameter; the rate limiter reads the clock twice per call (once in the sweep, once in the check), and the middleware reads it again for the `retryAfter` body field and the `Retry-After` header (middleware.ts:50 and :61); the model uses one value for all of them.
- The route matcher is applied to the pathname as given; the locale and `_next/data` normalisation Next.js performs before matching is not modelled.
- Strings are sequences of Unicode characters, while JavaScript's `.length`, `substring`, `slice` and `word[0]` count UTF-16 code units. For text outside the Basic Multilingual Plane the lengths in `Auth.PasswordErrors`, `Auth.ValidateName`, `Validation.NameCheck`, `Validation.MessageCheck` and `Middleware.HasSessionCookie`, the 5000 cut in `Validation.SanitizeInput` and the first character in `Initials.Head` differ from the source: a name made of one emoji has length 2 there and is accepted, but not here; the source can also cut a surrogate pair in half or return a lone high surrogate, which the model cannot.
- RateLimit.AtMostMaxRequestsPerWindow: the bound is per stored window, not per the policy's own window length. The middleware checks one `ip:` key under all three policies, and a window lasts as long as the policy that opened it says (lib/rate-limit.ts:68-72), so a login window opened by a general API call lasts one minute and, with the API call counted, admits four logins in that minute and four more in the next one opened the same way, rather than five per fifteen minutes (`RateLimit.ApiCallShortensLoginWindow`).
- Concurrent requests and several server instances each holding their own map are not modelled; every check is atomic.
- `app/api/contact/route.ts` is not part of this model (logging, an artificial delay, and forwarding the contact-form result).
- `JSON.stringify` and its exception path are left out: the escaping works on an already-serialised string, and `StructuredData.Rendered` takes the serialiser as a parameter.
- JSON numbers are integers (no floating point, no NaN), and objects are member lists looked up by first match.
- Case mapping (`toLowerCase`, `toUpperCase` and the `/i` regular-expression flag) is ASCII only; non-ASCII letters such as the Kelvin sign keep their case. White space for `trim` and `\s` is the full ECMAScript set.
- The contact form's fields are strings; a request body with non-string fields is not modelled.
- `parseInt` is modelled as leading white space, an optional sign and the longest run of decimal digits, with exact integers: the loss of precision of very long digit strings is not modelled.
- The redirect is modelled by its path `/dashboard` rather than the absolute URL built from the request.
- The user interface, configuration, service-worker scripts and the rest of the pages hold no checkable logic and are not modelled.
- Auth.ValidateName: its own contract states only the lower bound; the full 2-to-100 range is stated by `Auth.ValidateNameCore`.
- Validation.SanitizeIsSinglePass: the single-pass behaviour is stated for every case variant nested in itself; the general scan is characterised by `Validation.StripProtocolIdentity` and `Validation.StripProtocolAtFirstMatch`.
- StructuredData.FilterValid: its own contract states only that kept entries are valid; membership and order are stated by `StructuredData.FilterValidKeepsValid` and `StructuredData.FilterValidAppend`.
