# Board backend security core, in Dafny

This project models the two decision procedures inside the board backend's security layer
and proves properties of them.

- **JwtProvider**: the token-handling logic. It covers the construction guards (a decoded
  secret of at least 32 bytes, a clock skew clamped to be non-negative) and stripping the
  `Bearer ` prefix from the `Authorization` header. It covers the clock-skew leniency that
  rescues a recently expired token, in integer milliseconds with `now` as a parameter. It
  covers normalising the `roles` claim (absent, scalar or list) into a set, and the claim
  layout of access, refresh and email tokens. The JWT library is treated as abstract: its
  verdict on a token string is a `ParserOutcome`, one of `Verified(claims)`,
  `ExpiredJwt(claims?)` or `OtherFailure(kind)`. Nothing about signatures is proved.
- **WebSecurityConfig**: the `authorizeHttpRequests` rule list. It is modelled as a table of
  `(method?, path pattern, requirement)` rules searched first-match-wins. `Authorize(verb,
  path, principal?, h2Enabled)` returns `Permit`, `DenyUnauthenticated` (401) or
  `DenyForbidden` (403). The model also covers `splitToList`, the CSV helper behind the CORS
  settings.

Java semantics are written out where they matter. `long` arithmetic wraps (`JavaNumbers`).
`String.trim` strips code points up to U+0020, while `isBlank` uses
`Character.isWhitespace`; these are different sets. `String.split(",")` drops trailing
empty pieces and maps `""` to `[""]` (`JavaStrings`).

Modules: `Wrappers` (Option/Result), `JavaNumbers`, `JavaStrings`, `JwtProvider`,
`WebSecurityConfig`.

Three facts about the code shape the model:
- The skew is configured in seconds and compared in milliseconds (`clockSkewSeconds * 1000L`).
- A blank or missing `sub` is returned as is: `getUsernameFromJwt` returns whatever `sub` holds.
- Roles are written as a list and read back as a set.

## Model

| member | source | states |
|---|---|---|
| JwtProvider.NewProvider | src/main/java/org/example/boardback/security/provider/JwtProvider.java:33-56 | Construction fails exactly when the decoded secret is shorter than 32 bytes. Otherwise the effective skew is the larger of the configured value and 0, so it is never negative, and the key and the three lifetimes are kept. |
| JwtProvider.RemoveBearer | src/main/java/org/example/boardback/security/provider/JwtProvider.java:141-146 | Fails exactly when the header is null or does not start with `"Bearer "`. Otherwise the result is trimmed and no longer than the header minus the prefix. |
| JwtProvider.BearerRoundTrip | src/main/java/org/example/boardback/security/provider/JwtProvider.java:141-146 | For any trimmable padding around a trimmed token after the prefix, stripping returns exactly that token. |
| JwtProvider.BearerAloneIsEmptyToken | src/main/java/org/example/boardback/security/provider/JwtProvider.java:141-146 | The header `"Bearer "` alone yields the empty token, not an error. |
| JwtProvider.BearerPrefixRequired | src/main/java/org/example/boardback/security/provider/JwtProvider.java:142-143 | A null header, `"Bearer"` without the space, lower-case `bearer` and another scheme are all rejected. |
| JavaNumbers.WrapLong | src/main/java/org/example/boardback/security/provider/JwtProvider.java:164 | Java `long` addition or subtraction: the result is congruent to the mathematical value modulo 2^64, and equal to it when that value fits. |
| JwtProvider.AncientExpiryPassesAsWritten | src/main/java/org/example/boardback/security/provider/JwtProvider.java:164 | As written, `now - exp <= skewMs` in `long` arithmetic accepts a token whose expiry lies about 292 million years in the past (see Findings). |
| JwtProvider.WithinSkewAsWritten | src/main/java/org/example/boardback/security/provider/JwtProvider.java:160-164 | The rescue comparison exactly as written: when `now - exp` fits a `long` it accepts exactly when the difference is within the skew; when it overflows it compares the wrapped difference instead, which is 2^64 less on positive overflow and 2^64 more on negative overflow. |
| JwtProvider.WithinSkewAgreesOnRealClocks | src/main/java/org/example/boardback/security/provider/JwtProvider.java:164 | For non-negative timestamps, the wrapping comparison and the mathematical one agree. |
| JwtProvider.ParseClaimsInternal | src/main/java/org/example/boardback/security/provider/JwtProvider.java:152-171 | Verified claims pass. An expired token is rescued exactly when leniency is on, the skew is positive, the exception carries claims with an expiry, and `now - exp <= skew*1000`; it is then returned with the carried claims. Otherwise the expiry exception is rethrown with the same claims. Any other failure is rethrown unchanged. No claims are ever invented. |
| JwtProvider.StrictWithoutSkew | src/main/java/org/example/boardback/security/provider/JwtProvider.java:155-169 | With skew 0, or without leniency, every expired token is rejected. |
| JwtProvider.LeniencyMonotone | src/main/java/org/example/boardback/security/provider/JwtProvider.java:158-166 | Acceptance only widens as the skew grows and only narrows as the clock advances. |
| JwtProvider.FiveSecondSkew | src/main/java/org/example/boardback/security/provider/JwtProvider.java:158-166 | With a 5 s skew, a token expired 3 s ago is accepted and one expired 10 s ago is rejected. |
| JwtProvider.IsValidToken | src/main/java/org/example/boardback/security/provider/JwtProvider.java:87-95 | Never fails. True exactly for a verified token, or for an expired one inside the skew window. Always false for any other parser failure. |
| JwtProvider.GetClaims | src/main/java/org/example/boardback/security/provider/JwtProvider.java:97-100 | Succeeds exactly when `isValidToken` holds, and then returns the claims the library decoded. An expired token outside the skew window fails with its expiry error, carrying its claims. Any other parser failure is rethrown unchanged. |
| JwtProvider.GetUsernameFromJwt | src/main/java/org/example/boardback/security/provider/JwtProvider.java:103-105 | Succeeds exactly when the token is valid, and then returns the subject the library decoded. |
| JwtProvider.GetEmailFromJwt | src/main/java/org/example/boardback/security/provider/JwtProvider.java:126-128 | Succeeds exactly when the token is valid, and then returns the decoded `email` claim. |
| JwtProvider.GetRemainingMillis | src/main/java/org/example/boardback/security/provider/JwtProvider.java:131-134 | Succeeds only for a valid token. A valid token without an expiry fails, because `getExpiration()` then returns null and `.getTime()` at line 133 throws a `NullPointerException`. An invalid token propagates the parse error. On success the value is `exp - now` whenever that fits a `long`. |
| JwtProvider.RemainingMillisBounded | src/main/java/org/example/boardback/security/provider/JwtProvider.java:131-134 | With a strict library and real timestamps, the remaining lifetime of an accepted token is at least minus the skew. It is negative only for a token the skew rescued. |
| JwtProvider.NonNullElements | src/main/java/org/example/boardback/security/provider/JwtProvider.java:114-120 | The set holds exactly the non-null list elements, duplicates collapsed, so it is no larger than the list. |
| JwtProvider.NormaliseRoles | src/main/java/org/example/boardback/security/provider/JwtProvider.java:110-122 | An absent claim gives the empty set. A list gives exactly its non-null elements. A scalar gives the singleton of its text. |
| JwtProvider.GetRolesFromJwt | src/main/java/org/example/boardback/security/provider/JwtProvider.java:109-123 | Succeeds exactly when the token is valid, and then returns the normalised roles of the decoded claims. |
| JwtProvider.ScalarAndListAgree | src/main/java/org/example/boardback/security/provider/JwtProvider.java:110-122 | `"ADMIN"` as a scalar, as a one-element list, and as a list with a duplicate and a null all normalise to the same singleton. |
| JwtProvider.RolesAsList | src/main/java/org/example/boardback/security/provider/JwtProvider.java:182 | A null set becomes the empty list. Otherwise the list holds the set's elements one for one, in iteration order, a null element included. |
| JwtProvider.RolesAsListRoundTrip | src/main/java/org/example/boardback/security/provider/JwtProvider.java:177-190 | Reading back, through the roles normalisation, the roles `buildToken` wrote gives exactly the non-null elements of the original set. A null element is lost, and a null set gives the empty set. |
| JwtProvider.NullRoleLost | src/main/java/org/example/boardback/security/provider/JwtProvider.java:182 | A set holding null and `ADMIN` is written as `[null, "ADMIN"]` and read back as just `{ADMIN}`. |
| JwtProvider.BuildClaims | src/main/java/org/example/boardback/security/provider/JwtProvider.java:177-190 | An issued token records the subject (absent for a null username) and `iat = now`, and carries no email. Its roles list reads back as the set's non-null elements. It always has an expiry, with `exp - iat = expMs` when the sum fits a `long`. |
| JwtProvider.IssuedTokenRoundTrip | src/main/java/org/example/boardback/security/provider/JwtProvider.java:177-190 | A verified issued token reads back as its subject, possibly absent, and the non-null elements of its role set. |
| JwtProvider.IssuedTokenSkewWindow | src/main/java/org/example/boardback/security/provider/JwtProvider.java:155-169 | For a positive skew, an issued token the library reports as expired stays valid exactly while `now <= iat + expMs + skew*1000`. |
| JwtProvider.GenerateAccessToken | src/main/java/org/example/boardback/security/provider/JwtProvider.java:62-65 | An access token carries the subject, reads back the non-null elements of the given role set, is issued at `now` without an email, and expires `accessExpMs` later when that sum fits a `long`. |
| JwtProvider.GenerateRefreshToken | src/main/java/org/example/boardback/security/provider/JwtProvider.java:67-70 | A refresh token carries the subject, reads back the non-null elements of the given role set, is issued at `now` without an email, and expires `refreshExpMs` later when that sum fits a `long`. |
| JwtProvider.GenerateEmailToken | src/main/java/org/example/boardback/security/provider/JwtProvider.java:72-81 | An email token carries only the email (no email claim at all for a null email), with no subject and roles that read back as the empty set. It is issued at `now` and expires `emailExpMs` later when that sum fits a `long`. |
| JwtProvider.AccessAndRefreshDifferOnlyInExpiry | src/main/java/org/example/boardback/security/provider/JwtProvider.java:62-70 | Access and refresh tokens for the same input agree on every claim except `exp`. Each lives for its configured lifetime. |
| JwtProvider.EmailTokenGrantsNothing | src/main/java/org/example/boardback/security/provider/JwtProvider.java:72-81 | A verified email token yields no roles, no subject, and its email, which is absent when a null email was given. |
| JavaStrings.Trim | src/main/java/org/example/boardback/security/provider/JwtProvider.java:145 | The result is trimmed, no longer than the input, and built from the input's characters. An already-trimmed string is unchanged. |
| JavaStrings.TrimPadded | src/main/java/org/example/boardback/security/provider/JwtProvider.java:145 | Trimming removes exactly the padding around any trimmed core. |
| JavaStrings.BlankVersusTrim | src/main/java/org/example/boardback/config/WebSecurityConfig.java:135-136 | `trim` and `isBlank` use different notions of space. Every ASCII Java whitespace character is trimmable. U+2000 is blank, yet `trim` keeps it. U+0000 is trimmed, yet it is not whitespace. |
| JavaStrings.SplitOn | src/main/java/org/example/boardback/config/WebSecurityConfig.java:134 | The pieces contain no separator and join back to the input. |
| JavaStrings.JoinInjective | src/main/java/org/example/boardback/config/WebSecurityConfig.java:134 | Separator-free pieces are determined by their join, so splitting is the unique inverse of joining. |
| JavaStrings.DropTrailingEmpty | src/main/java/org/example/boardback/config/WebSecurityConfig.java:134 | The result is a prefix of the pieces, only empty pieces are removed, and it does not end with an empty piece. |
| JavaStrings.JavaSplit | src/main/java/org/example/boardback/config/WebSecurityConfig.java:134 | `String.split` never returns a piece that contains the delimiter. |
| JavaStrings.JavaSplitPieces | src/main/java/org/example/boardback/config/WebSecurityConfig.java:134 | `"".split(",")` gives `[""]`. Otherwise the result is the plain split minus its run of trailing empty pieces: a prefix of the plain split, followed only by empty pieces, and not ending with one. |
| WebSecurityConfig.FirstMatch | src/main/java/org/example/boardback/config/WebSecurityConfig.java:101-126 | Returns the index of the first rule matching the request: no earlier rule matches. Some rule always matches when the table ends with a catch-all rule. |
| WebSecurityConfig.FirstMatchPrepend | src/main/java/org/example/boardback/config/WebSecurityConfig.java:103-105 | Registering the h2-console rule first shifts every later match by one, unless the console rule itself matches. |
| WebSecurityConfig.Rules | src/main/java/org/example/boardback/config/WebSecurityConfig.java:101-126 | The table always ends with the catch-all `anyRequest().authenticated()`. |
| WebSecurityConfig.Decide | src/main/java/org/example/boardback/config/WebSecurityConfig.java:112-125 | A denied anonymous caller gets 401 and a denied authenticated caller gets 403. Forbidden never goes to an anonymous caller, and unauthenticated never goes to an authenticated one. |
| WebSecurityConfig.Authorize | src/main/java/org/example/boardback/config/WebSecurityConfig.java:101-126 | The filter chain's decision. It carries the same 401/403 split as `Decide`. |
| WebSecurityConfig.BaseTableFollowsPolicy | src/main/java/org/example/boardback/config/WebSecurityConfig.java:107-125 | Searched first-match, the unconditional table yields the priority policy: pre-flight, public prefixes, self-service, board routes by method, admin, default. |
| WebSecurityConfig.AuthorizeFollowsPolicy | src/main/java/org/example/boardback/config/WebSecurityConfig.java:101-126 | For every request, the rule table decides exactly as the priority policy with the h2 console (when enabled) first. |
| WebSecurityConfig.AnonymousAccess | src/main/java/org/example/boardback/config/WebSecurityConfig.java:103-125 | An anonymous caller is permitted exactly on public routes (h2 console when enabled, any OPTIONS request, the auth and notices APIs). Anywhere else it is denied as unauthenticated. |
| WebSecurityConfig.PublicRoutesPermitted | src/main/java/org/example/boardback/config/WebSecurityConfig.java:103-110 | Public routes are permitted whoever calls. |
| WebSecurityConfig.MorePrivilegeNeverHurts | src/main/java/org/example/boardback/config/WebSecurityConfig.java:107-125 | Authenticating, or holding more roles, never turns a permit into a denial. |
| WebSecurityConfig.RoutesDisjoint | src/main/java/org/example/boardback/config/WebSecurityConfig.java:104-123 | No path lies under two of the distinct route prefixes of the table. Each pair among the h2 console, auth, notices, users/me, boards and admin prefixes is exclusive. |
| WebSecurityConfig.UsersMeNeedsOnlyAuthentication | src/main/java/org/example/boardback/config/WebSecurityConfig.java:112 | Outside pre-flight, `/api/v1/users/me/**` is permitted exactly for authenticated callers, whatever their roles. |
| WebSecurityConfig.BoardAccess | src/main/java/org/example/boardback/config/WebSecurityConfig.java:114-125 | On board routes, GET, POST, PUT and DELETE are permitted exactly for callers holding one of the method's roles. An unlisted method such as PATCH falls through to the default and needs only authentication. |
| WebSecurityConfig.BoardLadder | src/main/java/org/example/boardback/config/WebSecurityConfig.java:114-121 | Whoever may DELETE a board route may PUT and POST it. Whoever may PUT or POST it may GET it. |
| WebSecurityConfig.AdminOnly | src/main/java/org/example/boardback/config/WebSecurityConfig.java:123 | Outside pre-flight, `/api/v1/admin/**` is permitted exactly for callers holding ADMIN. Other authenticated callers get 403. |
| WebSecurityConfig.H2FlagOnlyAffectsConsole | src/main/java/org/example/boardback/config/WebSecurityConfig.java:103-105 | The h2 flag changes decisions only on h2-console paths. When enabled these are open. When disabled they fall to the default, pre-flight aside. |
| WebSecurityConfig.DeleteBoardExample | src/main/java/org/example/boardback/config/WebSecurityConfig.java:120-121 | DELETE `/api/v1/boards/5` is forbidden to a MANAGER and permitted to an ADMIN. |
| WebSecurityConfig.LoginExample | src/main/java/org/example/boardback/config/WebSecurityConfig.java:109 | GET `/api/v1/auth/login` is permitted to an anonymous caller. |
| WebSecurityConfig.TrimAndDropBlankOne | src/main/java/org/example/boardback/config/WebSecurityConfig.java:135-136 | A single piece becomes its trim, unless that trim is blank, in which case it is dropped. With `TrimAndDropBlankAppend` this fixes the result for every list. |
| WebSecurityConfig.TrimAndDropBlank | src/main/java/org/example/boardback/config/WebSecurityConfig.java:135-136 | Every result is trimmed and not blank, and any character missing from every piece is missing from every result. |
| WebSecurityConfig.TrimAndDropBlankAppend | src/main/java/org/example/boardback/config/WebSecurityConfig.java:134-137 | Trimming and dropping blanks works piecewise over concatenation, so order is kept. |
| WebSecurityConfig.TrimAndDropBlankKeepsClean | src/main/java/org/example/boardback/config/WebSecurityConfig.java:135-136 | Pieces that are already trimmed and not blank pass through unchanged. |
| WebSecurityConfig.SplitToList | src/main/java/org/example/boardback/config/WebSecurityConfig.java:133-138 | No element is blank, starts or ends with a code point up to U+0020, or contains a comma. |
| WebSecurityConfig.SplitToListIsPieces | src/main/java/org/example/boardback/config/WebSecurityConfig.java:133-138 | The result is exactly the comma-separated pieces, trimmed, with blanks dropped, in order. Java's removal of trailing empty pieces and its `""` special case change nothing. |
| WebSecurityConfig.SplitToListJoin | src/main/java/org/example/boardback/config/WebSecurityConfig.java:133-138 | Joining trimmed, non-blank, comma-free values with commas and splitting again returns them. |

## Left out

- Signing and verification are left out: HMAC signing, the compact JWT serialisation, the jjwt parser and the choice of signature algorithm belong to a foreign library. The parser's verdict is an input (`ParserOutcome`), and nothing about signatures is proved.
- Base64 decoding of the secret is left out: `NewProvider` receives the decoded bytes, and a malformed Base64 string is not modelled.
- The clock is not read: `System.currentTimeMillis` becomes the parameter `now`. `getRemainingMillis` reads the clock twice (inside parsing and again for the subtraction); the model uses one `now` for both.
- The library stores `iat` and `exp` as whole seconds. Claims are modelled in milliseconds as the builder is given them, so truncation to seconds is not modelled.
- Claim values are simplified. Roles-claim elements and scalars are kept as their `toString()` text. The `email` claim is a string, so the library's type-mismatch exception in `get("email", String.class)` is not modelled. Whether the builder omits an empty roles list or an empty subject is library behaviour. Either way an empty roles list reads back as the empty set.
- A Java `Set<String>` passed to `buildToken` is represented by its iteration order, with `None` for a null element and for a null set, because `new ArrayList<>(roles)` copies it in that order. Which order a `HashSet` iterates in is not modelled.
- The Spring bean wiring is left out: filter-chain construction, CSRF/session/CORS configurers, the frame-options header, `BCryptPasswordEncoder`, `AuthenticationManager` and `addFilterBefore`. The `ROLE_` prefix added by `hasRole` is also left out: roles are plain names.
- Spring's path matching is modelled as segment-prefix matching on the raw path. Path normalisation, encoded characters and the request firewall are not modelled.
- The filter that links the two modules (reading the header, calling `removeBearer`, `isValidToken` and `getRolesFromJwt`, and attaching the principal) is in `JwtAuthenticationFilter`, which is not part of this model.
- `UserPrincipal` is represented only as `Principal(username, roles)`. Its account flags do not enter the rule table.
- `ApiMappingPattern` and `BoardCommentApi` (string constants) and `BoardCategoryRepository` (an empty JPA interface) have no behaviour to model.
- Overflow of `now + expMs` is modelled with `WrapLong`. The lifetime lemmas assume the sum fits a `long`.

## Findings

| source | as written | input that shows it | evidently intended | confidence | as-written member | corrected member |
|---|---|---|---|---|---|---|
| src/main/java/org/example/boardback/security/provider/JwtProvider.java:164 | `now - exp.getTime() <= skewMs` is evaluated in wrapping `long` arithmetic | `now = 1_700_000_000_000`, `exp = -9_223_372_036_854_775_000` ms, skew 1 s: the difference wraps to `-9_223_370_336_854_776_616`, and a token that expired about 292 million years ago is accepted | accept only when the mathematical difference is within the skew, e.g. compare `exp >= now - skewMs` | low: the token must still carry a valid signature, so only the key holder can produce such an `exp`; not executed | JwtProvider.AncientExpiryPassesAsWritten | JwtProvider.ParseClaimsInternal |

The corrected comparison (`WithinSkew`) is what `ParseClaimsInternal`, and through it every
accessor, uses. `WithinSkewAgreesOnRealClocks` proves it agrees with the code as written for
every non-negative timestamp.
