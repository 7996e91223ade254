/** The token-handling decisions of `JwtProvider`: configuration guards, Bearer-prefix
    stripping, clock-skew leniency on expiry, roles normalisation and the claim layout of
    issued tokens. Signing, compact serialisation and signature verification belong to the
    JWT library; its verdict on a token enters the model as a `ParserOutcome`, and the
    clock enters as the parameter `now` (milliseconds since the epoch). */
module JwtProvider {
  import opened Wrappers
  import opened JavaNumbers
  import opened JavaStrings

  /** The scheme prefix of an `Authorization` header value. */
  const BearerPrefix: string := "Bearer "

  /** Minimum length, in bytes, of the decoded signing secret (256 bits). */
  const MinSecretBytes: nat := 32

  /** Milliseconds per second, as in `clockSkewSeconds * 1000L`. */
  const MillisPerSecond: int := 1000

  /* ---------------------------------------------------------------------------
   * Data model
   * ------------------------------------------------------------------------- */

  /** The value stored under the `roles` claim: absent (or JSON null), a list whose
      elements may be null, or any other single value, kept as its `toString()` text. */
  datatype RolesClaim = NoRoles | RoleList(items: seq<Option<string>>) | ScalarRole(text: string)

  /** A decoded token's claims. `iat` and `exp` are `Date` values in milliseconds. */
  datatype Claims = Claims(
    sub: Option<string>,
    roles: RolesClaim,
    iat: Option<Long>,
    exp: Option<Long>,
    email: Option<string>)

  /** A constructed provider: the decoded secret, the three token lifetimes in
      milliseconds, and the effective clock skew in seconds. */
  datatype Provider = Provider(
    key: seq<bv8>,
    accessExpMs: Long,
    refreshExpMs: Long,
    emailExpMs: Long,
    clockSkewSeconds: Int32)

  /** What every provider that construction returns satisfies. */
  predicate ValidProvider(p: Provider) {
    |p.key| >= MinSecretBytes && p.clockSkewSeconds >= 0
  }

  datatype ConfigError = WeakSecret(decodedLength: nat)

  datatype HeaderError = InvalidAuthorizationFormat

  /** Library failures other than expiry: bad signature, malformed or unsupported token,
      a token not yet valid (`nbf` in the future), empty or null input. Claim-type errors
      and any other `JwtException` propagate exactly as these do. */
  datatype FailureKind = BadSignature | MalformedToken | UnsupportedToken | PrematureToken | IllegalArgument

  /** The library parser's verdict on a token string: verified claims, the expiry
      exception (which may carry the claims), or any other failure. */
  datatype ParserOutcome =
    | Verified(claims: Claims)
    | ExpiredJwt(expiredClaims: Option<Claims>)
    | OtherFailure(kind: FailureKind)

  /** What a token operation throws: the expiry exception, rethrown unchanged, any other
      library failure, or the `NullPointerException` of reading a missing expiration. */
  datatype TokenError = Expired(claims: Option<Claims>) | Rejected(kind: FailureKind) | NoExpiration

  /** The claims the library has decoded for an outcome, if any. */
  function Payload(outcome: ParserOutcome): Option<Claims> {
    match outcome
    case Verified(c) => Some(c)
    case ExpiredJwt(c) => c
    case OtherFailure(_) => None
  }

  /* ---------------------------------------------------------------------------
   * Construction
   * ------------------------------------------------------------------------- */

  /** The constructor, given the already Base64-decoded secret. */
  function NewProvider(
    secretBytes: seq<bv8>,
    accessExpMs: Long,
    refreshExpMs: Long,
    emailExpMs: Long,
    clockSkewSeconds: Int32
  ): (r: Result<Provider, ConfigError>)
    ensures r.Failure? <==> |secretBytes| < MinSecretBytes
    ensures r.Failure? ==> r.error == WeakSecret(|secretBytes|)
    ensures r.Success? ==> ValidProvider(r.value)
    ensures r.Success? ==> r.value.key == secretBytes
    ensures r.Success? ==> r.value.clockSkewSeconds >= clockSkewSeconds
    ensures r.Success? ==> r.value.clockSkewSeconds in {clockSkewSeconds, 0}
    ensures r.Success? ==>
      && r.value.accessExpMs == accessExpMs
      && r.value.refreshExpMs == refreshExpMs
      && r.value.emailExpMs == emailExpMs
  {
    if |secretBytes| < MinSecretBytes then Failure(WeakSecret(|secretBytes|))
    else
      var skew: Int32 := if clockSkewSeconds > 0 then clockSkewSeconds else 0;
      Success(Provider(secretBytes, accessExpMs, refreshExpMs, emailExpMs, skew))
  }

  /* ---------------------------------------------------------------------------
   * Authorization header
   * ------------------------------------------------------------------------- */

  /** `removeBearer`: the token text after the prefix, trimmed. */
  function RemoveBearer(header: Option<string>): (r: Result<string, HeaderError>)
    ensures r.Failure? <==> header.None? || !StartsWith(header.value, BearerPrefix)
    ensures r.Success? ==> IsTrimmed(r.value)
    ensures r.Success? ==> |BearerPrefix| + |r.value| <= |header.value|
  {
    if header.None? || !StartsWith(header.value, BearerPrefix) then Failure(InvalidAuthorizationFormat)
    else Success(Trim(header.value[|BearerPrefix|..]))
  }

  /** Whatever trimmable padding surrounds the token after the prefix, stripping recovers
      exactly the token; with an empty token, `"Bearer "` alone yields `""`. */
  lemma BearerRoundTrip(lead: string, token: string, trail: string)
    requires AllTrimmable(lead) && AllTrimmable(trail) && IsTrimmed(token)
    ensures RemoveBearer(Some(BearerPrefix + lead + token + trail)) == Success(token)
  {
    var h := BearerPrefix + lead + token + trail;
    assert h[..|BearerPrefix|] == BearerPrefix;
    assert h[|BearerPrefix|..] == lead + token + trail;
    TrimPadded(lead, token, trail);
  }

  /** The header `"Bearer "` alone yields the empty token. */
  lemma BearerAloneIsEmptyToken()
    ensures RemoveBearer(Some("Bearer ")) == Success("")
  {
    BearerRoundTrip("", "", "");
    assert BearerPrefix + "" + "" + "" == "Bearer ";
  }

  /** The prefix is matched exactly: a missing header, a missing space, another case or
      another scheme are all rejected. */
  lemma BearerPrefixRequired()
    ensures RemoveBearer(None).Failure?
    ensures RemoveBearer(Some("Bearer")).Failure?
    ensures RemoveBearer(Some("bearer abc")).Failure?
    ensures RemoveBearer(Some("Basic abc")).Failure?
  {
    assert "bearer abc"[0] != BearerPrefix[0];
    assert "Basic abc"[1] != BearerPrefix[1];
  }

  /* ---------------------------------------------------------------------------
   * Expiry with clock skew
   * ------------------------------------------------------------------------- */

  /** `clockSkewSeconds * 1000L`; the product of an `int` and a `long` constant never wraps. */
  function SkewMillis(p: Provider): Long {
    p.clockSkewSeconds * MillisPerSecond
  }

  /** The skew test `now - exp <= skewMs` as Java evaluates it, in wrapping `long`
      arithmetic. */
  function WithinSkewAsWritten(now: Long, exp: Long, skewMs: Long): (accepted: bool)
    ensures MinLong <= now - exp <= MaxLong ==> (accepted <==> now - exp <= skewMs)
    ensures now - exp > MaxLong ==> (accepted <==> now - exp - LongModulus <= skewMs)
    ensures now - exp < MinLong ==> (accepted <==> now - exp + LongModulus <= skewMs)
  {
    WrapLong(now - exp) <= skewMs
  }

  /** The skew test as intended: the token expired at most `skewMs` milliseconds ago. */
  predicate WithinSkew(now: Long, exp: Long, skewMs: Long) {
    now - exp <= skewMs
  }

  /** A token that expired about 292 million years before `now` passes the as-written test,
      because `now - exp` overflows to a negative `long`. */
  lemma AncientExpiryPassesAsWritten()
    ensures WithinSkewAsWritten(1_700_000_000_000, -9_223_372_036_854_775_000, 1000)
    ensures !WithinSkew(1_700_000_000_000, -9_223_372_036_854_775_000, 1000)
  {
    assert WrapLong(1_700_000_000_000 - -9_223_372_036_854_775_000) == -9_223_370_336_854_776_616;
  }

  /** For timestamps on or after the epoch the two tests agree, so the correction changes
      nothing for any token the provider itself issues with a real clock. */
  lemma WithinSkewAgreesOnRealClocks(now: Long, exp: Long, skewMs: Long)
    requires 0 <= now && 0 <= exp
    ensures WithinSkewAsWritten(now, exp, skewMs) <==> WithinSkew(now, exp, skewMs)
  {
  }

  /** `parseClaimsInternal`: verified claims pass; an expired token is rescued only when
      leniency is asked for, the configured skew is positive, the exception carries claims
      with an expiration, and that expiration is at most the skew before `now`; every other
      failure propagates unchanged. */
  function ParseClaimsInternal(p: Provider, outcome: ParserOutcome, allowSkewOnExpiry: bool, now: Long)
    : (r: Result<Claims, TokenError>)
    ensures r.Success? ==> Payload(outcome) == Some(r.value)
    ensures outcome.Verified? ==> r.Success?
    ensures outcome.OtherFailure? ==> r == Failure(Rejected(outcome.kind))
    ensures outcome.ExpiredJwt? ==>
      (r.Success? <==>
        && allowSkewOnExpiry
        && p.clockSkewSeconds > 0
        && outcome.expiredClaims.Some?
        && outcome.expiredClaims.value.exp.Some?
        && now - outcome.expiredClaims.value.exp.value <= p.clockSkewSeconds * MillisPerSecond)
    ensures outcome.ExpiredJwt? && r.Failure? ==> r.error == Expired(outcome.expiredClaims)
  {
    match outcome
    case Verified(c) => Success(c)
    case OtherFailure(kind) => Failure(Rejected(kind))
    case ExpiredJwt(c) =>
      if allowSkewOnExpiry && p.clockSkewSeconds > 0 && c.Some? then
        var exp := c.value.exp;
        if exp.Some? && WithinSkew(now, exp.value, SkewMillis(p)) then Success(c.value)
        else Failure(Expired(c))
      else Failure(Expired(c))
  }

  /** With a skew of zero, or without leniency, every expired token is rejected. */
  lemma StrictWithoutSkew(p: Provider, claims: Option<Claims>, allowSkewOnExpiry: bool, now: Long)
    requires p.clockSkewSeconds == 0 || !allowSkewOnExpiry
    ensures ParseClaimsInternal(p, ExpiredJwt(claims), allowSkewOnExpiry, now) == Failure(Expired(claims))
  {
  }

  /** Leniency only widens with a larger skew and only narrows as the clock advances. */
  lemma LeniencyMonotone(p: Provider, q: Provider, outcome: ParserOutcome, now: Long, later: Long)
    requires p.clockSkewSeconds <= q.clockSkewSeconds && now <= later
    ensures ParseClaimsInternal(p, outcome, true, later).Success? ==>
      ParseClaimsInternal(q, outcome, true, now).Success?
  {
  }

  /** A five-second skew accepts a token expired three seconds ago and rejects one
      expired ten seconds ago. */
  lemma FiveSecondSkew(p: Provider, c: Claims, now: Long)
    requires p.clockSkewSeconds == 5
    requires c.exp.Some? && 0 <= c.exp.value <= MaxLong - 10_000
    ensures now == c.exp.value + 3_000 ==> ParseClaimsInternal(p, ExpiredJwt(Some(c)), true, now) == Success(c)
    ensures now == c.exp.value + 10_000 ==> ParseClaimsInternal(p, ExpiredJwt(Some(c)), true, now).Failure?
  {
  }

  /* ---------------------------------------------------------------------------
   * Validation and claim accessors
   * ------------------------------------------------------------------------- */

  /** `isValidToken`: never throws; true exactly for a verified token or an expired one
      the skew rescues. */
  function IsValidToken(p: Provider, outcome: ParserOutcome, now: Long): (valid: bool)
    ensures valid <==>
      || outcome.Verified?
      || (&& outcome.ExpiredJwt?
          && p.clockSkewSeconds > 0
          && outcome.expiredClaims.Some?
          && outcome.expiredClaims.value.exp.Some?
          && now - outcome.expiredClaims.value.exp.value <= p.clockSkewSeconds * MillisPerSecond)
    ensures outcome.OtherFailure? ==> !valid
  {
    ParseClaimsInternal(p, outcome, true, now).Success?
  }

  /** `getClaims`: the decoded claims of a valid token; otherwise the parse error. */
  function GetClaims(p: Provider, outcome: ParserOutcome, now: Long): (r: Result<Claims, TokenError>)
    ensures r.Success? <==> IsValidToken(p, outcome, now)
    ensures r.Success? ==> Payload(outcome) == Some(r.value)
    ensures outcome.OtherFailure? ==> r == Failure(Rejected(outcome.kind))
    ensures outcome.ExpiredJwt? && r.Failure? ==> r.error == Expired(outcome.expiredClaims)
  {
    ParseClaimsInternal(p, outcome, true, now)
  }

  /** `getUsernameFromJwt`: the subject of a valid token; throws otherwise. */
  function GetUsernameFromJwt(p: Provider, outcome: ParserOutcome, now: Long): (r: Result<Option<string>, TokenError>)
    ensures r.Success? <==> IsValidToken(p, outcome, now)
    ensures r.Success? ==> Payload(outcome).Some? && r.value == Payload(outcome).value.sub
  {
    match GetClaims(p, outcome, now)
    case Success(c) => Success(c.sub)
    case Failure(e) => Failure(e)
  }

  /** `getEmailFromJwt`: the `email` claim of a valid token; throws otherwise. */
  function GetEmailFromJwt(p: Provider, outcome: ParserOutcome, now: Long): (r: Result<Option<string>, TokenError>)
    ensures r.Success? <==> IsValidToken(p, outcome, now)
    ensures r.Success? ==> Payload(outcome).Some? && r.value == Payload(outcome).value.email
  {
    match GetClaims(p, outcome, now)
    case Success(c) => Success(c.email)
    case Failure(e) => Failure(e)
  }

  /** `getRemainingMillis`: `exp - now` in `long` arithmetic; a valid token without an
      expiration makes `getExpiration().getTime()` throw. */
  function GetRemainingMillis(p: Provider, outcome: ParserOutcome, now: Long): (r: Result<Long, TokenError>)
    ensures r.Success? ==> IsValidToken(p, outcome, now)
    ensures IsValidToken(p, outcome, now) ==> (r.Failure? <==> Payload(outcome).value.exp.None?)
    ensures r.Success? && MinLong <= Payload(outcome).value.exp.value - now <= MaxLong ==>
      r.value == Payload(outcome).value.exp.value - now
    ensures !IsValidToken(p, outcome, now) ==> r == Failure(ParseClaimsInternal(p, outcome, true, now).error)
  {
    match GetClaims(p, outcome, now)
    case Failure(e) => Failure(e)
    case Success(c) =>
      if c.exp.None? then Failure(NoExpiration) else Success(WrapLong(c.exp.value - now))
  }

  /** The library's strict expiry check: it reports expiry exactly when `now` is past
      `exp`, and an expired token carries its claims. */
  predicate StrictExpiryConsistent(outcome: ParserOutcome, now: Long) {
    match outcome
    case Verified(c) => c.exp.None? || now <= c.exp.value
    case ExpiredJwt(c) => c.Some? && c.value.exp.Some? && c.value.exp.value < now
    case OtherFailure(_) => true
  }

  /** With real (non-negative) timestamps, the remaining lifetime of an accepted token is
      never below minus the skew, and it is negative only for a token the skew rescued. */
  lemma RemainingMillisBounded(p: Provider, outcome: ParserOutcome, now: Long)
    requires ValidProvider(p)
    requires StrictExpiryConsistent(outcome, now)
    requires 0 <= now
    requires Payload(outcome).Some? && Payload(outcome).value.exp.Some? ==> 0 <= Payload(outcome).value.exp.value
    ensures GetRemainingMillis(p, outcome, now).Success? ==>
      && GetRemainingMillis(p, outcome, now).value >= -(p.clockSkewSeconds * MillisPerSecond)
      && (GetRemainingMillis(p, outcome, now).value < 0 ==> outcome.ExpiredJwt?)
  {
  }

  /* ---------------------------------------------------------------------------
   * Roles normalisation
   * ------------------------------------------------------------------------- */

  /** The non-null elements of a list claim, duplicates collapsed. */
  function NonNullElements(items: seq<Option<string>>): (roles: set<string>)
    ensures forall x :: x in roles <==> Some(x) in items
    ensures |roles| <= |items|
  {
    if |items| == 0 then {}
    else
      var rest := NonNullElements(items[1..]);
      assert items == [items[0]] + items[1..];
      match items[0]
      case None => rest
      case Some(x) => {x} + rest
  }

  /** The normalisation `getRolesFromJwt` applies to the raw `roles` claim. */
  function NormaliseRoles(claim: RolesClaim): (roles: set<string>)
    ensures claim.NoRoles? ==> roles == {}
    ensures claim.ScalarRole? ==> roles == {claim.text}
    ensures claim.RoleList? ==> forall x :: x in roles <==> Some(x) in claim.items
  {
    match claim
    case NoRoles => {}
    case RoleList(items) => NonNullElements(items)
    case ScalarRole(text) => {text}
  }

  /** `getRolesFromJwt`: the normalised roles of a valid token; throws otherwise. */
  function GetRolesFromJwt(p: Provider, outcome: ParserOutcome, now: Long): (r: Result<set<string>, TokenError>)
    ensures r.Success? <==> IsValidToken(p, outcome, now)
    ensures r.Success? ==> Payload(outcome).Some? && r.value == NormaliseRoles(Payload(outcome).value.roles)
  {
    match GetClaims(p, outcome, now)
    case Success(c) => Success(NormaliseRoles(c.roles))
    case Failure(e) => Failure(e)
  }

  /** A single role written as a scalar and as a one-element list (with or without
      duplicates and nulls) normalise to the same set. */
  lemma ScalarAndListAgree(role: string)
    ensures NormaliseRoles(ScalarRole(role)) == {role}
    ensures NormaliseRoles(RoleList([Some(role)])) == {role}
    ensures NormaliseRoles(RoleList([Some(role), None, Some(role)])) == {role}
  {
  }

  /* ---------------------------------------------------------------------------
   * Issuing tokens
   * ------------------------------------------------------------------------- */

  /** The roles list `buildToken` writes for a Java `Set<String>`, given as null or as its
      iteration order (a `HashSet` may hold one null element): empty for a null set,
      otherwise a copy of the set's elements, a null element included. */
  function RolesAsList(roles: Option<seq<Option<string>>>): (items: seq<Option<string>>)
    ensures roles.None? ==> items == []
    ensures roles.Some? ==>
      |items| == |roles.value| && forall i | 0 <= i < |items| :: items[i] == roles.value[i]
  {
    match roles
    case None => []
    case Some(xs) => xs
  }

  /** The non-null elements of a roles set; a null set has none. */
  function RoleSet(roles: Option<seq<Option<string>>>): set<string> {
    match roles
    case None => {}
    case Some(xs) => set o | o in xs && o.Some? :: o.value
  }

  /** Reading back, through the roles normalisation, the list `buildToken` writes yields
      exactly the non-null elements of the original set: a null element is lost. */
  lemma RolesAsListRoundTrip(roles: Option<seq<Option<string>>>)
    ensures NormaliseRoles(RoleList(RolesAsList(roles))) == RoleSet(roles)
    ensures forall x :: x in NormaliseRoles(RoleList(RolesAsList(roles))) <==>
      roles.Some? && Some(x) in roles.value
  {
    var got := NormaliseRoles(RoleList(RolesAsList(roles)));
    forall x ensures x in got <==> x in RoleSet(roles) {
      assert x in got <==> Some(x) in RolesAsList(roles);
    }
  }

  /** A set holding null and ADMIN comes back as just ADMIN. */
  lemma NullRoleLost()
    ensures NormaliseRoles(RoleList(RolesAsList(Some([None, Some("ADMIN")])))) == {"ADMIN"}
  {
    RolesAsListRoundTrip(Some([None, Some("ADMIN")]));
    assert Some("ADMIN") in [None, Some("ADMIN")];
  }

  /** The claims `buildToken` writes for a subject (null drops the claim), a roles set and a
      lifetime, issued at `now`: the subject, a roles list that reads back as the set's
      non-null elements, the issue time, no email, and an expiry `expMs` after issue
      whenever that sum is a `long`. */
  function BuildClaims(username: Option<string>, roles: Option<seq<Option<string>>>, expMs: Long, now: Long): (c: Claims)
    ensures c.sub == username && c.email.None? && c.iat == Some(now)
    ensures c.roles.RoleList? && NormaliseRoles(c.roles) == RoleSet(roles)
    ensures c.exp.Some? && (MinLong <= now + expMs <= MaxLong ==> c.exp.value - now == expMs)
  {
    RolesAsListRoundTrip(roles);
    Claims(username, RoleList(RolesAsList(roles)), Some(now), Some(WrapLong(now + expMs)), None)
  }

  /** A token the library verifies with the claims `buildToken` wrote reads back as its
      subject and the non-null elements of its role set. */
  lemma IssuedTokenRoundTrip(p: Provider, username: Option<string>, roles: Option<seq<Option<string>>>, expMs: Long, issuedAt: Long, now: Long)
    ensures var outcome := Verified(BuildClaims(username, roles, expMs, issuedAt));
      && GetUsernameFromJwt(p, outcome, now) == Success(username)
      && GetRolesFromJwt(p, outcome, now) == Success(RoleSet(roles))
  {
  }

  /** An issued token that the library reports expired is still accepted exactly while
      `now` is within the skew of its nominal end of life. */
  lemma IssuedTokenSkewWindow(p: Provider, username: Option<string>, roles: Option<seq<Option<string>>>, expMs: Long, issuedAt: Long, now: Long)
    requires p.clockSkewSeconds > 0
    requires MinLong <= issuedAt + expMs <= MaxLong
    ensures var outcome := ExpiredJwt(Some(BuildClaims(username, roles, expMs, issuedAt)));
      IsValidToken(p, outcome, now) <==> now <= issuedAt + expMs + p.clockSkewSeconds * MillisPerSecond
  {
  }

  /** `generateAccessToken`: the subject and roles, living for the access lifetime. */
  function GenerateAccessToken(p: Provider, username: Option<string>, roles: Option<seq<Option<string>>>, now: Long): (c: Claims)
    ensures c.sub == username && c.email.None? && c.iat == Some(now)
    ensures NormaliseRoles(c.roles) == RoleSet(roles)
    ensures c.exp.Some? && (MinLong <= now + p.accessExpMs <= MaxLong ==> c.exp.value == now + p.accessExpMs)
  {
    BuildClaims(username, roles, p.accessExpMs, now)
  }

  /** `generateRefreshToken`: the subject and roles, living for the refresh lifetime. */
  function GenerateRefreshToken(p: Provider, username: Option<string>, roles: Option<seq<Option<string>>>, now: Long): (c: Claims)
    ensures c.sub == username && c.email.None? && c.iat == Some(now)
    ensures NormaliseRoles(c.roles) == RoleSet(roles)
    ensures c.exp.Some? && (MinLong <= now + p.refreshExpMs <= MaxLong ==> c.exp.value == now + p.refreshExpMs)
  {
    BuildClaims(username, roles, p.refreshExpMs, now)
  }

  /** `generateEmailJwtToken`: only the email (a null email leaves the claim out), issue
      time and expiry; no subject, no roles. */
  function GenerateEmailToken(p: Provider, email: Option<string>, now: Long): (c: Claims)
    ensures c.email == email && c.sub.None? && c.iat == Some(now)
    ensures NormaliseRoles(c.roles) == {}
    ensures c.exp.Some? && (MinLong <= now + p.emailExpMs <= MaxLong ==> c.exp.value == now + p.emailExpMs)
  {
    Claims(None, NoRoles, Some(now), Some(WrapLong(now + p.emailExpMs)), email)
  }

  /** Access and refresh tokens differ only in their expiry; each lives for its configured
      lifetime. */
  lemma AccessAndRefreshDifferOnlyInExpiry(p: Provider, username: Option<string>, roles: Option<seq<Option<string>>>, now: Long)
    requires MinLong <= now + p.accessExpMs <= MaxLong && MinLong <= now + p.refreshExpMs <= MaxLong
    ensures var a := GenerateAccessToken(p, username, roles, now);
      var r := GenerateRefreshToken(p, username, roles, now);
      && a.(exp := r.exp) == r
      && a.exp == Some(now + p.accessExpMs)
      && r.exp == Some(now + p.refreshExpMs)
  {
  }

  /** An email-verification token, once accepted, grants no roles and names no subject. */
  lemma EmailTokenGrantsNothing(p: Provider, email: Option<string>, issuedAt: Long, now: Long)
    ensures var outcome := Verified(GenerateEmailToken(p, email, issuedAt));
      && GetRolesFromJwt(p, outcome, now) == Success({})
      && GetUsernameFromJwt(p, outcome, now) == Success(None)
      && GetEmailFromJwt(p, outcome, now) == Success(email)
  {
  }
}
