/** The request-authorization policy of `WebSecurityConfig.securityFilterChain`, as a
    first-match-wins rule table, and the CSV helper `splitToList` behind its CORS lists. */
module WebSecurityConfig {
  import opened Wrappers
  import opened JavaStrings

  /* ---------------------------------------------------------------------------
   * Data model
   * ------------------------------------------------------------------------- */

  datatype HttpMethod = GET | HEAD | POST | PUT | PATCH | DELETE | OPTIONS | TRACE

  /** An authenticated caller; anonymous callers are `None`. Roles are the plain names
      (`"ADMIN"`), without the `ROLE_` prefix the framework adds. */
  datatype Principal = Principal(username: string, roles: set<string>)

  datatype Decision = Permit | DenyUnauthenticated | DenyForbidden

  /** `AnyPath` is the catch-all pattern; `Under(b)` is the pattern `b` followed by the
      multi-segment wildcard, matching `b` itself and every path below it, segment by segment. */
  datatype PathPattern = AnyPath | Under(base: string)

  /** `permitAll()`, `authenticated()`, or `hasRole`/`hasAnyRole`. */
  datatype Requirement = PermitAll | Authenticated | AnyRole(roles: set<string>)

  /** One `requestMatchers(...)` entry; `None` for the verb matches every HTTP method. */
  datatype Rule = Rule(verb: Option<HttpMethod>, pattern: PathPattern, requirement: Requirement)

  const H2Console: string := "/h2-console"
  const AuthApi: string := "/api/v1/auth"
  const NoticesApi: string := "/api/v1/notices"
  const UsersMeApi: string := "/api/v1/users/me"
  const BoardsApi: string := "/api/v1/boards"
  const AdminApi: string := "/api/v1/admin"

  const ReadRoles: set<string> := {"USER", "MANAGER", "ADMIN"}
  const WriteRoles: set<string> := {"MANAGER", "ADMIN"}
  const DeleteRoles: set<string> := {"ADMIN"}
  const AdminRoles: set<string> := {"ADMIN"}

  /* ---------------------------------------------------------------------------
   * Matching
   * ------------------------------------------------------------------------- */

  /** `path` is `base` or lies below it. */
  predicate IsUnder(path: string, base: string) {
    path == base || StartsWith(path, base + "/")
  }

  predicate PathMatches(pattern: PathPattern, path: string) {
    match pattern
    case AnyPath => true
    case Under(base) => IsUnder(path, base)
  }

  predicate RuleMatches(rule: Rule, verb: HttpMethod, path: string) {
    (rule.verb.None? || rule.verb.value == verb) && PathMatches(rule.pattern, path)
  }

  /** Index of the first rule matching the request, or `|rules|` when none does. */
  function FirstMatch(rules: seq<Rule>, verb: HttpMethod, path: string): (i: nat)
    ensures i <= |rules|
    ensures forall j | 0 <= j < i :: !RuleMatches(rules[j], verb, path)
    ensures i < |rules| ==> RuleMatches(rules[i], verb, path)
    ensures |rules| > 0 && rules[|rules| - 1].verb.None? && rules[|rules| - 1].pattern.AnyPath? ==> i < |rules|
  {
    if |rules| == 0 then 0
    else if RuleMatches(rules[0], verb, path) then 0
    else
      var i := FirstMatch(rules[1..], verb, path);
      assert forall j | 1 <= j < i + 1 :: rules[j] == rules[1..][j - 1];
      i + 1
  }

  /** `FirstMatch` on a table with one more rule in front. */
  lemma FirstMatchPrepend(rule: Rule, rules: seq<Rule>, verb: HttpMethod, path: string)
    ensures FirstMatch([rule] + rules, verb, path) ==
      if RuleMatches(rule, verb, path) then 0 else 1 + FirstMatch(rules, verb, path)
  {
    assert ([rule] + rules)[1..] == rules;
  }

  /** The h2-console rule, registered first and only when the console is enabled. */
  const H2ConsoleRule: Rule := Rule(None, Under(H2Console), PermitAll)

  /** The rules registered unconditionally, in declaration order; the last is `anyRequest()`. */
  const BaseRules: seq<Rule> := [
    Rule(Some(OPTIONS), AnyPath, PermitAll),
    Rule(None, Under(AuthApi), PermitAll),
    Rule(None, Under(NoticesApi), PermitAll),
    Rule(None, Under(UsersMeApi), Authenticated),
    Rule(Some(GET), Under(BoardsApi), AnyRole(ReadRoles)),
    Rule(Some(POST), Under(BoardsApi), AnyRole(WriteRoles)),
    Rule(Some(PUT), Under(BoardsApi), AnyRole(WriteRoles)),
    Rule(Some(DELETE), Under(BoardsApi), AnyRole(DeleteRoles)),
    Rule(None, Under(AdminApi), AnyRole(AdminRoles)),
    Rule(None, AnyPath, Authenticated)
  ]

  /** The rule table in declaration order; it always ends with the catch-all rule. */
  function Rules(h2Enabled: bool): (rules: seq<Rule>)
    ensures |rules| > 0 && rules[|rules| - 1] == Rule(None, AnyPath, Authenticated)
  {
    (if h2Enabled then [H2ConsoleRule] else []) + BaseRules
  }

  /** How a requirement decides a caller. A denied anonymous caller is sent to the
      authentication entry point (401); a denied authenticated one to the access-denied
      handler (403). */
  function Decide(requirement: Requirement, principal: Option<Principal>): (d: Decision)
    ensures d == DenyForbidden ==> principal.Some?
    ensures d == DenyUnauthenticated ==> principal.None?
  {
    match requirement
    case PermitAll => Permit
    case Authenticated => if principal.Some? then Permit else DenyUnauthenticated
    case AnyRole(roles) =>
      if principal.None? then DenyUnauthenticated
      else if roles * principal.value.roles != {} then Permit
      else DenyForbidden
  }

  /** The filter chain's decision for a request: the first matching rule decides. */
  function Authorize(verb: HttpMethod, path: string, principal: Option<Principal>, h2Enabled: bool): (d: Decision)
    ensures d == DenyForbidden ==> principal.Some?
    ensures d == DenyUnauthenticated ==> principal.None?
  {
    var rules := Rules(h2Enabled);
    var i := FirstMatch(rules, verb, path);
    Decide(rules[i].requirement, principal)
  }

  /* ---------------------------------------------------------------------------
   * Reference policy
   * ------------------------------------------------------------------------- */

  /** The roles a board route demands of each listed verb. */
  function BoardRoles(verb: HttpMethod): Option<set<string>> {
    match verb
    case GET => Some(ReadRoles)
    case POST => Some(WriteRoles)
    case PUT => Some(WriteRoles)
    case DELETE => Some(DeleteRoles)
    case _ => None
  }

  /** The policy by priority: pre-flight, public prefixes, self-service routes, board
      routes by method, admin routes, and the default. */
  function BasePolicy(verb: HttpMethod, path: string): Requirement {
    if verb == OPTIONS then PermitAll
    else if IsUnder(path, AuthApi) || IsUnder(path, NoticesApi) then PermitAll
    else if IsUnder(path, UsersMeApi) then Authenticated
    else if IsUnder(path, BoardsApi) && BoardRoles(verb).Some? then AnyRole(BoardRoles(verb).value)
    else if IsUnder(path, AdminApi) then AnyRole(AdminRoles)
    else Authenticated
  }

  /** The whole policy: the h2 console, when enabled, ahead of everything else. */
  function Policy(verb: HttpMethod, path: string, h2Enabled: bool): Requirement {
    if h2Enabled && IsUnder(path, H2Console) then PermitAll else BasePolicy(verb, path)
  }

  /** What each rule of the unconditional table tests. */
  lemma BaseRulesMatch(verb: HttpMethod, path: string)
    ensures |BaseRules| == 10
    ensures RuleMatches(BaseRules[0], verb, path) == (verb == OPTIONS)
    ensures RuleMatches(BaseRules[1], verb, path) == IsUnder(path, AuthApi)
    ensures RuleMatches(BaseRules[2], verb, path) == IsUnder(path, NoticesApi)
    ensures RuleMatches(BaseRules[3], verb, path) == IsUnder(path, UsersMeApi)
    ensures RuleMatches(BaseRules[4], verb, path) == (verb == GET && IsUnder(path, BoardsApi))
    ensures RuleMatches(BaseRules[5], verb, path) == (verb == POST && IsUnder(path, BoardsApi))
    ensures RuleMatches(BaseRules[6], verb, path) == (verb == PUT && IsUnder(path, BoardsApi))
    ensures RuleMatches(BaseRules[7], verb, path) == (verb == DELETE && IsUnder(path, BoardsApi))
    ensures RuleMatches(BaseRules[8], verb, path) == IsUnder(path, AdminApi)
    ensures RuleMatches(BaseRules[9], verb, path)
  {
  }

  /** The unconditional table, searched first-match, yields the priority policy. */
  lemma BaseTableFollowsPolicy(verb: HttpMethod, path: string)
    ensures FirstMatch(BaseRules, verb, path) < |BaseRules|
    ensures BaseRules[FirstMatch(BaseRules, verb, path)].requirement == BasePolicy(verb, path)
  {
    var rs := BaseRules;
    var i := FirstMatch(rs, verb, path);
    BaseRulesMatch(verb, path);
    var auth, notices, me, boards, admin :=
      IsUnder(path, AuthApi), IsUnder(path, NoticesApi), IsUnder(path, UsersMeApi),
      IsUnder(path, BoardsApi), IsUnder(path, AdminApi);
    if i == 0 {
      assert verb == OPTIONS;
    } else if i == 1 {
      assert verb != OPTIONS && auth;
    } else if i == 2 {
      assert verb != OPTIONS && !auth && notices;
    } else if i == 3 {
      assert verb != OPTIONS && !auth && !notices && me;
    } else if i < 8 {
      assert verb != OPTIONS && !auth && !notices && !me && boards;
      assert BoardRoles(verb) == Some(rs[i].requirement.roles);
    } else if i == 8 {
      assert verb != OPTIONS && !auth && !notices && !me && admin;
      assert !boards || BoardRoles(verb).None?;
    } else {
      assert i == 9;
      assert !RuleMatches(rs[4], verb, path) && !RuleMatches(rs[5], verb, path);
      assert !RuleMatches(rs[6], verb, path) && !RuleMatches(rs[7], verb, path);
      assert !boards || BoardRoles(verb).None?;
    }
  }

  /** The first-match rule table decides every request as the priority policy does. */
  lemma AuthorizeFollowsPolicy(verb: HttpMethod, path: string, principal: Option<Principal>, h2Enabled: bool)
    ensures Authorize(verb, path, principal, h2Enabled) == Decide(Policy(verb, path, h2Enabled), principal)
  {
    BaseTableFollowsPolicy(verb, path);
    if h2Enabled {
      FirstMatchPrepend(H2ConsoleRule, BaseRules, verb, path);
      assert Rules(true) == [H2ConsoleRule] + BaseRules;
    } else {
      assert Rules(false) == BaseRules;
    }
  }

  /* ---------------------------------------------------------------------------
   * Properties of the policy
   * ------------------------------------------------------------------------- */

  /** Callers allowed without authentication: the h2 console when enabled, every
      pre-flight request, and the auth and notices APIs. */
  predicate IsPublic(verb: HttpMethod, path: string, h2Enabled: bool) {
    || (h2Enabled && IsUnder(path, H2Console))
    || verb == OPTIONS
    || IsUnder(path, AuthApi)
    || IsUnder(path, NoticesApi)
  }

  /** Anonymous callers are permitted exactly on public routes and are otherwise denied as
      unauthenticated, never as forbidden. */
  lemma AnonymousAccess(verb: HttpMethod, path: string, h2Enabled: bool)
    ensures Authorize(verb, path, None, h2Enabled) == Permit <==> IsPublic(verb, path, h2Enabled)
    ensures !IsPublic(verb, path, h2Enabled) ==> Authorize(verb, path, None, h2Enabled) == DenyUnauthenticated
  {
    AuthorizeFollowsPolicy(verb, path, None, h2Enabled);
  }

  /** Public routes are permitted for every caller. */
  lemma PublicRoutesPermitted(verb: HttpMethod, path: string, principal: Option<Principal>, h2Enabled: bool)
    requires IsPublic(verb, path, h2Enabled)
    ensures Authorize(verb, path, principal, h2Enabled) == Permit
  {
    AuthorizeFollowsPolicy(verb, path, principal, h2Enabled);
  }

  /** Granting more roles, or authenticating at all, never turns a permit into a denial. */
  lemma MorePrivilegeNeverHurts(verb: HttpMethod, path: string, p: Principal, q: Principal, h2Enabled: bool)
    requires p.roles <= q.roles
    ensures Authorize(verb, path, None, h2Enabled) == Permit ==> Authorize(verb, path, Some(p), h2Enabled) == Permit
    ensures Authorize(verb, path, Some(p), h2Enabled) == Permit ==> Authorize(verb, path, Some(q), h2Enabled) == Permit
  {
    AuthorizeFollowsPolicy(verb, path, None, h2Enabled);
    AuthorizeFollowsPolicy(verb, path, Some(p), h2Enabled);
    AuthorizeFollowsPolicy(verb, path, Some(q), h2Enabled);
  }

  /** Every path under `base` agrees with `base` on `base`'s characters. */
  lemma UnderAgrees(path: string, base: string, k: nat)
    requires IsUnder(path, base) && k < |base|
    ensures k < |path| && path[k] == base[k]
  {
    if path != base {
      assert path[..|base| + 1][k] == (base + "/")[k];
    }
  }

  /** The prefixes of the table's distinct routes are disjoint: no path lies under two. */
  lemma RoutesDisjoint(path: string)
    ensures IsUnder(path, BoardsApi) ==>
      !IsUnder(path, H2Console) && !IsUnder(path, AuthApi) && !IsUnder(path, NoticesApi)
      && !IsUnder(path, UsersMeApi) && !IsUnder(path, AdminApi)
    ensures IsUnder(path, UsersMeApi) ==>
      !IsUnder(path, H2Console) && !IsUnder(path, AuthApi) && !IsUnder(path, NoticesApi)
    ensures IsUnder(path, AuthApi) ==> !IsUnder(path, H2Console) && !IsUnder(path, NoticesApi)
    ensures IsUnder(path, H2Console) ==> !IsUnder(path, NoticesApi)
    ensures IsUnder(path, AdminApi) ==>
      !IsUnder(path, H2Console) && !IsUnder(path, AuthApi) && !IsUnder(path, NoticesApi)
      && !IsUnder(path, UsersMeApi)
  {
    if IsUnder(path, H2Console) { UnderAgrees(path, H2Console, 1); }
    if IsUnder(path, AuthApi) { UnderAgrees(path, AuthApi, 8); UnderAgrees(path, AuthApi, 1); }
    if IsUnder(path, NoticesApi) { UnderAgrees(path, NoticesApi, 8); UnderAgrees(path, NoticesApi, 1); }
    if IsUnder(path, UsersMeApi) { UnderAgrees(path, UsersMeApi, 8); }
    if IsUnder(path, BoardsApi) { UnderAgrees(path, BoardsApi, 8); UnderAgrees(path, BoardsApi, 1); }
    if IsUnder(path, AdminApi) { UnderAgrees(path, AdminApi, 8); UnderAgrees(path, AdminApi, 9); }
  }

  /** Self-service routes admit every authenticated caller, whatever its roles, and no
      anonymous one (pre-flight aside). */
  lemma UsersMeNeedsOnlyAuthentication(verb: HttpMethod, path: string, principal: Option<Principal>, h2Enabled: bool)
    requires IsUnder(path, UsersMeApi) && verb != OPTIONS
    ensures Authorize(verb, path, principal, h2Enabled) == Permit <==> principal.Some?
  {
    RoutesDisjoint(path);
    AuthorizeFollowsPolicy(verb, path, principal, h2Enabled);
  }

  /** Board routes: a caller is permitted exactly when it holds one of the roles the verb
      demands; an unlisted verb such as PATCH only needs authentication. */
  lemma BoardAccess(verb: HttpMethod, path: string, principal: Option<Principal>, h2Enabled: bool)
    requires IsUnder(path, BoardsApi) && verb != OPTIONS
    ensures BoardRoles(verb).Some? ==>
      (Authorize(verb, path, principal, h2Enabled) == Permit <==>
        principal.Some? && BoardRoles(verb).value * principal.value.roles != {})
    ensures BoardRoles(verb).None? ==>
      (Authorize(verb, path, principal, h2Enabled) == Permit <==> principal.Some?)
  {
    RoutesDisjoint(path);
    AuthorizeFollowsPolicy(verb, path, principal, h2Enabled);
  }

  /** The board privilege ladder: whoever may DELETE may PUT and POST, and whoever may PUT
      or POST may GET. */
  lemma BoardLadder(path: string, principal: Option<Principal>, h2Enabled: bool)
    requires IsUnder(path, BoardsApi)
    ensures Authorize(DELETE, path, principal, h2Enabled) == Permit ==>
      Authorize(PUT, path, principal, h2Enabled) == Permit && Authorize(POST, path, principal, h2Enabled) == Permit
    ensures Authorize(PUT, path, principal, h2Enabled) == Permit ==> Authorize(GET, path, principal, h2Enabled) == Permit
    ensures Authorize(POST, path, principal, h2Enabled) == Permit ==> Authorize(GET, path, principal, h2Enabled) == Permit
  {
    BoardAccess(DELETE, path, principal, h2Enabled);
    BoardAccess(PUT, path, principal, h2Enabled);
    BoardAccess(POST, path, principal, h2Enabled);
    BoardAccess(GET, path, principal, h2Enabled);
  }

  lemma SingletonMeets(x: string, roles: set<string>)
    ensures {x} * roles != {} <==> x in roles
  {
    if x in roles { assert x in {x} * roles; }
  }

  /** Admin routes admit only callers holding ADMIN. */
  lemma AdminOnly(verb: HttpMethod, path: string, principal: Option<Principal>, h2Enabled: bool)
    requires IsUnder(path, AdminApi) && verb != OPTIONS
    ensures Authorize(verb, path, principal, h2Enabled) == Permit <==>
      principal.Some? && "ADMIN" in principal.value.roles
    ensures principal.Some? && "ADMIN" !in principal.value.roles ==>
      Authorize(verb, path, principal, h2Enabled) == DenyForbidden
  {
    RoutesDisjoint(path);
    AuthorizeFollowsPolicy(verb, path, principal, h2Enabled);
    if principal.Some? {
      SingletonMeets("ADMIN", principal.value.roles);
    }
  }

  /** The h2-console flag changes decisions only on h2-console paths; when disabled those
      paths get the default (authentication only), pre-flight aside. */
  lemma H2FlagOnlyAffectsConsole(verb: HttpMethod, path: string, principal: Option<Principal>)
    ensures !IsUnder(path, H2Console) ==>
      Authorize(verb, path, principal, true) == Authorize(verb, path, principal, false)
    ensures IsUnder(path, H2Console) ==>
      && Authorize(verb, path, principal, true) == Permit
      && Authorize(verb, path, principal, false) ==
           (if verb == OPTIONS || principal.Some? then Permit else DenyUnauthenticated)
  {
    RoutesDisjoint(path);
    AuthorizeFollowsPolicy(verb, path, principal, true);
    AuthorizeFollowsPolicy(verb, path, principal, false);
    if IsUnder(path, H2Console) {
      UnderAgrees(path, H2Console, 1);
    }
  }

  /** A manager may not delete a board post; an administrator may. */
  lemma DeleteBoardExample(h2Enabled: bool)
    ensures Authorize(DELETE, "/api/v1/boards/5", Some(Principal("m", {"MANAGER"})), h2Enabled) == DenyForbidden
    ensures Authorize(DELETE, "/api/v1/boards/5", Some(Principal("a", {"ADMIN"})), h2Enabled) == Permit
  {
    var path := "/api/v1/boards/5";
    assert path[..|BoardsApi| + 1] == BoardsApi + "/";
    RoutesDisjoint(path);
    assert Policy(DELETE, path, h2Enabled) == AnyRole({"ADMIN"});
    AuthorizeFollowsPolicy(DELETE, path, Some(Principal("m", {"MANAGER"})), h2Enabled);
    AuthorizeFollowsPolicy(DELETE, path, Some(Principal("a", {"ADMIN"})), h2Enabled);
    SingletonMeets("ADMIN", {"MANAGER"});
    SingletonMeets("ADMIN", {"ADMIN"});
  }

  /** Logging in needs no authentication. */
  lemma LoginExample(h2Enabled: bool)
    ensures Authorize(GET, "/api/v1/auth/login", None, h2Enabled) == Permit
  {
    var path := "/api/v1/auth/login";
    assert path[..|AuthApi| + 1] == AuthApi + "/";
    PublicRoutesPermitted(GET, path, None, h2Enabled);
  }

  /* ---------------------------------------------------------------------------
   * splitToList
   * ------------------------------------------------------------------------- */

  lemma TrimKeepsOut(s: string, c: char)
    requires c !in s
    ensures c !in Trim(s)
  {
  }

  /** Each piece trimmed, blank results dropped, order kept. */
  function TrimAndDropBlank(pieces: seq<string>): (r: seq<string>)
    ensures |r| <= |pieces|
    ensures forall i | 0 <= i < |r| :: IsTrimmed(r[i]) && !IsBlank(r[i])
    ensures forall c :: FreeOf(pieces, c) ==> FreeOf(r, c)
  {
    if |pieces| == 0 then []
    else
      var t := Trim(pieces[0]);
      var rest := TrimAndDropBlank(pieces[1..]);
      assert forall c :: FreeOf(pieces, c) ==> FreeOf(pieces[1..], c);
      assert forall c :: FreeOf(pieces, c) ==> c !in t by {
        forall c | FreeOf(pieces, c) ensures c !in t {
          TrimKeepsOut(pieces[0], c);
        }
      }
      if IsBlank(t) then rest else [t] + rest
  }

  /** On a single piece: its trim, unless that trim is blank. With `TrimAndDropBlankAppend`
      this fixes the function on every list. */
  lemma TrimAndDropBlankOne(piece: string)
    ensures TrimAndDropBlank([piece]) == if IsBlank(Trim(piece)) then [] else [Trim(piece)]
  {
    assert [piece][1..] == [];
  }

  /** `splitToList`: the comma-separated pieces of `csv`, trimmed, blanks dropped. */
  function SplitToList(csv: string): (r: seq<string>)
    ensures forall i | 0 <= i < |r| :: IsTrimmed(r[i]) && !IsBlank(r[i]) && ',' !in r[i]
  {
    TrimAndDropBlank(JavaSplit(csv, ','))
  }

  lemma {:induction false} TrimAndDropBlankAppend(a: seq<string>, b: seq<string>)
    ensures TrimAndDropBlank(a + b) == TrimAndDropBlank(a) + TrimAndDropBlank(b)
  {
    if |a| > 0 {
      assert (a + b)[1..] == a[1..] + b;
      TrimAndDropBlankAppend(a[1..], b);
    } else {
      assert a + b == b;
    }
  }

  /** Pieces that are already trimmed and not blank pass through unchanged. */
  lemma {:induction false} TrimAndDropBlankKeepsClean(pieces: seq<string>)
    requires forall i | 0 <= i < |pieces| :: IsTrimmed(pieces[i]) && !IsBlank(pieces[i])
    ensures TrimAndDropBlank(pieces) == pieces
  {
    if |pieces| > 0 {
      var rest := pieces[1..];
      assert forall i | 0 <= i < |rest| :: rest[i] == pieces[i + 1];
      TrimAndDropBlankKeepsClean(rest);
      assert Trim(pieces[0]) == pieces[0];
      assert pieces == [pieces[0]] + rest;
    }
  }

  /** Java's removal of trailing empty pieces, and its special case for the empty string,
      change nothing once blanks are dropped: the result is exactly the trimmed, non-blank
      pieces between commas, in order. */
  lemma {:induction false} SplitToListIsPieces(csv: string)
    ensures SplitToList(csv) == TrimAndDropBlank(SplitOn(csv, ','))
  {
    var all := SplitOn(csv, ',');
    if |csv| == 0 {
      assert JavaSplit(csv, ',') == all;
    } else {
      var kept := DropTrailingEmpty(all);
      assert JavaSplit(csv, ',') == kept;
      var dropped := all[|kept|..];
      assert all == kept + dropped;
      forall j | 0 <= j < |dropped| ensures dropped[j] == "" {
        assert dropped[j] == all[|kept| + j];
      }
      EmptiesVanish(dropped);
      TrimAndDropBlankAppend(kept, dropped);
      assert TrimAndDropBlank(kept) + [] == TrimAndDropBlank(kept);
    }
  }

  lemma {:induction false} EmptiesVanish(pieces: seq<string>)
    requires forall i | 0 <= i < |pieces| :: pieces[i] == ""
    ensures TrimAndDropBlank(pieces) == []
  {
    if |pieces| > 0 {
      EmptiesVanish(pieces[1..]);
    }
  }

  /** Joining clean, comma-free values with commas and splitting again gives them back. */
  lemma SplitToListJoin(values: seq<string>)
    requires forall i | 0 <= i < |values| :: IsTrimmed(values[i]) && !IsBlank(values[i]) && ',' !in values[i]
    ensures SplitToList(Join(values, ',')) == values
  {
    SplitToListIsPieces(Join(values, ','));
    if |values| == 0 {
    } else {
      SplitJoin(values, ',');
      TrimAndDropBlankKeepsClean(values);
    }
  }
}
