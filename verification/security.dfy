/** The security-definition generators: OAuth2 (Passport) and JWT, chosen by
    `SecurityDefinitionsFactory`. Each produces the document-level
    `securityDefinitions` and a per-route security requirement. The router's
    middleware alias map, its route list and Passport's scopes are inputs. */
module Security {

  import opened Wrappers
  import opened Errors
  import opened Strings
  import opened OrderedMap
  import opened Route
  import MW = Middleware

  /** The OAuth2 flows Swagger 2.0 names. */
  const OAuthFlows: set<string> := {"password", "application", "implicit", "accessCode"}
  /** The flows whose scheme has an `authorizationUrl`. */
  const AuthorizationFlows: set<string> := {"implicit", "accessCode"}
  /** The flows whose scheme has a `tokenUrl`. */
  const TokenFlows: set<string> := {"password", "application", "accessCode"}

  const OAuthSchemeName: string := "OAuth2"
  const BearerSchemeName: string := "Bearer"
  const OAuthTokenPath: string := "/oauth/token"
  const OAuthAuthorizePath: string := "/oauth/authorize"

  /** The Passport middleware classes that check scopes. */
  const ScopeMiddlewareClasses: set<string> := {
    "Laravel\\Passport\\Http\\Middleware\\CheckScopes",
    "Laravel\\Passport\\Http\\Middleware\\CheckForAnyScope"
  }

  /** One entry of `securityDefinitions`. `scopes` is Passport's scope id to
      description table. */
  datatype Scheme =
    | OAuth2(flow: string, authorizationUrl: Option<string>, tokenUrl: Option<string>, scopes: OMap<string, string>)
    | ApiKey(name: string, location: string)

  /** A security requirement object: scheme name to required scopes. */
  type Requirement = OMap<string, seq<string>>

  /** A constructed generator. */
  datatype SecurityGenerator = OAuthGenerator(flow: string) | JwtGenerator

  /** The OAuth generator's constructor (`setAuthFlow`): only the four flows. */
  function NewOAuthGenerator(flow: string): (g: Result<SecurityGenerator, Exception>)
    ensures g.Success? <==> flow in OAuthFlows
    ensures g.Success? ==> g.value == OAuthGenerator(flow)
    ensures g.Failure? ==> g.error == LaravelSwaggerException("Invalid OAuth flow passed")
  {
    if flow in OAuthFlows then Success(OAuthGenerator(flow))
    else Failure(LaravelSwaggerException("Invalid OAuth flow passed"))
  }

  /** `SecurityDefinitionsFactory::createGenerator`: `oauth2` builds the OAuth
      generator for the flow, `jwt` the JWT generator whatever the flow, any
      other type is refused. */
  function CreateGenerator(securityType: string, authFlow: string): (g: Result<SecurityGenerator, Exception>)
    ensures securityType == "oauth2" ==> g == NewOAuthGenerator(authFlow)
    ensures securityType == "jwt" ==> g == Success(JwtGenerator)
    ensures securityType !in {"oauth2", "jwt"} ==> g == Failure(InvalidArgumentException("Invalid security type"))
  {
    if securityType == "oauth2" then NewOAuthGenerator(authFlow)
    else if securityType == "jwt" then Success(JwtGenerator)
    else Failure(InvalidArgumentException("Invalid security type"))
  }

  /** Every generator the factory builds is one of the two kinds with a valid
      flow, and an invalid flow only matters for `oauth2`. */
  lemma CreateGeneratorValid(securityType: string, authFlow: string)
    ensures var g := CreateGenerator(securityType, authFlow);
            && (g.Success? ==> (g.value.OAuthGenerator? ==> g.value.flow in OAuthFlows && securityType == "oauth2")
                               && (g.value.JwtGenerator? ==> securityType == "jwt"))
            && (g.Failure? <==> securityType !in {"oauth2", "jwt"} || (securityType == "oauth2" && authFlow !in OAuthFlows))
  {
  }

  /** `preg_replace('/^https?:\/\//', '', s)`: one leading `http://` or
      `https://` removed. */
  function StripScheme(s: string): (r: string)
    ensures |r| <= |s| && r == s[|s| - |r|..]
    ensures s[..|s| - |r|] in {"", "http://", "https://"}
    ensures s[..|s| - |r|] == "" <==> !("http://" <= s) && !("https://" <= s)
  {
    if "https://" <= s then
      assert s[..8] == "https://" && s[4] != "http://"[4];
      s[8..]
    else if "http://" <= s then
      assert s[..7] == "http://";
      s[7..]
    else s
  }

  /** `getEndpoint`: the host without trailing slashes and without its scheme,
      followed by the path. */
  function Endpoint(host: string, path: string): (e: string)
    ensures |e| >= |path| && e[|e| - |path|..] == path
  {
    StripScheme(TrimRight(host, {'/'})) + path
  }

  /** What precedes the path is the configured host with any trailing `/`
      and then one leading `http://` or `https://` removed. */
  lemma EndpointBase(host: string, path: string)
    ensures var e := Endpoint(host, path);
            var base := e[..|e| - |path|];
            && (|base| == 0 || base[|base| - 1] != '/')
            && exists scheme :: scheme in {"", "http://", "https://"} && TrimRight(host, {'/'}) == scheme + base
  {
    var trimmed := TrimRight(host, {'/'});
    var base := StripScheme(trimmed);
    assert trimmed == trimmed[..|trimmed| - |base|] + base;
    assert Endpoint(host, path)[..|Endpoint(host, path)| - |path|] == base;
  }

  /** `hasOauthRoutes`: some route's URI is the token or the authorize path. */
  predicate HasOAuthRoutes(routes: seq<RouteRecord>) {
    exists i :: 0 <= i < |routes| && Uri(routes[i]) in {OAuthTokenPath, OAuthAuthorizePath}
  }

  /** The OAuth2 scheme for a flow. */
  function OAuthScheme(flow: string, host: string, scopes: OMap<string, string>): (s: Scheme)
    ensures s.OAuth2? && s.flow == flow && s.scopes == scopes
    ensures s.authorizationUrl.Some? <==> flow in AuthorizationFlows
    ensures s.tokenUrl.Some? <==> flow in TokenFlows
    ensures s.authorizationUrl.Some? ==> s.authorizationUrl.value == Endpoint(host, OAuthAuthorizePath)
    ensures s.tokenUrl.Some? ==> s.tokenUrl.value == Endpoint(host, OAuthTokenPath)
  {
    OAuth2(flow,
           if flow in AuthorizationFlows then Some(Endpoint(host, OAuthAuthorizePath)) else None,
           if flow in TokenFlows then Some(Endpoint(host, OAuthTokenPath)) else None,
           scopes)
  }

  /** Every valid flow has at least one URL, and only `accessCode` has both. */
  lemma OAuthSchemeUrls(flow: string, host: string, scopes: OMap<string, string>)
    requires flow in OAuthFlows
    ensures var s := OAuthScheme(flow, host, scopes);
            && (s.authorizationUrl.Some? || s.tokenUrl.Some?)
            && (s.authorizationUrl.Some? && s.tokenUrl.Some? <==> flow == "accessCode")
  {
  }

  /** `generate`: the OAuth generator needs the Passport routes and yields the
      one `OAuth2` scheme; the JWT generator always yields the `Bearer` header
      key. */
  function GenerateDefinitions(g: SecurityGenerator, routes: seq<RouteRecord>, host: string, scopes: OMap<string, string>)
    : (res: Result<OMap<string, Scheme>, Exception>)
    ensures g.JwtGenerator? ==> res == Success([(BearerSchemeName, ApiKey("Authorization", "header"))])
    ensures g.OAuthGenerator? ==> (res.Failure? <==> !HasOAuthRoutes(routes))
    ensures g.OAuthGenerator? && res.Success? ==>
              res.value == [(OAuthSchemeName, OAuthScheme(g.flow, host, scopes))]
  {
    match g
    case JwtGenerator => Success([(BearerSchemeName, ApiKey("Authorization", "header"))])
    case OAuthGenerator(flow) =>
      if !HasOAuthRoutes(routes) then
        Failure(LaravelSwaggerException(
          "No one OAuth2 route defined. Please, call the method Passport::routes() in your Service Provider"))
      else Success([(OAuthSchemeName, OAuthScheme(flow, host, scopes))])
  }

  /** `isPassportScopeMiddleware`: the middleware's alias resolves to one of
      Passport's scope-checking classes; an unknown alias does not. */
  predicate IsScopeMiddleware(aliases: map<string, string>, m: MW.Middleware) {
    m.name in aliases && aliases[m.name] in ScopeMiddlewareClasses
  }

  /** Which middleware checks scopes, one flag per middleware. */
  function ScopeFlags(aliases: map<string, string>, mws: seq<MW.Middleware>): (fs: seq<bool>)
    ensures |fs| == |mws|
    ensures forall i :: 0 <= i < |mws| ==> fs[i] == IsScopeMiddleware(aliases, mws[i])
  {
    seq(|mws|, i requires 0 <= i < |mws| => IsScopeMiddleware(aliases, mws[i]))
  }

  /** The position of the last set flag, if any. */
  function LastSet(fs: seq<bool>): (k: Option<nat>)
    ensures k.None? <==> forall i :: 0 <= i < |fs| ==> !fs[i]
    ensures k.Some? ==> k.value < |fs| && fs[k.value]
    ensures k.Some? ==> forall j :: k.value < j < |fs| ==> !fs[j]
    decreases |fs|
  {
    if |fs| == 0 then None
    else if fs[|fs| - 1] then Some(|fs| - 1)
    else
      var init := fs[..|fs| - 1];
      assert forall i :: 0 <= i < |init| ==> init[i] == fs[i];
      LastSet(init)
  }

  /** The position of the last scope middleware, if any. */
  function LastScopeMiddleware(aliases: map<string, string>, mws: seq<MW.Middleware>): (k: Option<nat>)
    ensures k.None? <==> forall i :: 0 <= i < |mws| ==> !IsScopeMiddleware(aliases, mws[i])
    ensures k.Some? ==> k.value < |mws| && IsScopeMiddleware(aliases, mws[k.value])
    ensures k.Some? ==> forall j :: k.value < j < |mws| ==> !IsScopeMiddleware(aliases, mws[j])
  {
    LastSet(ScopeFlags(aliases, mws))
  }

  /** The `foreach` of `generateForRoute`: each scope middleware replaces the
      requirement, so the parameters of the last one are required under
      `OAuth2`. */
  function ScopeRequirement(aliases: map<string, string>, mws: seq<MW.Middleware>): (req: Requirement)
    ensures req == [] <==> forall i :: 0 <= i < |mws| ==> !IsScopeMiddleware(aliases, mws[i])
    ensures req != [] ==>
              exists i :: 0 <= i < |mws| && IsScopeMiddleware(aliases, mws[i])
                          && req == [(OAuthSchemeName, mws[i].parameters)]
                          && forall j :: i < j < |mws| ==> !IsScopeMiddleware(aliases, mws[j])
  {
    match LastScopeMiddleware(aliases, mws)
    case None => []
    case Some(i) => [(OAuthSchemeName, mws[i].parameters)]
  }

  /** `generateForRoute` of the OAuth generator: one requirement object, the
      parameters of the last scope middleware under `OAuth2`, or the empty
      array when no middleware checks scopes. */
  function OAuthRouteSecurity(r: RouteRecord, app: App): (req: Requirement)
    ensures req == [] <==> forall i :: 0 <= i < |MiddlewareList(r)| ==> !IsScopeMiddleware(app.middlewareAliases, MiddlewareList(r)[i])
    ensures req != [] ==>
              exists i :: 0 <= i < |MiddlewareList(r)| && IsScopeMiddleware(app.middlewareAliases, MiddlewareList(r)[i])
                          && req == [(OAuthSchemeName, MiddlewareList(r)[i].parameters)]
                          && forall j :: i < j < |MiddlewareList(r)| ==> !IsScopeMiddleware(app.middlewareAliases, MiddlewareList(r)[j])
  {
    ScopeRequirement(app.middlewareAliases, MiddlewareList(r))
  }

  /** `generateForRoute` of the JWT generator: a list holding the one
      requirement `{Bearer: []}` for routes with auth middleware, the empty
      list otherwise. */
  function JwtRouteSecurity(r: RouteRecord): (reqs: seq<Requirement>)
    ensures reqs == [] <==> !HasAuthMiddleware(r)
    ensures reqs != [] ==> reqs == [[(BearerSchemeName, [])]]
  {
    if HasAuthMiddleware(r) then [[(BearerSchemeName, [])]] else []
  }

  /** A middleware that does not check scopes can be added anywhere without
      changing a route's OAuth requirement. */
  lemma {:induction false} ScopeRequirementIgnoresOthers(aliases: map<string, string>, a: seq<MW.Middleware>, x: MW.Middleware, b: seq<MW.Middleware>)
    requires !IsScopeMiddleware(aliases, x)
    ensures ScopeRequirement(aliases, a + [x] + b) == ScopeRequirement(aliases, a + b)
  {
    LastScopeIgnoresOthers(aliases, a, x, b);
    var k := LastScopeMiddleware(aliases, a + b);
    if k.Some? {
      var s := a + [x] + b;
      if k.value < |a| {
        assert s[k.value] == (a + b)[k.value];
      } else {
        assert s[k.value + 1] == (a + b)[k.value];
      }
    }
  }

  lemma LastScopeIgnoresOthers(aliases: map<string, string>, a: seq<MW.Middleware>, x: MW.Middleware, b: seq<MW.Middleware>)
    requires !IsScopeMiddleware(aliases, x)
    ensures var k := LastScopeMiddleware(aliases, a + b);
            LastScopeMiddleware(aliases, a + [x] + b) == if k.Some? && k.value >= |a| then Some(k.value + 1) else k
  {
    var fa, fb := ScopeFlags(aliases, a), ScopeFlags(aliases, b);
    assert ScopeFlags(aliases, a + b) == fa + fb;
    assert ScopeFlags(aliases, a + [x] + b) == fa + [false] + fb;
    LastSetIgnoresUnset(fa, fb);
  }

  /** An unset flag inserted anywhere leaves the last set flag in place,
      shifted by one when it comes after the insertion. */
  lemma {:induction false} LastSetIgnoresUnset(a: seq<bool>, b: seq<bool>)
    ensures var k := LastSet(a + b);
            LastSet(a + [false] + b) == if k.Some? && k.value >= |a| then Some(k.value + 1) else k
    decreases |b|
  {
    if |b| == 0 {
      assert a + [false] + b == a + [false] && a + b == a;
      LastSetSnoc(a, false);
    } else {
      var b', y := b[..|b| - 1], b[|b| - 1];
      var p, q := a + [false] + b', a + b';
      assert a + [false] + b == p + [y];
      assert a + b == q + [y];
      LastSetSnoc(p, y);
      LastSetSnoc(q, y);
      LastSetIgnoresUnset(a, b');
      if y {
        assert LastSet(a + b) == Some(|q|);
      }
    }
  }

  /** One more flag at the end is the last set one, or changes nothing. */
  lemma LastSetSnoc(p: seq<bool>, y: bool)
    ensures LastSet(p + [y]) == if y then Some(|p|) else LastSet(p)
  {
    var q := p + [y];
    assert q[..|q| - 1] == p;
    assert q[|q| - 1] == y;
  }
}
