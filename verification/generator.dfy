/** `Generator`: assembling the Swagger 2.0 document from the configuration of
    one version and the application's routes. The router, reflection,
    phpDocumentor and Passport are replaced by the values they produce: the
    route records, the `App` record and the Passport scope list. */
module Generator {

  import opened Wrappers
  import opened Errors
  import opened Strings
  import opened OrderedMap
  import opened Rules
  import opened Schema
  import opened Route
  import opened Parameters
  import opened Security
  import Definitions

  /** The configuration keys `Generator` reads. */
  datatype GeneratorConfig = GeneratorConfig(
    title: string,
    description: string,
    appVersion: string,
    host: string,
    basePath: string,
    schemes: seq<string>,
    consumes: seq<string>,
    produces: seq<string>,
    ignoredMethods: seq<string>,
    ignoredRoutes: seq<string>,
    parseDocBlock: bool,
    parseSecurity: bool,
    authFlow: string,
    errorsDefinitions: seq<Definitions.ErrorDefinitionConfig>)

  datatype Info = Info(title: string, description: string, version: string)

  /** One operation of a path item. An absent key is `None`. */
  datatype Operation = Operation(
    summary: string,
    description: string,
    deprecated: bool,
    parameters: Option<seq<Parameter>>,
    security: Option<Requirement>)

  type PathItem = OMap<string, Operation>
  type Paths = OMap<string, PathItem>

  /** The generated document. `schemes`, `consumes`, `produces` and
      `securityDefinitions` are `None` when the key is absent. */
  datatype Document = Document(
    swagger: string,
    info: Info,
    host: string,
    basePath: string,
    schemes: Option<seq<string>>,
    consumes: Option<seq<string>>,
    produces: Option<seq<string>>,
    paths: Paths,
    definitions: Definitions.Registry,
    securityDefinitions: Option<OMap<string, Scheme>>)

  const SwaggerVersion: string := "2.0"

  /** PHP's `empty` on a configured list. */
  function NonEmpty(xs: seq<string>): (r: Option<seq<string>>)
    ensures r.Some? <==> |xs| > 0
    ensures r.Some? ==> r.value == xs
  {
    if |xs| == 0 then None else Some(xs)
  }

  // ---------------------------------------------------------------- base info

  /** `getBaseInfo`: the fixed skeleton, with empty paths and definitions. The
      host loses a leading `http://` or `https://` and nothing else. */
  function BaseInfo(cfg: GeneratorConfig): (d: Document)
    ensures d.swagger == SwaggerVersion
    ensures d.info == Info(cfg.title, cfg.description, cfg.appVersion)
    ensures d.basePath == cfg.basePath
    ensures |d.host| <= |cfg.host| && d.host == cfg.host[|cfg.host| - |d.host|..]
    ensures cfg.host[..|cfg.host| - |d.host|] in {"", "http://", "https://"}
    ensures d.schemes.Some? <==> |cfg.schemes| > 0
    ensures d.consumes.Some? <==> |cfg.consumes| > 0
    ensures d.produces.Some? <==> |cfg.produces| > 0
    ensures d.schemes.Some? ==> d.schemes.value == cfg.schemes
    ensures d.consumes.Some? ==> d.consumes.value == cfg.consumes
    ensures d.produces.Some? ==> d.produces.value == cfg.produces
    ensures d.paths == [] && d.definitions == [] && d.securityDefinitions.None?
  {
    Document(SwaggerVersion, Info(cfg.title, cfg.description, cfg.appVersion),
             StripScheme(cfg.host), cfg.basePath,
             NonEmpty(cfg.schemes), NonEmpty(cfg.consumes), NonEmpty(cfg.produces),
             [], [], None)
  }

  /** A host without a scheme is written as configured; a scheme is the only
      thing removed, so the trailing `/` of a host survives. */
  lemma BaseInfoHost(cfg: GeneratorConfig)
    ensures !("http://" <= cfg.host) && !("https://" <= cfg.host) ==> BaseInfo(cfg).host == cfg.host
    ensures "https://" <= cfg.host ==> BaseInfo(cfg).host == cfg.host[8..]
    ensures BaseInfo(cfg.(host := "https://api.test/")).host == "api.test/"
  {
    var c := cfg.(host := "https://api.test/");
    assert "https://" <= c.host;
    assert !("http://" <= c.host) by { assert c.host[4] != "http://"[4]; }
    var h := BaseInfo(c).host;
    assert |c.host| - |h| == 8;
    if "https://" <= cfg.host {
      assert !("http://" <= cfg.host) by { assert cfg.host[4] != "http://"[4]; }
    }
  }

  // ---------------------------------------------------------------- routes

  /** `in_array($route->getName(), ignoredRoutes)`: a route without a name
      (`null`) is matched only by an empty entry, as PHP's `null == ""`. */
  predicate IgnoredRoute(r: RouteRecord, ignoredRoutes: seq<string>) {
    r.name.GetOr("") in ignoredRoutes
  }

  /** A filter applies when it is truthy; it keeps the URIs that start with
      its literal text (`preg_quote` escapes every pattern character). */
  predicate PassesFilter(r: RouteRecord, filter: Option<string>) {
    filter.None? || Falsy(filter.value) || filter.value <= Uri(r)
  }

  predicate KeptRoute(r: RouteRecord, ignoredRoutes: seq<string>, filter: Option<string>) {
    !IgnoredRoute(r, ignoredRoutes) && PassesFilter(r, filter)
  }

  /** `getAppRoutes`: the routes not ignored by name that pass the prefix
      filter, in registration order. */
  function AppRoutes(routes: seq<RouteRecord>, ignoredRoutes: seq<string>, filter: Option<string>): (kept: seq<RouteRecord>)
    ensures |kept| <= |routes|
    ensures forall i :: 0 <= i < |kept| ==> KeptRoute(kept[i], ignoredRoutes, filter)
    ensures forall r :: r in kept <==> r in routes && KeptRoute(r, ignoredRoutes, filter)
  {
    if |routes| == 0 then []
    else
      var rest := AppRoutes(routes[1..], ignoredRoutes, filter);
      assert routes == [routes[0]] + routes[1..];
      if KeptRoute(routes[0], ignoredRoutes, filter) then [routes[0]] + rest else rest
  }

  /** Filtering works route by route, so the kept routes keep their order. */
  lemma {:induction false} AppRoutesAppend(a: seq<RouteRecord>, b: seq<RouteRecord>, ignoredRoutes: seq<string>, filter: Option<string>)
    ensures AppRoutes(a + b, ignoredRoutes, filter) == AppRoutes(a, ignoredRoutes, filter) + AppRoutes(b, ignoredRoutes, filter)
    decreases |a|
  {
    if |a| == 0 {
      assert a + b == b;
    } else {
      assert (a + b)[0] == a[0] && (a + b)[1..] == a[1..] + b;
      AppRoutesAppend(a[1..], b, ignoredRoutes, filter);
    }
  }

  /** With no filter and nothing ignored, every route is documented; a filter
      of "0" is falsy and filters nothing. */
  lemma AppRoutesNoFilter(routes: seq<RouteRecord>)
    ensures AppRoutes(routes, [], None) == routes
    ensures AppRoutes(routes, [], Some("0")) == routes
    ensures AppRoutes(routes, [], Some("")) == routes
  {
    if |routes| > 0 {
      AppRoutesNoFilter(routes[1..]);
      assert routes == [routes[0]] + routes[1..];
    }
  }

  /** `getRouteUri`: the URI with the first occurrence of `basePath` removed. */
  function RouteUri(basePath: string, r: RouteRecord): (k: string)
    ensures basePath == "" || !Contains(Uri(r), basePath) ==> k == Uri(r)
    ensures basePath != "" && basePath <= Uri(r) ==> k == Uri(r)[|basePath|..]
  {
    ReplaceFirst(basePath, "", Uri(r))
  }

  /** With the shipped `basePath` of "/", the leading slash is what goes:
      `/users` is documented under `users`. */
  lemma RouteUriExamples(r: RouteRecord)
    requires r.uri == "users"
    ensures RouteUri("/", r) == "users"
    ensures RouteUri("", r) == "/users"
  {
    assert !("/" <= r.uri) by { assert r.uri[0] == 'u'; }
    UriExamplesFor(r);
    var u := "/users";
    assert Uri(r) == u;
    assert "/" <= u && u[1..] == "users";
  }

  /** A base path other than `/` is cut from the front of the URI. */
  lemma RouteUriStripsBasePath(r: RouteRecord)
    requires r.uri == "api/store"
    ensures RouteUri("/api", r) == "/store"
  {
    assert !("/" <= r.uri) by { assert r.uri[0] == 'a'; }
    UriExamplesFor(r);
    var u := "/api/store";
    assert Uri(r) == u;
    assert "/api" <= u && u[4..] == "/store";
  }

  lemma UriExamplesFor(r: RouteRecord)
    requires '?' !in r.uri && !("/" <= r.uri)
    ensures Uri(r) == "/" + r.uri
  {
  }

  // ---------------------------------------------------------------- operation

  /** `parseActionDocBlock`: an empty docblock, a disabled `parseDocBlock`, or
      a docblock phpDocumentor cannot parse gives `[false, '', '']`. */
  function ParseActionDocBlock(docBlock: string, parseDocBlock: bool, parsed: Option<DocSummary>): (d: DocSummary)
    ensures Falsy(docBlock) || !parseDocBlock || parsed.None? ==> d == DocSummary("", "", false)
    ensures !Falsy(docBlock) && parseDocBlock && parsed.Some? ==> d == parsed.value
  {
    if Falsy(docBlock) || !parseDocBlock then DocSummary("", "", false)
    else
      match parsed
      case None => DocSummary("", "", false)
      case Some(p) => p
  }

  /** The docblock of the route's action: closures have none. */
  function ActionDoc(r: RouteRecord, parseDocBlock: bool): (d: DocSummary)
    ensures r.action.None? ==> d == DocSummary("", "", false)
  {
    match r.action
    case None => ParseActionDocBlock("", parseDocBlock, None)
    case Some(a) => ParseActionDocBlock(a.docBlock, parseDocBlock, a.parsedDoc)
  }

  /** The verbs whose rules become one body parameter. */
  const BodyVerbs: set<string> := {"post", "put", "patch"}

  /** `getParameterGenerator` followed by `getParameters`. */
  function RuleParameters(verb: string, rules: RuleMap): (ps: seq<Parameter>)
    ensures verb in BodyVerbs ==> |ps| == 1 && ps[0].BodyParam?
    ensures verb !in BodyVerbs ==> |ps| == |rules|
    ensures verb !in BodyVerbs ==> forall i :: 0 <= i < |ps| ==> ps[i].Param? && ps[i].location == "query"
  {
    if verb in BodyVerbs then BodyParameters(rules) else QueryParameters(rules)
  }

  /** `getFormRules() ?: []`. */
  function ActionRules(r: RouteRecord, app: App): (rules: RuleMap)
    ensures FormRequestRules(r, app).None? ==> rules == []
  {
    FormRequestRules(r, app).GetOr([])
  }

  /** `addActionParameters`: the path parameters of the original URI, then the
      rule parameters when there are rules; no key when both are empty. */
  function ActionParameters(r: RouteRecord, app: App, verb: string): (ps: Option<seq<Parameter>>)
    ensures ps.None? <==> |PathParameters(OriginalUri(r))| == 0 && |ActionRules(r, app)| == 0
    ensures ps.Some? ==> PathParameters(OriginalUri(r)) <= ps.value
    ensures ps.Some? && ActionRules(r, app) == [] ==> ps.value == PathParameters(OriginalUri(r))
    ensures ps.Some? && ActionRules(r, app) != [] ==>
              ps.value[|PathParameters(OriginalUri(r))|..] == RuleParameters(verb, ActionRules(r, app))
  {
    var rules := ActionRules(r, app);
    var path := PathParameters(OriginalUri(r));
    var all := if |rules| == 0 then path else path + RuleParameters(verb, rules);
    if |all| == 0 then None else Some(all)
  }

  /** `addActionScopes`: the parameters of the last Passport scope middleware
      under `OAuth2`; no key without one. Runs only when the document has
      security definitions. */
  function ActionSecurity(r: RouteRecord, app: App, hasSecurity: bool): (s: Option<Requirement>)
    ensures s.Some? <==> hasSecurity && ScopeRequirement(app.middlewareAliases, MiddlewareList(r)) != []
    ensures s.Some? ==> |s.value| == 1 && s.value[0].0 == OAuthSchemeName
  {
    var req := ScopeRequirement(app.middlewareAliases, MiddlewareList(r));
    if hasSecurity && req != [] then Some(req) else None
  }

  /** The operation written for one verb of a route. */
  function BuildOperation(cfg: GeneratorConfig, app: App, hasSecurity: bool, r: RouteRecord, verb: string): (op: Operation)
    ensures DocSummary(op.summary, op.description, op.deprecated) == ActionDoc(r, cfg.parseDocBlock)
    ensures op.parameters == ActionParameters(r, app, verb)
    ensures op.security == ActionSecurity(r, app, hasSecurity)
  {
    var doc := ActionDoc(r, cfg.parseDocBlock);
    Operation(doc.summary, doc.description, doc.deprecated,
              ActionParameters(r, app, verb), ActionSecurity(r, app, hasSecurity))
  }

  /** The inline scope requirement is the one the OAuth generator computes for
      the route. */
  lemma ActionSecurityIsOAuthRequirement(r: RouteRecord, app: App)
    ensures ActionSecurity(r, app, true).Some? <==> OAuthRouteSecurity(r, app) != []
    ensures ActionSecurity(r, app, true).Some? ==> ActionSecurity(r, app, true).value == OAuthRouteSecurity(r, app)
  {
  }

  // ---------------------------------------------------------------- security

  /** The generator's own `getEndpoint`: the host without trailing `/`s, then
      the path; the scheme is kept. */
  function GeneratorEndpoint(host: string, path: string): (e: string)
    ensures TrimRight(host, {'/'}) <= e && e[|TrimRight(host, {'/'})|..] == path
  {
    TrimRight(host, {'/'}) + path
  }

  /** `generateSecurityDefinitions`: the flow is validated first; the one
      `OAuth2` scheme follows. */
  function GeneratorSecurityDefinitions(cfg: GeneratorConfig, scopes: OMap<string, string>): (res: Result<OMap<string, Scheme>, Exception>)
    ensures res.Failure? <==> cfg.authFlow !in OAuthFlows
    ensures res.Failure? ==> res.error == LaravelSwaggerException("Invalid OAuth flow passed")
    ensures res.Success? ==> |res.value| == 1 && res.value[0].0 == OAuthSchemeName
    ensures res.Success? ==> var s := res.value[0].1;
              && s.OAuth2? && s.flow == cfg.authFlow && s.scopes == scopes
              && (s.authorizationUrl.Some? <==> cfg.authFlow in AuthorizationFlows)
              && (s.tokenUrl.Some? <==> cfg.authFlow in TokenFlows)
              && (s.authorizationUrl.Some? ==> s.authorizationUrl.value == GeneratorEndpoint(cfg.host, OAuthAuthorizePath))
              && (s.tokenUrl.Some? ==> s.tokenUrl.value == GeneratorEndpoint(cfg.host, OAuthTokenPath))
  {
    var _ :- NewOAuthGenerator(cfg.authFlow);
    var flow := cfg.authFlow;
    Success([(OAuthSchemeName, OAuth2(
      flow,
      if flow in AuthorizationFlows then Some(GeneratorEndpoint(cfg.host, OAuthAuthorizePath)) else None,
      if flow in TokenFlows then Some(GeneratorEndpoint(cfg.host, OAuthTokenPath)) else None,
      scopes))])
  }

  /** For a host written without a scheme, the generator's definitions are
      those of the OAuth security generator. */
  lemma GeneratorSecurityAgreesWithOAuth(cfg: GeneratorConfig, routes: seq<RouteRecord>, scopes: OMap<string, string>)
    requires cfg.authFlow in OAuthFlows && HasOAuthRoutes(routes)
    requires !("http://" <= TrimRight(cfg.host, {'/'})) && !("https://" <= TrimRight(cfg.host, {'/'}))
    ensures GeneratorSecurityDefinitions(cfg, scopes) == GenerateDefinitions(OAuthGenerator(cfg.authFlow), routes, cfg.host, scopes)
  {
    var t := TrimRight(cfg.host, {'/'});
    assert StripScheme(t) == t;
  }

  /** With a scheme in the host the two differ: the generator keeps it. */
  lemma GeneratorSecurityKeepsScheme(cfg: GeneratorConfig)
    requires cfg.host == "https://api.test/" && cfg.authFlow == "password"
    ensures GeneratorSecurityDefinitions(cfg, []).value[0].1.tokenUrl == Some("https://api.test/oauth/token")
    ensures OAuthScheme(cfg.authFlow, cfg.host, []).tokenUrl == Some("api.test/oauth/token")
  {
    GeneratorTokenUrl(cfg);
    DocsTokenUrl(cfg);
  }

  /** The generator's token URL keeps the scheme of the host. */
  lemma GeneratorTokenUrl(cfg: GeneratorConfig)
    requires cfg.host == "https://api.test/" && cfg.authFlow == "password"
    ensures GeneratorSecurityDefinitions(cfg, []).value[0].1.tokenUrl == Some("https://api.test/oauth/token")
  {
    ApiTestHost(cfg.host);
    assert GeneratorEndpoint(cfg.host, OAuthTokenPath) == "https://api.test/oauth/token";
  }

  /** The scheme the documentation publishes drops it. */
  lemma DocsTokenUrl(cfg: GeneratorConfig)
    requires cfg.host == "https://api.test/" && cfg.authFlow == "password"
    ensures OAuthScheme(cfg.authFlow, cfg.host, []).tokenUrl == Some("api.test/oauth/token")
  {
    ApiTestHost(cfg.host);
    assert Endpoint(cfg.host, OAuthTokenPath) == "api.test/oauth/token";
  }

  lemma ApiTestHost(host: string)
    requires host == "https://api.test/"
    ensures TrimRight(host, {'/'}) == "https://api.test"
    ensures StripScheme("https://api.test") == "api.test"
  {
    var t := "https://api.test";
    assert TrimRight(host, {'/'}) == t by {
      assert host[..|host| - 1] == t;
      assert TrimRight(t, {'/'}) == t by { assert t[|t| - 1] == 't'; }
    }
    assert "https://" <= t;
    assert !("http://" <= t) by { assert t[4] != "http://"[4]; }
    assert StripScheme(t) == "api.test" by { assert |StripScheme(t)| == |t| - 8; }
  }


  // ---------------------------------------------------------------- assembly

  /** The part of the document the route walk builds. */
  datatype Assembly = Assembly(paths: Paths, definitions: Definitions.Registry)

  /** The operation documented for verb `v` under path key `k`, if any. */
  function OpAt(paths: Paths, k: string, v: string): (op: Option<Operation>)
    ensures k !in Keys(paths) ==> op.None?
  {
    match Get(paths, k)
    case None => None
    case Some(item) => Get(item, v)
  }

  /** Some verb of `verbs` is not ignored. */
  predicate AnyDocumented(ignored: seq<string>, verbs: seq<string>) {
    exists i :: 0 <= i < |verbs| && verbs[i] !in ignored
  }

  lemma AnyDocumentedTail(ignored: seq<string>, verbs: seq<string>)
    requires |verbs| > 0
    ensures AnyDocumented(ignored, verbs) <==> verbs[0] !in ignored || AnyDocumented(ignored, verbs[1..])
  {
    if AnyDocumented(ignored, verbs) && verbs[0] in ignored {
      var i :| 0 <= i < |verbs| && verbs[i] !in ignored;
      assert verbs[1..][i - 1] == verbs[i];
    }
    if AnyDocumented(ignored, verbs[1..]) {
      var i :| 0 <= i < |verbs[1..]| && verbs[1..][i] !in ignored;
      assert verbs[i + 1] == verbs[1..][i];
    }
  }

  /** The loop over a route's verbs. Each verb not ignored writes its operation
      `op(verb)` and merges the route's definitions `generated` with `+=`;
      the definitions are built anew for every such verb, so their failure
      stops the loop at the first one. */
  function AddVerbs(ignored: seq<string>, generated: Result<Definitions.Registry, Exception>, op: string -> Operation,
                    item: PathItem, defs: Definitions.Registry, verbs: seq<string>)
    : (res: Result<(PathItem, Definitions.Registry), Exception>)
    ensures res.Success? && UniqueKeys(item) ==> UniqueKeys(res.value.0)
    ensures res.Success? && UniqueKeys(defs) ==> UniqueKeys(res.value.1)
    decreases |verbs|
  {
    if |verbs| == 0 then Success((item, defs))
    else if verbs[0] in ignored then AddVerbs(ignored, generated, op, item, defs, verbs[1..])
    else
      var g :- generated;
      AddVerbs(ignored, generated, op, Put(item, verbs[0], op(verbs[0])), Union(defs, g), verbs[1..])
  }

  /** The verb loop fails exactly when some verb is documented and the
      definitions fail, with their error. */
  lemma {:induction false} AddVerbsOutcome(ignored: seq<string>, generated: Result<Definitions.Registry, Exception>,
                                           op: string -> Operation, item: PathItem, defs: Definitions.Registry, verbs: seq<string>)
    ensures var res := AddVerbs(ignored, generated, op, item, defs, verbs);
            && (res.Failure? <==> AnyDocumented(ignored, verbs) && generated.Failure?)
            && (res.Failure? ==> res.error == generated.error)
    decreases |verbs|
  {
    if |verbs| > 0 {
      AnyDocumentedTail(ignored, verbs);
      if verbs[0] in ignored {
        AddVerbsOutcome(ignored, generated, op, item, defs, verbs[1..]);
      } else if generated.Success? {
        AddVerbsOutcome(ignored, generated, op, Put(item, verbs[0], op(verbs[0])), Union(defs, generated.value), verbs[1..]);
      }
    }
  }

  /** Every documented verb gets its operation; no other verb is touched. */
  lemma {:induction false} AddVerbsItem(ignored: seq<string>, generated: Result<Definitions.Registry, Exception>,
                                        op: string -> Operation, item: PathItem, defs: Definitions.Registry, verbs: seq<string>)
    requires AddVerbs(ignored, generated, op, item, defs, verbs).Success?
    ensures var out := AddVerbs(ignored, generated, op, item, defs, verbs).value.0;
            && (forall v :: v in Keys(out) <==> v in Keys(item) || (v in verbs && v !in ignored))
            && (forall v :: v in verbs && v !in ignored ==> Get(out, v) == Some(op(v)))
            && (forall v :: v !in verbs || v in ignored ==> Get(out, v) == Get(item, v))
    decreases |verbs|
  {
    if |verbs| > 0 {
      assert verbs == [verbs[0]] + verbs[1..];
      if verbs[0] in ignored {
        AddVerbsItem(ignored, generated, op, item, defs, verbs[1..]);
      } else {
        var item' := Put(item, verbs[0], op(verbs[0]));
        AddVerbsItem(ignored, generated, op, item', Union(defs, generated.value), verbs[1..]);
      }
    }
  }

  /** Definitions already merged keep their values; the route's definitions
      are added when some verb is documented. */
  lemma {:induction false} AddVerbsDefinitions(ignored: seq<string>, generated: Result<Definitions.Registry, Exception>,
                                               op: string -> Operation, item: PathItem, defs: Definitions.Registry, verbs: seq<string>)
    requires AddVerbs(ignored, generated, op, item, defs, verbs).Success?
    ensures var out := AddVerbs(ignored, generated, op, item, defs, verbs).value.1;
            && Keys(defs) <= Keys(out)
            && (forall k :: k in Keys(defs) ==> Get(out, k) == Get(defs, k))
            && (forall k :: k in Keys(out) <==> k in Keys(defs) || (AnyDocumented(ignored, verbs) && generated.Success? && k in Keys(generated.value)))
    decreases |verbs|
  {
    if |verbs| > 0 {
      AnyDocumentedTail(ignored, verbs);
      if verbs[0] in ignored {
        AddVerbsDefinitions(ignored, generated, op, item, defs, verbs[1..]);
      } else {
        var defs' := Union(defs, generated.value);
        AddVerbsDefinitions(ignored, generated, op, Put(item, verbs[0], op(verbs[0])), defs', verbs[1..]);
        var out := AddVerbs(ignored, generated, op, item, defs, verbs).value.1;
        PrefixTrans(Keys(defs), Keys(defs'), Keys(out));
      }
    }
  }

  /** A definition name not merged before takes the value the route's
      definitions give it, once some verb is documented. */
  lemma {:induction false} AddVerbsNewDefinition(ignored: seq<string>, generated: Result<Definitions.Registry, Exception>,
                                                 op: string -> Operation, item: PathItem, defs: Definitions.Registry,
                                                 verbs: seq<string>, k: string)
    requires AddVerbs(ignored, generated, op, item, defs, verbs).Success?
    requires AnyDocumented(ignored, verbs) && k !in Keys(defs)
    ensures generated.Success?
    ensures Get(AddVerbs(ignored, generated, op, item, defs, verbs).value.1, k) == Get(generated.value, k)
    decreases |verbs|
  {
    AnyDocumentedTail(ignored, verbs);
    if verbs[0] in ignored {
      AddVerbsNewDefinition(ignored, generated, op, item, defs, verbs[1..], k);
    } else {
      var defs' := Union(defs, generated.value);
      AddVerbsDefinitions(ignored, generated, op, Put(item, verbs[0], op(verbs[0])), defs', verbs[1..]);
    }
  }

  /** What the walk needs of one route: its path key, its verbs, its
      definitions (built anew for each documented verb, always alike) and the
      operation it writes for a verb. */
  datatype Job = Job(key: string, verbs: seq<string>, generated: Result<Definitions.Registry, Exception>, op: string -> Operation)

  /** Job `j` writes the operation of verb `v` under key `k`. */
  predicate JobWrites(ignored: seq<string>, j: Job, k: string, v: string) {
    j.key == k && v in j.verbs && v !in ignored
  }

  /** Job `j` stops the walk: it has a documented verb and its definitions
      fail. */
  predicate JobFails(ignored: seq<string>, j: Job) {
    AnyDocumented(ignored, j.verbs) && j.generated.Failure?
  }

  /** Job `j` supplies definition name `k`: it has a documented verb and its
      definitions hold `k`. */
  predicate JobSupplies(ignored: seq<string>, j: Job, k: string) {
    AnyDocumented(ignored, j.verbs) && j.generated.Success? && k in Keys(j.generated.value)
  }

  /** One route: its path key is created even when every verb is ignored. */
  function AddJob(ignored: seq<string>, acc: Assembly, j: Job): (res: Result<Assembly, Exception>)
    ensures res.Success? && UniqueKeys(acc.paths) ==> UniqueKeys(res.value.paths)
    ensures res.Success? && UniqueKeys(acc.definitions) ==> UniqueKeys(res.value.definitions)
  {
    var paths := PutAbsent(acc.paths, j.key, []);
    var done :- AddVerbs(ignored, j.generated, j.op, Get(paths, j.key).value, acc.definitions, j.verbs);
    Success(Assembly(Put(paths, j.key, done.0), done.1))
  }

  /** The fields of a successful `AddJob`: the verb loop ran on the item under
      the key, created empty when missing. */
  lemma AddJobUnfold(ignored: seq<string>, acc: Assembly, j: Job)
    ensures var item := if j.key in Keys(acc.paths) then Get(acc.paths, j.key).value else [];
            var done := AddVerbs(ignored, j.generated, j.op, item, acc.definitions, j.verbs);
            && (AddJob(ignored, acc, j).Success? <==> done.Success?)
            && (done.Failure? ==> AddJob(ignored, acc, j).error == done.error)
            && (done.Success? ==>
                  AddJob(ignored, acc, j).value == Assembly(Put(PutAbsent(acc.paths, j.key, []), j.key, done.value.0), done.value.1))
  {
  }

  /** One route fails exactly when it has a documented verb and its
      definitions fail. */
  lemma AddJobOutcome(ignored: seq<string>, acc: Assembly, j: Job)
    ensures AddJob(ignored, acc, j).Failure? <==> JobFails(ignored, j)
    ensures AddJob(ignored, acc, j).Failure? ==> AddJob(ignored, acc, j).error == j.generated.error
  {
    AddJobUnfold(ignored, acc, j);
    var item := if j.key in Keys(acc.paths) then Get(acc.paths, j.key).value else [];
    AddVerbsOutcome(ignored, j.generated, j.op, item, acc.definitions, j.verbs);
  }

  /** One route adds its path key, writes the operations of its documented
      verbs under it, and leaves every other key and verb alone. */
  lemma AddJobPaths(ignored: seq<string>, acc: Assembly, j: Job)
    requires AddJob(ignored, acc, j).Success?
    ensures var out := AddJob(ignored, acc, j).value;
            && (forall k :: k in Keys(out.paths) <==> k in Keys(acc.paths) || k == j.key)
            && Keys(acc.paths) <= Keys(out.paths)
            && (forall k, v :: JobWrites(ignored, j, k, v) ==> OpAt(out.paths, k, v) == Some(j.op(v)))
            && (forall k, v :: !JobWrites(ignored, j, k, v) ==> OpAt(out.paths, k, v) == OpAt(acc.paths, k, v))
  {
    AddJobKeys(ignored, acc, j);
    AddJobUnfold(ignored, acc, j);
    var item := if j.key in Keys(acc.paths) then Get(acc.paths, j.key).value else [];
    AddVerbsItem(ignored, j.generated, j.op, item, acc.definitions, j.verbs);
    var done := AddVerbs(ignored, j.generated, j.op, item, acc.definitions, j.verbs);
    PutPathItem(acc.paths, j.key, done.value.0);
  }

  /** One route's effect on one key and verb. */
  lemma AddJobOp(ignored: seq<string>, acc: Assembly, j: Job, k: string, v: string)
    requires AddJob(ignored, acc, j).Success?
    ensures OpAt(AddJob(ignored, acc, j).value.paths, k, v)
              == if JobWrites(ignored, j, k, v) then Some(j.op(v)) else OpAt(acc.paths, k, v)
  {
    AddJobPaths(ignored, acc, j);
  }

  /** One route adds its path key and no other. */
  lemma AddJobKeys(ignored: seq<string>, acc: Assembly, j: Job)
    requires AddJob(ignored, acc, j).Success?
    ensures forall k :: k in Keys(AddJob(ignored, acc, j).value.paths) <==> k in Keys(acc.paths) || k == j.key
  {
    AddJobUnfold(ignored, acc, j);
    var item := if j.key in Keys(acc.paths) then Get(acc.paths, j.key).value else [];
    var done := AddVerbs(ignored, j.generated, j.op, item, acc.definitions, j.verbs);
    PutPathItem(acc.paths, j.key, done.value.0);
  }

  /** Writing the item under `key` after creating it empty when missing. */
  lemma PutPathItem(paths: Paths, key: string, item: PathItem)
    ensures var out := Put(PutAbsent(paths, key, []), key, item);
            && (forall k :: k in Keys(out) <==> k in Keys(paths) || k == key)
            && Keys(paths) <= Keys(out)
            && (forall v :: OpAt(out, key, v) == Get(item, v))
            && (forall k, v :: k != key ==> OpAt(out, k, v) == OpAt(paths, k, v))
  {
    var created := PutAbsent(paths, key, []);
    var out := Put(created, key, item);
    assert key in Keys(created);
    assert Keys(out) == Keys(created);
    assert Get(out, key) == Some(item);
    forall k | k != key ensures Get(out, k) == Get(paths, k) {
      assert Get(out, k) == Get(created, k);
    }
  }

  /** One route keeps the definitions already merged and adds its own when it
      has a documented verb. */
  lemma AddJobDefinitions(ignored: seq<string>, acc: Assembly, j: Job)
    requires AddJob(ignored, acc, j).Success?
    ensures var out := AddJob(ignored, acc, j).value;
            && Keys(acc.definitions) <= Keys(out.definitions)
            && (forall k :: k in Keys(acc.definitions) ==> Get(out.definitions, k) == Get(acc.definitions, k))
            && (forall k :: k in Keys(out.definitions) <==> (k in Keys(acc.definitions) || JobSupplies(ignored, j, k)))
  {
    AddJobUnfold(ignored, acc, j);
    var item := if j.key in Keys(acc.paths) then Get(acc.paths, j.key).value else [];
    AddVerbsDefinitions(ignored, j.generated, j.op, item, acc.definitions, j.verbs);
  }

  /** One route's effect on one definition name. */
  lemma AddJobDefinitionName(ignored: seq<string>, acc: Assembly, j: Job, k: string)
    requires AddJob(ignored, acc, j).Success?
    ensures k in Keys(AddJob(ignored, acc, j).value.definitions) <==> (k in Keys(acc.definitions) || JobSupplies(ignored, j, k))
  {
    AddJobDefinitions(ignored, acc, j);
  }

  lemma AddJobNewDefinition(ignored: seq<string>, acc: Assembly, j: Job, k: string)
    requires AddJob(ignored, acc, j).Success?
    requires AnyDocumented(ignored, j.verbs) && k !in Keys(acc.definitions)
    ensures j.generated.Success?
    ensures Get(AddJob(ignored, acc, j).value.definitions, k) == Get(j.generated.value, k)
  {
    AddJobUnfold(ignored, acc, j);
    var item := if j.key in Keys(acc.paths) then Get(acc.paths, j.key).value else [];
    AddVerbsNewDefinition(ignored, j.generated, j.op, item, acc.definitions, j.verbs, k);
  }

  /** The loop over the kept routes. */
  function AddJobs(ignored: seq<string>, acc: Assembly, jobs: seq<Job>): (res: Result<Assembly, Exception>)
    ensures res.Success? && UniqueKeys(acc.paths) ==> UniqueKeys(res.value.paths)
    ensures res.Success? && UniqueKeys(acc.definitions) ==> UniqueKeys(res.value.definitions)
    decreases |jobs|
  {
    if |jobs| == 0 then Success(acc)
    else
      var next :- AddJob(ignored, acc, jobs[0]);
      AddJobs(ignored, next, jobs[1..])
  }

  /** The walk fails exactly when some route fails. */
  lemma {:induction false} AddJobsOutcome(ignored: seq<string>, acc: Assembly, jobs: seq<Job>)
    ensures AddJobs(ignored, acc, jobs).Failure? <==> exists i :: 0 <= i < |jobs| && JobFails(ignored, jobs[i])
    decreases |jobs|
  {
    if |jobs| > 0 {
      AddJobOutcome(ignored, acc, jobs[0]);
      var tail := jobs[1..];
      if AddJob(ignored, acc, jobs[0]).Success? {
        var next := AddJob(ignored, acc, jobs[0]).value;
        AddJobsOutcome(ignored, next, tail);
        if exists i :: 0 <= i < |jobs| && JobFails(ignored, jobs[i]) {
          var i :| 0 <= i < |jobs| && JobFails(ignored, jobs[i]);
          assert JobFails(ignored, tail[i - 1]);
        }
        if exists i :: 0 <= i < |tail| && JobFails(ignored, tail[i]) {
          var i :| 0 <= i < |tail| && JobFails(ignored, tail[i]);
          assert jobs[i + 1] == tail[i];
        }
      }
    }
  }

  /** A failed walk reports the error of the first route that fails. */
  lemma {:induction false} AddJobsError(ignored: seq<string>, acc: Assembly, jobs: seq<Job>)
    requires AddJobs(ignored, acc, jobs).Failure?
    ensures exists i :: 0 <= i < |jobs| && JobFails(ignored, jobs[i])
                        && AddJobs(ignored, acc, jobs).error == jobs[i].generated.error
                        && forall j :: 0 <= j < i ==> !JobFails(ignored, jobs[j])
    decreases |jobs|
  {
    AddJobOutcome(ignored, acc, jobs[0]);
    if AddJob(ignored, acc, jobs[0]).Success? {
      var tail := jobs[1..];
      var next := AddJob(ignored, acc, jobs[0]).value;
      AddJobsError(ignored, next, tail);
      var i :| 0 <= i < |tail| && JobFails(ignored, tail[i]) && AddJobs(ignored, next, tail).error == tail[i].generated.error
               && forall j :: 0 <= j < i ==> !JobFails(ignored, tail[j]);
      assert jobs[i + 1] == tail[i];
      forall j | 0 <= j < i + 1 ensures !JobFails(ignored, jobs[j]) {
        if j > 0 { assert jobs[j] == tail[j - 1]; }
      }
      assert AddJobs(ignored, acc, jobs).error == jobs[i + 1].generated.error;
    } else {
      assert AddJobs(ignored, acc, jobs).error == jobs[0].generated.error;
    }
  }

  /** The path keys are those present before and those of the routes
      walked. */
  lemma {:induction false} AddJobsPathKey(ignored: seq<string>, acc: Assembly, jobs: seq<Job>, k: string)
    requires AddJobs(ignored, acc, jobs).Success?
    ensures k in Keys(AddJobs(ignored, acc, jobs).value.paths) <==>
              (k in Keys(acc.paths) || exists i :: 0 <= i < |jobs| && jobs[i].key == k)
    decreases |jobs|
  {
    if |jobs| > 0 {
      var next := AddJob(ignored, acc, jobs[0]).value;
      var tail := jobs[1..];
      AddJobKeys(ignored, acc, jobs[0]);
      AddJobsPathKey(ignored, next, tail, k);
      KeyedCons(jobs, k);
    }
  }

  /** Some route has key `k` iff the first does or one of the rest does. */
  lemma KeyedCons(jobs: seq<Job>, k: string)
    requires |jobs| > 0
    ensures (exists i :: 0 <= i < |jobs| && jobs[i].key == k) <==>
              (jobs[0].key == k || exists i :: 0 <= i < |jobs[1..]| && jobs[1..][i].key == k)
  {
    var tail := jobs[1..];
    if exists i :: 0 <= i < |jobs| && jobs[i].key == k {
      var i :| 0 <= i < |jobs| && jobs[i].key == k;
      if i > 0 { assert tail[i - 1] == jobs[i]; }
    }
    if exists i :: 0 <= i < |tail| && tail[i].key == k {
      var i :| 0 <= i < |tail| && tail[i].key == k;
      assert jobs[i + 1] == tail[i];
    }
  }

  /** A verb is documented under a key after the walk exactly when it was
      before or some route with that key has it and does not ignore it. */
  lemma {:induction false} AddJobsWrite(ignored: seq<string>, acc: Assembly, jobs: seq<Job>, k: string, v: string)
    requires AddJobs(ignored, acc, jobs).Success?
    ensures OpAt(AddJobs(ignored, acc, jobs).value.paths, k, v).Some? <==>
              (OpAt(acc.paths, k, v).Some? || exists i :: 0 <= i < |jobs| && JobWrites(ignored, jobs[i], k, v))
    decreases |jobs|
  {
    if |jobs| > 0 {
      var next := AddJob(ignored, acc, jobs[0]).value;
      var tail := jobs[1..];
      AddJobPaths(ignored, acc, jobs[0]);
      AddJobsWrite(ignored, next, tail, k, v);
      WritesCons(ignored, jobs, k, v);
    }
  }

  /** Some route writes `v` under `k` iff the first does or one of the rest
      does. */
  lemma WritesCons(ignored: seq<string>, jobs: seq<Job>, k: string, v: string)
    requires |jobs| > 0
    ensures (exists i :: 0 <= i < |jobs| && JobWrites(ignored, jobs[i], k, v)) <==>
              (JobWrites(ignored, jobs[0], k, v) || exists i :: 0 <= i < |jobs[1..]| && JobWrites(ignored, jobs[1..][i], k, v))
  {
    var tail := jobs[1..];
    if exists i :: 0 <= i < |jobs| && JobWrites(ignored, jobs[i], k, v) {
      var i :| 0 <= i < |jobs| && JobWrites(ignored, jobs[i], k, v);
      if i > 0 { assert tail[i - 1] == jobs[i]; }
    }
    if exists i :: 0 <= i < |tail| && JobWrites(ignored, tail[i], k, v) {
      var i :| 0 <= i < |tail| && JobWrites(ignored, tail[i], k, v);
      assert jobs[i + 1] == tail[i];
    }
  }

  /** An operation no later route writes stays as it is. */
  lemma {:induction false} AddJobsUntouched(ignored: seq<string>, acc: Assembly, jobs: seq<Job>, k: string, v: string)
    requires AddJobs(ignored, acc, jobs).Success?
    requires forall i :: 0 <= i < |jobs| ==> !JobWrites(ignored, jobs[i], k, v)
    ensures OpAt(AddJobs(ignored, acc, jobs).value.paths, k, v) == OpAt(acc.paths, k, v)
    decreases |jobs|
  {
    if |jobs| > 0 {
      var next := AddJob(ignored, acc, jobs[0]).value;
      AddJobOp(ignored, acc, jobs[0], k, v);
      assert forall i :: 0 <= i < |jobs[1..]| ==> jobs[1..][i] == jobs[i + 1];
      AddJobsUntouched(ignored, next, jobs[1..], k, v);
    }
  }

  /** The last route that writes a verb under a key decides its operation. */
  lemma {:induction false} AddJobsLastWriter(ignored: seq<string>, acc: Assembly, jobs: seq<Job>, w: nat, v: string)
    requires AddJobs(ignored, acc, jobs).Success?
    requires w < |jobs| && JobWrites(ignored, jobs[w], jobs[w].key, v)
    requires forall i :: w < i < |jobs| ==> !JobWrites(ignored, jobs[i], jobs[w].key, v)
    ensures OpAt(AddJobs(ignored, acc, jobs).value.paths, jobs[w].key, v) == Some(jobs[w].op(v))
    decreases |jobs|
  {
    var next := AddJob(ignored, acc, jobs[0]).value;
    var tail := jobs[1..];
    assert AddJobs(ignored, acc, jobs) == AddJobs(ignored, next, tail);
    NoLaterWriteShift(ignored, jobs, w, v);
    if w == 0 {
      AddJobOp(ignored, acc, jobs[0], jobs[0].key, v);
      AddJobsUntouched(ignored, next, tail, jobs[0].key, v);
    } else {
      AddJobsLastWriter(ignored, next, tail, w - 1, v);
    }
  }

  /** The routes after the last writer at `w`, among the rest, are those
      after `w - 1`. */
  lemma NoLaterWriteShift(ignored: seq<string>, jobs: seq<Job>, w: nat, v: string)
    requires w < |jobs| && JobWrites(ignored, jobs[w], jobs[w].key, v)
    requires forall i :: w < i < |jobs| ==> !JobWrites(ignored, jobs[i], jobs[w].key, v)
    ensures w == 0 ==> forall i :: 0 <= i < |jobs[1..]| ==> !JobWrites(ignored, jobs[1..][i], jobs[0].key, v)
    ensures w > 0 ==> jobs[1..][w - 1] == jobs[w]
    ensures w > 0 ==> forall i :: w - 1 < i < |jobs[1..]| ==> !JobWrites(ignored, jobs[1..][i], jobs[w].key, v)
  {
    var tail := jobs[1..];
    forall i | 0 <= i < |tail| && (w == 0 || w - 1 < i)
      ensures !JobWrites(ignored, tail[i], jobs[w].key, v)
    {
      assert tail[i] == jobs[i + 1];
    }
  }

  /** Definitions merged earlier keep their place and their values. */
  lemma {:induction false} AddJobsKeepsDefinitions(ignored: seq<string>, acc: Assembly, jobs: seq<Job>)
    requires AddJobs(ignored, acc, jobs).Success?
    ensures var out := AddJobs(ignored, acc, jobs).value;
            && Keys(acc.definitions) <= Keys(out.definitions)
            && (forall k :: k in Keys(acc.definitions) ==> Get(out.definitions, k) == Get(acc.definitions, k))
    decreases |jobs|
  {
    if |jobs| > 0 {
      var next := AddJob(ignored, acc, jobs[0]).value;
      AddJobDefinitions(ignored, acc, jobs[0]);
      AddJobsKeepsDefinitions(ignored, next, jobs[1..]);
      var out := AddJobs(ignored, acc, jobs).value;
      assert out == AddJobs(ignored, next, jobs[1..]).value;
      PrefixTrans(Keys(acc.definitions), Keys(next.definitions), Keys(out.definitions));
    }
  }

  /** A definition name is present after the walk exactly when it was merged
      before or some route with a documented verb supplies it. */
  lemma {:induction false} AddJobsDefinitionName(ignored: seq<string>, acc: Assembly, jobs: seq<Job>, k: string)
    requires AddJobs(ignored, acc, jobs).Success?
    ensures k in Keys(AddJobs(ignored, acc, jobs).value.definitions) <==>
              (k in Keys(acc.definitions) || exists i :: 0 <= i < |jobs| && JobSupplies(ignored, jobs[i], k))
    decreases |jobs|
  {
    if |jobs| > 0 {
      var next := AddJob(ignored, acc, jobs[0]).value;
      AddJobDefinitionName(ignored, acc, jobs[0], k);
      AddJobsDefinitionName(ignored, next, jobs[1..], k);
      SuppliesCons(ignored, jobs, k);
    }
  }

  /** Some route supplies `k` iff the first does or one of the rest does. */
  lemma SuppliesCons(ignored: seq<string>, jobs: seq<Job>, k: string)
    requires |jobs| > 0
    ensures (exists i :: 0 <= i < |jobs| && JobSupplies(ignored, jobs[i], k)) <==>
              (JobSupplies(ignored, jobs[0], k) || exists i :: 0 <= i < |jobs[1..]| && JobSupplies(ignored, jobs[1..][i], k))
  {
    var tail := jobs[1..];
    if exists i :: 0 <= i < |jobs| && JobSupplies(ignored, jobs[i], k) {
      var i :| 0 <= i < |jobs| && JobSupplies(ignored, jobs[i], k);
      if i > 0 { assert tail[i - 1] == jobs[i]; }
    }
    if exists i :: 0 <= i < |tail| && JobSupplies(ignored, tail[i], k) {
      var i :| 0 <= i < |tail| && JobSupplies(ignored, tail[i], k);
      assert jobs[i + 1] == tail[i];
    }
  }

  /** `$definitions += ...` never overwrites: a definition name keeps the
      value of the first route with a documented verb that supplies it. */
  lemma {:induction false} AddJobsFirstDefinition(ignored: seq<string>, acc: Assembly, jobs: seq<Job>, w: nat, k: string)
    requires AddJobs(ignored, acc, jobs).Success?
    requires w < |jobs| && JobSupplies(ignored, jobs[w], k) && k !in Keys(acc.definitions)
    requires forall i :: 0 <= i < w ==> !JobSupplies(ignored, jobs[i], k)
    ensures Get(AddJobs(ignored, acc, jobs).value.definitions, k) == Get(jobs[w].generated.value, k)
    decreases |jobs|
  {
    var next := AddJob(ignored, acc, jobs[0]).value;
    var tail := jobs[1..];
    assert AddJobs(ignored, acc, jobs) == AddJobs(ignored, next, tail);
    if w == 0 {
      AddJobNewDefinition(ignored, acc, jobs[0], k);
      AddJobsKeepsDefinitions(ignored, next, tail);
    } else {
      NoEarlierSupplyShift(ignored, jobs, w, k);
      AddJobDefinitionName(ignored, acc, jobs[0], k);
      AddJobsFirstDefinition(ignored, next, tail, w - 1, k);
    }
  }

  /** The first supplier at `w > 0` is, among the rest, the first at
      `w - 1`. */
  lemma NoEarlierSupplyShift(ignored: seq<string>, jobs: seq<Job>, w: nat, k: string)
    requires 0 < w < |jobs| && JobSupplies(ignored, jobs[w], k)
    requires forall i :: 0 <= i < w ==> !JobSupplies(ignored, jobs[i], k)
    ensures !JobSupplies(ignored, jobs[0], k) && JobSupplies(ignored, jobs[1..][w - 1], k)
    ensures forall i :: 0 <= i < w - 1 ==> !JobSupplies(ignored, jobs[1..][i], k)
  {
    var tail := jobs[1..];
    assert tail[w - 1] == jobs[w];
    forall i | 0 <= i < w - 1 ensures !JobSupplies(ignored, tail[i], k) {
      assert tail[i] == jobs[i + 1];
    }
  }

  // ---------------------------------------------------------------- generate

  /** What one run of `generate` fixes before walking the routes: the
      configuration, the application, and whether security definitions were
      written. */
  datatype Run = Run(cfg: GeneratorConfig, app: App, hasSecurity: bool)

  /** A route yields at least one operation. */
  predicate HasOperation(cfg: GeneratorConfig, r: RouteRecord) {
    AnyDocumented(cfg.ignoredMethods, Methods(r))
  }

  /** Route `r` writes the operation of verb `v` under key `k`. */
  predicate Writes(cfg: GeneratorConfig, r: RouteRecord, k: string, v: string) {
    RouteUri(cfg.basePath, r) == k && v in Methods(r) && v !in cfg.ignoredMethods
  }

  /** The paths of a successful `generate` are those of the walk. */
  lemma GenerateUnfoldPaths(cfg: GeneratorConfig, app: App, routes: seq<RouteRecord>, filter: Option<string>,
                            scopes: OMap<string, string>)
    requires Definitions.WellFormedApp(app) && Generate(cfg, app, routes, filter, scopes).Success?
    ensures var asm := Walk(RunOf(cfg, app, routes), Kept(cfg, routes, filter));
            asm.Success? && Generate(cfg, app, routes, filter, scopes).value.paths == asm.value.paths
  {
    GenerateUnfold(cfg, app, routes, filter, scopes);
  }

  /** The definitions of a successful `generate` are those of the walk. */
  lemma GenerateUnfoldDefinitions(cfg: GeneratorConfig, app: App, routes: seq<RouteRecord>, filter: Option<string>,
                                  scopes: OMap<string, string>)
    requires Definitions.WellFormedApp(app) && Generate(cfg, app, routes, filter, scopes).Success?
    ensures var asm := AddJobs(cfg.ignoredMethods, Assembly([], []), RouteJobs(RunOf(cfg, app, routes), Kept(cfg, routes, filter)));
            asm.Success? && Generate(cfg, app, routes, filter, scopes).value.definitions == asm.value.definitions
  {
    GenerateUnfold(cfg, app, routes, filter, scopes);
  }

  /** The definitions of a route when `generate` builds them. */
  function RouteDefinitions(cfg: GeneratorConfig, app: App, r: RouteRecord): Result<Definitions.Registry, Exception>
    requires Definitions.WellFormedApp(app)
  {
    Definitions.Generate(r, app, cfg.errorsDefinitions)
  }

  /** Route `r` supplies definition name `k`: it yields an operation and its
      definitions hold `k`. */
  predicate Supplies(cfg: GeneratorConfig, app: App, r: RouteRecord, k: string)
    requires Definitions.WellFormedApp(app)
  {
    HasOperation(cfg, r) && RouteDefinitions(cfg, app, r).Success? && k in Keys(RouteDefinitions(cfg, app, r).value)
  }

  /** The job of one route. */
  function RouteJob(run: Run, r: RouteRecord): (j: Job)
    requires Definitions.WellFormedApp(run.app)
    ensures j.key == RouteUri(run.cfg.basePath, r) && j.verbs == Methods(r)
    ensures j.generated == Definitions.Generate(r, run.app, run.cfg.errorsDefinitions)
    ensures forall v :: j.op(v) == BuildOperation(run.cfg, run.app, run.hasSecurity, r, v)
  {
    Job(RouteUri(run.cfg.basePath, r), Methods(r), Definitions.Generate(r, run.app, run.cfg.errorsDefinitions),
        v => BuildOperation(run.cfg, run.app, run.hasSecurity, r, v))
  }

  function RouteJobs(run: Run, routes: seq<RouteRecord>): (js: seq<Job>)
    requires Definitions.WellFormedApp(run.app)
    ensures |js| == |routes|
    ensures forall i :: 0 <= i < |routes| ==> js[i] == RouteJob(run, routes[i])
  {
    seq(|routes|, i requires 0 <= i < |routes| => RouteJob(run, routes[i]))
  }

  /** The security step of `generate`: definitions are written only when
      `parseSecurity` is set and the Passport routes exist; only then can the
      flow be refused. */
  function SecurityStage(cfg: GeneratorConfig, routes: seq<RouteRecord>, scopes: OMap<string, string>)
    : (res: Result<Option<OMap<string, Scheme>>, Exception>)
    ensures res.Failure? <==> cfg.parseSecurity && HasOAuthRoutes(routes) && cfg.authFlow !in OAuthFlows
    ensures res.Failure? ==> res.error == LaravelSwaggerException("Invalid OAuth flow passed")
    ensures res.Success? ==> (res.value.Some? <==> cfg.parseSecurity && HasOAuthRoutes(routes))
    ensures res.Success? && res.value.Some? ==> GeneratorSecurityDefinitions(cfg, scopes) == Success(res.value.value)
  {
    if cfg.parseSecurity && HasOAuthRoutes(routes) then
      var defs :- GeneratorSecurityDefinitions(cfg, scopes);
      Success(Some(defs))
    else Success(None)
  }

  /** The routes `generate` documents. */
  function Kept(cfg: GeneratorConfig, routes: seq<RouteRecord>, filter: Option<string>): seq<RouteRecord> {
    AppRoutes(routes, cfg.ignoredRoutes, filter)
  }

  /** The run of `generate` once its security step has succeeded. */
  function RunOf(cfg: GeneratorConfig, app: App, routes: seq<RouteRecord>): Run {
    Run(cfg, app, cfg.parseSecurity && HasOAuthRoutes(routes))
  }

  /** The route walk of one run, from an empty document. */
  function Walk(run: Run, kept: seq<RouteRecord>): Result<Assembly, Exception>
    requires Definitions.WellFormedApp(run.app)
  {
    AddJobs(run.cfg.ignoredMethods, Assembly([], []), RouteJobs(run, kept))
  }

  /** `generate`: the base info, the security definitions, then one path key
      per kept route and one operation per verb that is not ignored. The
      whole document is abandoned when a step throws. */
  function Generate(cfg: GeneratorConfig, app: App, routes: seq<RouteRecord>, filter: Option<string>, scopes: OMap<string, string>)
    : (res: Result<Document, Exception>)
    requires Definitions.WellFormedApp(app)
    ensures res.Success? ==> res.value.(paths := [], definitions := [], securityDefinitions := None) == BaseInfo(cfg)
    ensures res.Success? ==> UniqueKeys(res.value.paths) && UniqueKeys(res.value.definitions)
    ensures res.Success? ==> (res.value.securityDefinitions.Some? <==> cfg.parseSecurity && HasOAuthRoutes(routes))
  {
    var security :- SecurityStage(cfg, routes, scopes);
    var run := Run(cfg, app, security.Some?);
    var asm :- Walk(run, Kept(cfg, routes, filter));
    Success(BaseInfo(cfg).(paths := asm.paths, definitions := asm.definitions, securityDefinitions := security))
  }

  /** Each route's job carries that route's key, verbs, definitions and
      operations. */
  lemma RouteJobsAgree(run: Run, kept: seq<RouteRecord>)
    requires Definitions.WellFormedApp(run.app)
    ensures var jobs := RouteJobs(run, kept);
            forall i :: 0 <= i < |kept| ==>
              && jobs[i].key == RouteUri(run.cfg.basePath, kept[i])
              && (AnyDocumented(run.cfg.ignoredMethods, jobs[i].verbs) <==> HasOperation(run.cfg, kept[i]))
              && jobs[i].generated == Definitions.Generate(kept[i], run.app, run.cfg.errorsDefinitions)
              && (forall v :: jobs[i].op(v) == BuildOperation(run.cfg, run.app, run.hasSecurity, kept[i], v))
              && (forall k, v :: JobWrites(run.cfg.ignoredMethods, jobs[i], k, v) <==> Writes(run.cfg, kept[i], k, v))
  {
  }

  /** Past the security step, `generate` is the route walk. */
  lemma GenerateUnfold(cfg: GeneratorConfig, app: App, routes: seq<RouteRecord>, filter: Option<string>, scopes: OMap<string, string>)
    requires Definitions.WellFormedApp(app) && SecurityStage(cfg, routes, scopes).Success?
    ensures var res := Generate(cfg, app, routes, filter, scopes);
            var asm := Walk(RunOf(cfg, app, routes), Kept(cfg, routes, filter));
            && (res.Success? <==> asm.Success?)
            && (asm.Failure? ==> res.error == asm.error)
            && (asm.Success? ==> res.value.paths == asm.value.paths && res.value.definitions == asm.value.definitions)
  {
  }

  /** `generate` throws exactly when the OAuth flow is refused or some kept
      route with a documented verb cannot build its definitions. */
  lemma GenerateOutcome(cfg: GeneratorConfig, app: App, routes: seq<RouteRecord>, filter: Option<string>, scopes: OMap<string, string>)
    requires Definitions.WellFormedApp(app)
    ensures var kept := Kept(cfg, routes, filter);
            Generate(cfg, app, routes, filter, scopes).Failure? <==>
              (SecurityStage(cfg, routes, scopes).Failure? ||
               exists i :: 0 <= i < |kept| && HasOperation(cfg, kept[i]) && RouteDefinitions(cfg, app, kept[i]).Failure?)
  {
    var kept := Kept(cfg, routes, filter);
    if SecurityStage(cfg, routes, scopes).Success? {
      var jobs := RouteJobs(RunOf(cfg, app, routes), kept);
      GenerateUnfold(cfg, app, routes, filter, scopes);
      RouteJobsAgree(RunOf(cfg, app, routes), kept);
      AddJobsOutcome(cfg.ignoredMethods, Assembly([], []), jobs);
    }
  }

  /** The error `generate` throws: the refused flow, or else the error of
      the first kept route whose definitions fail. */
  lemma GenerateError(cfg: GeneratorConfig, app: App, routes: seq<RouteRecord>, filter: Option<string>, scopes: OMap<string, string>)
    requires Definitions.WellFormedApp(app) && Generate(cfg, app, routes, filter, scopes).Failure?
    ensures var kept := Kept(cfg, routes, filter);
            var err := Generate(cfg, app, routes, filter, scopes).error;
            if SecurityStage(cfg, routes, scopes).Failure? then err == LaravelSwaggerException("Invalid OAuth flow passed")
            else exists i :: 0 <= i < |kept| && HasOperation(cfg, kept[i]) && RouteDefinitions(cfg, app, kept[i]).Failure?
                             && err == RouteDefinitions(cfg, app, kept[i]).error
                             && forall j :: 0 <= j < i ==> !(HasOperation(cfg, kept[j]) && RouteDefinitions(cfg, app, kept[j]).Failure?)
  {
    var kept := Kept(cfg, routes, filter);
    if SecurityStage(cfg, routes, scopes).Success? {
      var jobs := RouteJobs(RunOf(cfg, app, routes), kept);
      GenerateUnfold(cfg, app, routes, filter, scopes);
      RouteJobsAgree(RunOf(cfg, app, routes), kept);
      AddJobsError(cfg.ignoredMethods, Assembly([], []), jobs);
    }
  }

  /** A key belongs to some route's job exactly when it is some route's
      path key. */
  lemma RouteJobsKeys(run: Run, kept: seq<RouteRecord>, k: string)
    requires Definitions.WellFormedApp(run.app)
    ensures (exists i :: 0 <= i < |kept| && RouteJobs(run, kept)[i].key == k) <==>
            (exists i :: 0 <= i < |kept| && RouteUri(run.cfg.basePath, kept[i]) == k)
  {
    var jobs := RouteJobs(run, kept);
    if exists i :: 0 <= i < |kept| && jobs[i].key == k {
      var i :| 0 <= i < |kept| && jobs[i].key == k;
      assert RouteUri(run.cfg.basePath, kept[i]) == k;
    }
    if exists i :: 0 <= i < |kept| && RouteUri(run.cfg.basePath, kept[i]) == k {
      var i :| 0 <= i < |kept| && RouteUri(run.cfg.basePath, kept[i]) == k;
      assert jobs[i].key == k;
    }
  }

  /** Some route's job writes a verb under a key exactly when some route
      does. */
  lemma RouteJobsWrites(run: Run, kept: seq<RouteRecord>, k: string, v: string)
    requires Definitions.WellFormedApp(run.app)
    ensures (exists i :: 0 <= i < |kept| && JobWrites(run.cfg.ignoredMethods, RouteJobs(run, kept)[i], k, v)) <==>
            (exists i :: 0 <= i < |kept| && Writes(run.cfg, kept[i], k, v))
  {
    var jobs := RouteJobs(run, kept);
    if exists i :: 0 <= i < |kept| && JobWrites(run.cfg.ignoredMethods, jobs[i], k, v) {
      var i :| 0 <= i < |kept| && JobWrites(run.cfg.ignoredMethods, jobs[i], k, v);
      assert Writes(run.cfg, kept[i], k, v);
    }
    if exists i :: 0 <= i < |kept| && Writes(run.cfg, kept[i], k, v) {
      var i :| 0 <= i < |kept| && Writes(run.cfg, kept[i], k, v);
      assert JobWrites(run.cfg.ignoredMethods, jobs[i], k, v);
    }
  }

  lemma WalkPathKey(run: Run, kept: seq<RouteRecord>, k: string)
    requires Definitions.WellFormedApp(run.app) && Walk(run, kept).Success?
    ensures k in Keys(Walk(run, kept).value.paths) <==> exists i :: 0 <= i < |kept| && RouteUri(run.cfg.basePath, kept[i]) == k
  {
    AddJobsPathKey(run.cfg.ignoredMethods, Assembly([], []), RouteJobs(run, kept), k);
    RouteJobsKeys(run, kept, k);
  }

  lemma WalkWrite(run: Run, kept: seq<RouteRecord>, k: string, v: string)
    requires Definitions.WellFormedApp(run.app) && Walk(run, kept).Success?
    ensures OpAt(Walk(run, kept).value.paths, k, v).Some? <==> exists i :: 0 <= i < |kept| && Writes(run.cfg, kept[i], k, v)
  {
    AddJobsWrite(run.cfg.ignoredMethods, Assembly([], []), RouteJobs(run, kept), k, v);
    RouteJobsWrites(run, kept, k, v);
  }

  lemma WalkDefinitionName(run: Run, kept: seq<RouteRecord>, k: string)
    requires Definitions.WellFormedApp(run.app) && Walk(run, kept).Success?
    ensures k in Keys(Walk(run, kept).value.definitions) <==> exists i :: 0 <= i < |kept| && Supplies(run.cfg, run.app, kept[i], k)
  {
    AddJobsDefinitionName(run.cfg.ignoredMethods, Assembly([], []), RouteJobs(run, kept), k);
    RouteJobsSupply(run, kept, k);
  }

  /** The path keys are those of the kept routes. */
  lemma GeneratePathKeys(cfg: GeneratorConfig, app: App, routes: seq<RouteRecord>, filter: Option<string>, scopes: OMap<string, string>)
    requires Definitions.WellFormedApp(app) && Generate(cfg, app, routes, filter, scopes).Success?
    ensures var kept := Kept(cfg, routes, filter);
            var paths := Generate(cfg, app, routes, filter, scopes).value.paths;
            forall k :: k in Keys(paths) <==> exists i :: 0 <= i < |kept| && RouteUri(cfg.basePath, kept[i]) == k
  {
    var kept := Kept(cfg, routes, filter);
    var run := RunOf(cfg, app, routes);
    GenerateUnfoldPaths(cfg, app, routes, filter, scopes);
    var paths := Generate(cfg, app, routes, filter, scopes).value.paths;
    forall k ensures k in Keys(paths) <==> exists i :: 0 <= i < |kept| && RouteUri(cfg.basePath, kept[i]) == k {
      WalkPathKey(run, kept, k);
    }
  }

  /** A verb is documented under a key exactly when a kept route with that
      key has the verb and does not ignore it: ignored methods never
      appear. */
  lemma GenerateVerbs(cfg: GeneratorConfig, app: App, routes: seq<RouteRecord>, filter: Option<string>, scopes: OMap<string, string>)
    requires Definitions.WellFormedApp(app) && Generate(cfg, app, routes, filter, scopes).Success?
    ensures var kept := Kept(cfg, routes, filter);
            var paths := Generate(cfg, app, routes, filter, scopes).value.paths;
            && (forall k, v :: OpAt(paths, k, v).Some? <==> exists i :: 0 <= i < |kept| && Writes(cfg, kept[i], k, v))
            && (forall k, v :: v in cfg.ignoredMethods ==> OpAt(paths, k, v).None?)
  {
    var kept := Kept(cfg, routes, filter);
    var run := RunOf(cfg, app, routes);
    GenerateUnfoldPaths(cfg, app, routes, filter, scopes);
    var paths := Generate(cfg, app, routes, filter, scopes).value.paths;
    forall k, v ensures OpAt(paths, k, v).Some? <==> exists i :: 0 <= i < |kept| && Writes(cfg, kept[i], k, v) {
      WalkWrite(run, kept, k, v);
    }
  }

  /** The operation under a key and verb is the one the last kept route
      writing it builds; it carries `security` exactly when security
      definitions were written. */
  lemma GenerateOperation(cfg: GeneratorConfig, app: App, routes: seq<RouteRecord>, filter: Option<string>,
                          scopes: OMap<string, string>, w: nat, v: string)
    requires Definitions.WellFormedApp(app) && Generate(cfg, app, routes, filter, scopes).Success?
    requires var kept := Kept(cfg, routes, filter);
             && w < |kept| && Writes(cfg, kept[w], RouteUri(cfg.basePath, kept[w]), v)
             && forall i :: w < i < |kept| ==> !Writes(cfg, kept[i], RouteUri(cfg.basePath, kept[w]), v)
    ensures var kept := Kept(cfg, routes, filter);
            var paths := Generate(cfg, app, routes, filter, scopes).value.paths;
            OpAt(paths, RouteUri(cfg.basePath, kept[w]), v)
              == Some(BuildOperation(cfg, app, cfg.parseSecurity && HasOAuthRoutes(routes), kept[w], v))
  {
    var kept := Kept(cfg, routes, filter);
    var run := RunOf(cfg, app, routes);
    var jobs := RouteJobs(run, kept);
    GenerateUnfold(cfg, app, routes, filter, scopes);
    RouteJobsAgree(run, kept);
    AddJobsLastWriter(cfg.ignoredMethods, Assembly([], []), jobs, w, v);
  }

  lemma RouteJobSupplies(run: Run, r: RouteRecord, k: string)
    requires Definitions.WellFormedApp(run.app)
    ensures JobSupplies(run.cfg.ignoredMethods, RouteJob(run, r), k) <==> Supplies(run.cfg, run.app, r, k)
  {
  }

  /** Some route's job supplies a definition name exactly when some route
      with a documented verb does. */
  lemma RouteJobsSupply(run: Run, kept: seq<RouteRecord>, k: string)
    requires Definitions.WellFormedApp(run.app)
    ensures (exists i :: 0 <= i < |kept| && JobSupplies(run.cfg.ignoredMethods, RouteJobs(run, kept)[i], k)) <==>
            (exists i :: 0 <= i < |kept| && Supplies(run.cfg, run.app, kept[i], k))
  {
    var jobs := RouteJobs(run, kept);
    if exists i :: 0 <= i < |kept| && JobSupplies(run.cfg.ignoredMethods, jobs[i], k) {
      var i :| 0 <= i < |kept| && JobSupplies(run.cfg.ignoredMethods, jobs[i], k);
      RouteJobSupplies(run, kept[i], k);
    }
    if exists i :: 0 <= i < |kept| && Supplies(run.cfg, run.app, kept[i], k) {
      var i :| 0 <= i < |kept| && Supplies(run.cfg, run.app, kept[i], k);
      RouteJobSupplies(run, kept[i], k);
    }
  }

  /** The definitions are those of the kept routes with a documented verb:
      a name is present exactly when one of them supplies it. */
  lemma GenerateDefinitionName(cfg: GeneratorConfig, app: App, routes: seq<RouteRecord>, filter: Option<string>,
                               scopes: OMap<string, string>, k: string)
    requires Definitions.WellFormedApp(app) && Generate(cfg, app, routes, filter, scopes).Success?
    ensures var kept := Kept(cfg, routes, filter);
            var defs := Generate(cfg, app, routes, filter, scopes).value.definitions;
            k in Keys(defs) <==> exists i :: 0 <= i < |kept| && Supplies(cfg, app, kept[i], k)
  {
    var run := RunOf(cfg, app, routes);
    var kept := Kept(cfg, routes, filter);
    GenerateUnfoldDefinitions(cfg, app, routes, filter, scopes);
    assert Walk(run, kept) == AddJobs(cfg.ignoredMethods, Assembly([], []), RouteJobs(run, kept));
    WalkDefinitionName(run, kept, k);
  }

  /** A definition name keeps the value given by the first kept route with a
      documented verb that supplies it. */
  lemma GenerateFirstDefinition(cfg: GeneratorConfig, app: App, routes: seq<RouteRecord>, filter: Option<string>,
                                scopes: OMap<string, string>, w: nat, k: string)
    requires Definitions.WellFormedApp(app) && Generate(cfg, app, routes, filter, scopes).Success?
    requires var kept := Kept(cfg, routes, filter);
             && w < |kept| && Supplies(cfg, app, kept[w], k)
             && forall i :: 0 <= i < w ==> !Supplies(cfg, app, kept[i], k)
    ensures var kept := Kept(cfg, routes, filter);
            Get(Generate(cfg, app, routes, filter, scopes).value.definitions, k)
              == Get(RouteDefinitions(cfg, app, kept[w]).value, k)
  {
    var kept := Kept(cfg, routes, filter);
    var jobs := RouteJobs(RunOf(cfg, app, routes), kept);
    GenerateUnfold(cfg, app, routes, filter, scopes);
    assert jobs[w].generated == RouteDefinitions(cfg, app, kept[w]);
    forall i | 0 <= i < w ensures !JobSupplies(cfg.ignoredMethods, jobs[i], k) {
      assert jobs[i].generated == RouteDefinitions(cfg, app, kept[i]);
    }
    AddJobsFirstDefinition(cfg.ignoredMethods, Assembly([], []), jobs, w, k);
  }
}
