/** `DataObjects\Route`: the package's view of one Laravel route. Reflection and
    docblock parsing are replaced by the values they produce, recorded in
    `RouteRecord` and `App`. */
module Route {

  import opened Wrappers
  import opened Errors
  import opened Strings
  import opened Helpers
  import MW = Middleware
  import opened Rules
  import opened Models

  /** The summary, description and `@deprecated` flag phpDocumentor reads from a
      docblock. */
  datatype DocSummary = DocSummary(summary: string, description: string, deprecated: bool)

  /** A `Class@method` action, as reflection sees it. Tag lists hold the string
      form of each tag, in docblock order. */
  datatype ControllerAction = ControllerAction(
    docBlock: string,                       // the method's doc comment, "" if none
    parsedDoc: Option<DocSummary>,          // None when the docblock does not parse
    throwsTags: seq<string>,                // `@throws` tags of the method docblock
    modelTags: seq<string>,                 // `@model` tags of the method docblock
    classDocBlock: string,                  // the controller's doc comment, "" if none
    classModelTags: seq<string>,            // `@model` tags of the controller docblock
    parameterClasses: seq<Option<string>>)  // declared class of each method parameter

  /** A route: its URI as registered, its HTTP verbs as Laravel reports them
      (upper case), its name, its middleware strings, and its action (None for a
      closure). */
  datatype RouteRecord = RouteRecord(
    uri: string,
    methods: seq<string>,
    name: Option<string>,
    middleware: seq<string>,
    action: Option<ControllerAction>)

  /** The application around the routes: which classes are Eloquent models (with
      what they report), which are form requests (with their `rules()`), and the
      router's middleware alias map. */
  datatype App = App(
    models: map<string, ModelInfo>,
    formRequests: map<string, RuleMap>,
    middlewareAliases: map<string, string>)

  const ValidationExceptionClass: string := "Illuminate\\Validation\\ValidationException"
  const AuthenticationExceptionClass: string := "Illuminate\\Auth\\AuthenticationException"
  const ModelClass: string := "Illuminate\\Database\\Eloquent\\Model"

  /** `getOriginalUri`: the URI with a leading `/`, added only when missing. */
  function OriginalUri(r: RouteRecord): (u: string)
    ensures |u| > 0 && u[0] == '/'
    ensures "/" <= r.uri ==> u == r.uri
    ensures !("/" <= r.uri) ==> u == "/" + r.uri
  {
    if "/" <= r.uri then r.uri else "/" + r.uri
  }

  /** Normalising an already normalised URI changes nothing. */
  lemma OriginalUriIdempotent(r: RouteRecord)
    ensures OriginalUri(r.(uri := OriginalUri(r))) == OriginalUri(r)
  {
    assert "/" <= OriginalUri(r);
  }

  /** `getUri`: the original URI without any `?` optional marker. */
  function Uri(r: RouteRecord): (u: string)
    ensures u == StripOptionalChar(OriginalUri(r))
    ensures '?' !in u
    ensures |u| > 0 && u[0] == '/'
    ensures '?' !in r.uri ==> u == OriginalUri(r)
  {
    var o := OriginalUri(r);
    assert o == "/" + o[1..];
    RemoveCharAppend("/", o[1..], '?');
    StripOptionalChar(o)
  }

  /** The worked examples: `path/{user_id?}` is prefixed, and `/path/{user_id?}`
      loses its marker. */
  lemma UriExamples()
    ensures OriginalUri(RouteRecord("path/{user_id?}", [], None, [], None)) == "/path/{user_id?}"
    ensures Uri(RouteRecord("/path/{user_id?}", [], None, [], None)) == "/path/{user_id}"
  {
    assert "path/{user_id?}"[0] == 'p';
    UriExample();
  }

  lemma UriExample()
    ensures Uri(RouteRecord("/path/{user_id?}", [], None, [], None)) == "/path/{user_id}"
  {
    var r := RouteRecord("/path/{user_id?}", [], None, [], None);
    assert "/" <= r.uri;
    var head := "/path/{user_id";
    assert '?' !in head;
    assert RemoveChar("?", '?') == "";
    assert RemoveChar("}", '?') == "}";
    assert r.uri == head + ("?" + "}");
    RemoveCharAppend(head, "?" + "}", '?');
    RemoveCharAppend("?", "}", '?');
  }

  /** `getMethods`: every verb lower-cased, in order. */
  function Methods(r: RouteRecord): (ms: seq<string>)
    ensures |ms| == |r.methods|
    ensures forall i :: 0 <= i < |ms| ==> ms[i] == ToLower(r.methods[i])
  {
    seq(|r.methods|, i requires 0 <= i < |r.methods| => ToLower(r.methods[i]))
  }

  /** Every verb `getMethods` reports is lower case. */
  lemma MethodsAreLowerCase(r: RouteRecord, i: nat)
    requires i < |Methods(r)|
    ensures forall k :: 0 <= k < |Methods(r)[i]| ==> !('A' <= Methods(r)[i][k] <= 'Z')
  {
  }

  /** Every element except `head`, in order (`array_filter` with `!== 'head'`). */
  function DropHead(ms: seq<string>): (r: seq<string>)
    ensures "head" !in r
    ensures forall x :: x in r <==> x in ms && x != "head"
    ensures "head" !in ms ==> r == ms
    ensures |r| <= |ms|
  {
    if |ms| == 0 then []
    else if ms[0] == "head" then DropHead(ms[1..])
    else
      assert ms == [ms[0]] + ms[1..];
      [ms[0]] + DropHead(ms[1..])
  }

  /** Dropping `head` keeps the relative order: it works piecewise. */
  lemma {:induction false} DropHeadAppend(a: seq<string>, b: seq<string>)
    ensures DropHead(a + b) == DropHead(a) + DropHead(b)
    decreases |a|
  {
    if |a| == 0 {
      assert a + b == b;
    } else {
      assert (a + b)[0] == a[0];
      assert (a + b)[1..] == a[1..] + b;
      DropHeadAppend(a[1..], b);
    }
  }

  /** `getActionMethods`: the verbs other than `head`. */
  function ActionMethods(r: RouteRecord): (ms: seq<string>)
    ensures "head" !in ms
    ensures forall x :: x in ms <==> x in Methods(r) && x != "head"
  {
    DropHead(Methods(r))
  }

  /** `GET, POST, HEAD` gives the action methods `get, post`. */
  lemma ActionMethodsExample()
    ensures ActionMethods(RouteRecord("/", ["GET", "POST", "HEAD"], None, [], None)) == ["get", "post"]
  {
    var r := RouteRecord("/", ["GET", "POST", "HEAD"], None, [], None);
    assert ToLower("GET") == "get" by {
      forall i | 0 <= i < 3 ensures ToLower("GET")[i] == "get"[i] { }
    }
    assert ToLower("POST") == "post" by {
      forall i | 0 <= i < 4 ensures ToLower("POST")[i] == "post"[i] { }
    }
    assert ToLower("HEAD") == "head" by {
      forall i | 0 <= i < 4 ensures ToLower("HEAD")[i] == "head"[i] { }
    }
    assert Methods(r) == ["get", "post", "head"];
    assert Methods(r) == ["get"] + ["post"] + ["head"];
    DropHeadAppend(["get"] + ["post"], ["head"]);
    DropHeadAppend(["get"], ["post"]);
  }

  /** The truthy elements, in order (`array_values(array_filter($values))`). */
  function Truthy(vs: seq<string>): (r: seq<string>)
    ensures forall x :: x in r <==> x in vs && !Falsy(x)
    ensures |r| <= |vs|
  {
    if |vs| == 0 then []
    else if Falsy(vs[0]) then Truthy(vs[1..])
    else
      assert vs == [vs[0]] + vs[1..];
      [vs[0]] + Truthy(vs[1..])
  }

  /** `_getTagValuesForDocblock`: no values for an empty docblock, otherwise the
      non-empty tag strings. */
  function TagValues(docBlock: string, tags: seq<string>): (vs: seq<string>)
    ensures Falsy(docBlock) ==> vs == []
    ensures forall x :: x in vs <==> !Falsy(docBlock) && x in tags && !Falsy(x)
  {
    if Falsy(docBlock) then [] else Truthy(tags)
  }

  /** `array_values(array_filter(...))` keeps the order: filtering a
      concatenation filters each part in place. */
  lemma {:induction false} TruthyAppend(a: seq<string>, b: seq<string>)
    ensures Truthy(a + b) == Truthy(a) + Truthy(b)
    decreases |a|
  {
    if |a| == 0 {
      assert a + b == b;
    } else {
      assert (a + b)[0] == a[0];
      assert (a + b)[1..] == a[1..] + b;
      TruthyAppend(a[1..], b);
    }
  }

  /** The first tag value is the first non-empty tag of a non-empty docblock. */
  lemma TagValuesFirst(docBlock: string, tags: seq<string>, i: nat)
    requires !Falsy(docBlock) && i < |tags| && !Falsy(tags[i])
    requires forall j :: 0 <= j < i ==> Falsy(tags[j])
    ensures |TagValues(docBlock, tags)| > 0 && TagValues(docBlock, tags)[0] == tags[i]
  {
    assert tags == tags[..i] + tags[i..];
    TruthyAppend(tags[..i], tags[i..]);
    TruthyAllFalsy(tags[..i]);
    assert tags[i..][0] == tags[i];
  }

  /** Only empty values leave nothing. */
  lemma {:induction false} TruthyAllFalsy(vs: seq<string>)
    requires forall j :: 0 <= j < |vs| ==> Falsy(vs[j])
    ensures Truthy(vs) == []
    decreases |vs|
  {
    if |vs| > 0 {
      TruthyAllFalsy(vs[1..]);
    }
  }

  /** The characters `trim(trim($e), '\\')` removes at the outer step. */
  const Backslash: set<char> := {'\\'}

  /** Neither end is a backslash. */
  predicate NoEdgeBackslash(n: string) {
    |n| == 0 || (n[0] != '\\' && n[|n| - 1] != '\\')
  }

  /** One `@throws` value: whitespace trimmed, then backslashes. */
  function NormalizeThrow(e: string): (n: string)
    ensures NoEdgeBackslash(n)
  {
    var r := Trim(Trim(e, Whitespace), Backslash);
    TrimSpec(Trim(e, Whitespace), Backslash);
    r
  }

  function MapNormalizeThrow(es: seq<string>): (ns: seq<string>)
    ensures |ns| == |es|
    ensures forall i :: 0 <= i < |es| ==> ns[i] == NormalizeThrow(es[i])
    ensures forall i :: 0 <= i < |ns| ==> NoEdgeBackslash(ns[i])
  {
    if |es| == 0 then [] else [NormalizeThrow(es[0])] + MapNormalizeThrow(es[1..])
  }

  /** The normalised values are exactly the normalisations of the raw values. */
  lemma MapNormalizeThrowMembers(es: seq<string>)
    ensures forall x :: x in MapNormalizeThrow(es) <==> exists e :: e in es && NormalizeThrow(e) == x
  {
    var ns := MapNormalizeThrow(es);
    forall x | x in ns
      ensures exists e :: e in es && NormalizeThrow(e) == x
    {
      var i :| 0 <= i < |ns| && ns[i] == x;
      assert es[i] in es;
    }
    forall e | e in es
      ensures NormalizeThrow(e) in ns
    {
      var i :| 0 <= i < |es| && es[i] == e;
      assert ns[i] == NormalizeThrow(e);
    }
  }

  /** The `@throws` values of the action's docblock. */
  function ThrowsTags(r: RouteRecord): seq<string> {
    match r.action
    case None => []
    case Some(a) => TagValues(a.docBlock, a.throwsTags)
  }

  /** `getThrows`: the normalised `@throws` values, each once, first occurrence
      first. */
  function Throws(r: RouteRecord): (ts: seq<string>)
    ensures Distinct(ts)
    ensures forall x :: x in ts <==> exists e :: e in ThrowsTags(r) && NormalizeThrow(e) == x
    ensures forall i :: 0 <= i < |ts| ==> NoEdgeBackslash(ts[i])
    ensures r.action.None? ==> ts == []
  {
    var ns := MapNormalizeThrow(ThrowsTags(r));
    MapNormalizeThrowMembers(ThrowsTags(r));
    var ts := Dedup(ns);
    forall i | 0 <= i < |ts|
      ensures NoEdgeBackslash(ts[i])
    {
      assert ts[i] in ns;
    }
    ts
  }

  /** `_getModelNameFromMethodDocs() ?? _getModelNameFromControllerDocs()`: the
      first `@model` of the method docblock, else the first of the controller
      docblock. A closure has neither. */
  function ModelName(r: RouteRecord): (m: Option<string>)
    ensures r.action.None? ==> m.None?
    ensures m.Some? ==> !Falsy(m.value)
  {
    match r.action
    case None => None
    case Some(a) =>
      var own := TagValues(a.docBlock, a.modelTags);
      if |own| > 0 then
        assert own[0] in own;
        Some(own[0])
      else
        var inherited := TagValues(a.classDocBlock, a.classModelTags);
        if |inherited| > 0 then
          assert inherited[0] in inherited;
          Some(inherited[0])
        else None
  }

  /** A method-level `@model` wins: whatever the controller's docblock says, the
      name is the method's first `@model`. */
  lemma ModelNameMethodWins(a: ControllerAction, r: RouteRecord, classDoc: string, classTags: seq<string>)
    requires r.action == Some(a)
    requires |TagValues(a.docBlock, a.modelTags)| > 0
    ensures ModelName(r) == Some(TagValues(a.docBlock, a.modelTags)[0])
    ensures ModelName(r.(action := Some(a.(classDocBlock := classDoc, classModelTags := classTags)))) == ModelName(r)
  {
  }

  /** Without a method-level `@model`, the controller's first `@model` is used;
      with neither, there is no model. */
  lemma ModelNameFallback(a: ControllerAction, r: RouteRecord)
    requires r.action == Some(a)
    requires |TagValues(a.docBlock, a.modelTags)| == 0
    ensures |TagValues(a.classDocBlock, a.classModelTags)| > 0 ==>
              ModelName(r) == Some(TagValues(a.classDocBlock, a.classModelTags)[0])
    ensures |TagValues(a.classDocBlock, a.classModelTags)| == 0 ==> ModelName(r).None?
  {
  }

  /** The model is named by the first non-empty `@model` tag of a non-empty
      method docblock, wherever it stands among the tags. */
  lemma ModelNameFirstTag(a: ControllerAction, r: RouteRecord, i: nat)
    requires r.action == Some(a)
    requires !Falsy(a.docBlock) && i < |a.modelTags| && !Falsy(a.modelTags[i])
    requires forall j :: 0 <= j < i ==> Falsy(a.modelTags[j])
    ensures ModelName(r) == Some(a.modelTags[i])
  {
    TagValuesFirst(a.docBlock, a.modelTags, i);
  }

  /** `getModel`: no name gives no model; a name that is not a model class is an
      error; otherwise the model class. */
  function GetModel(r: RouteRecord, app: App): (res: Result<Option<string>, Exception>)
    ensures res == Success(None) <==> ModelName(r).None?
    ensures res.Success? && res.value.Some? ==> res.value == ModelName(r) && res.value.value in app.models
    ensures res.Failure? <==> ModelName(r).Some? && ModelName(r).value !in app.models
    ensures res.Failure? ==> res.error.LaravelSwaggerException?
  {
    match ModelName(r)
    case None => Success(None)
    case Some(n) =>
      if n in app.models then Success(Some(n))
      else Failure(LaravelSwaggerException(n + " @model must be an instance of [" + ModelClass + "]"))
  }

  /** The first parameter class that is a form request. */
  function FirstFormRequest(params: seq<Option<string>>, formRequests: map<string, RuleMap>): (c: Option<string>)
    ensures c.None? <==> forall i :: 0 <= i < |params| ==> params[i].None? || params[i].value !in formRequests
    ensures c.Some? ==> c.value in formRequests
    ensures c.Some? ==>
              (exists i :: 0 <= i < |params| && params[i] == c
                           && forall j :: 0 <= j < i ==> params[j].None? || params[j].value !in formRequests)
  {
    if |params| == 0 then None
    else if params[0].Some? && params[0].value in formRequests then params[0]
    else
      var c := FirstFormRequest(params[1..], formRequests);
      assert forall j :: 1 <= j < |params| ==> params[j] == params[1..][j - 1];
      if c.Some? then
        var i :| 0 <= i < |params[1..]| && params[1..][i] == c
                 && forall j :: 0 <= j < i ==> params[1..][j].None? || params[1..][j].value !in formRequests;
        assert params[i + 1] == c;
        c
      else c
  }

  /** `getFormRequestClassFromParams`: a closure has none; otherwise the first
      parameter whose class is a form request. */
  function FormRequestClass(r: RouteRecord, app: App): (c: Option<string>)
    ensures r.action.None? ==> c.None?
    ensures c.Some? ==> c.value in app.formRequests
    ensures r.action.Some? ==> c == FirstFormRequest(r.action.value.parameterClasses, app.formRequests)
  {
    match r.action
    case None => None
    case Some(a) => FirstFormRequest(a.parameterClasses, app.formRequests)
  }

  /** The rules of the action's form request, when it has one. */
  function FormRequestRules(r: RouteRecord, app: App): (rules: Option<RuleMap>)
    ensures rules.Some? <==> FormRequestClass(r, app).Some?
    ensures rules.Some? ==> rules.value == app.formRequests[FormRequestClass(r, app).value]
  {
    match FormRequestClass(r, app)
    case None => None
    case Some(c) => Some(app.formRequests[c])
  }

  /** `getMiddleware`: each gathered middleware string, parsed. */
  function MiddlewareList(r: RouteRecord): (ms: seq<MW.Middleware>)
    ensures |ms| == |r.middleware|
    ensures forall i :: 0 <= i < |ms| ==> ms[i] == MW.Parse(r.middleware[i])
  {
    seq(|r.middleware|, i requires 0 <= i < |r.middleware| => MW.Parse(r.middleware[i]))
  }

  /** Whether one of the middleware names contains `auth`. */
  function AnyAuth(mws: seq<string>): (b: bool)
    ensures b <==> exists i :: 0 <= i < |mws| && Contains(MW.Parse(mws[i]).name, "auth")
  {
    if |mws| == 0 then false
    else if Contains(MW.Parse(mws[0]).name, "auth") then true
    else
      assert forall i :: 1 <= i < |mws| ==> mws[i] == mws[1..][i - 1];
      AnyAuth(mws[1..])
  }

  /** `hasAuthMiddleware`: some middleware's name (not its parameters) contains
      `auth`. */
  function HasAuthMiddleware(r: RouteRecord): (b: bool)
    ensures b <==> exists i :: 0 <= i < |r.middleware| && Contains(MW.Parse(r.middleware[i]).name, "auth")
  {
    AnyAuth(r.middleware)
  }

  /** `getExceptions`: the throws, then the validation exception when a form
      request is present, then the authentication exception when auth
      middleware is present, each once. */
  function Exceptions(r: RouteRecord, app: App): (es: seq<string>)
    ensures Distinct(es)
    ensures Throws(r) <= es
    ensures forall x :: x in es <==>
              x in Throws(r)
              || (x == ValidationExceptionClass && FormRequestClass(r, app).Some?)
              || (x == AuthenticationExceptionClass && HasAuthMiddleware(r))
    ensures es == Throws(r)
                  + (if FormRequestClass(r, app).Some? && ValidationExceptionClass !in Throws(r)
                     then [ValidationExceptionClass] else [])
                  + (if HasAuthMiddleware(r) && AuthenticationExceptionClass !in Throws(r)
                     then [AuthenticationExceptionClass] else [])
  {
    DedupThrowsExtra(Throws(r), FormRequestClass(r, app).Some?, HasAuthMiddleware(r));
    Dedup(Throws(r) + ExtraExceptions(FormRequestClass(r, app).Some?, HasAuthMiddleware(r)))
  }

  /** The exceptions `getExceptions` appends to the throws, in order. */
  function ExtraExceptions(v: bool, au: bool): seq<string> {
    (if v then [ValidationExceptionClass] else []) + (if au then [AuthenticationExceptionClass] else [])
  }

  /** `array_unique` of the distinct throws followed by the appended
      exceptions. */
  lemma DedupThrowsExtra(ts: seq<string>, v: bool, au: bool)
    requires Distinct(ts)
    ensures var es := Dedup(ts + ExtraExceptions(v, au));
            && Distinct(es) && ts <= es
            && (forall x :: x in es <==>
                  x in ts || (x == ValidationExceptionClass && v) || (x == AuthenticationExceptionClass && au))
            && es == ts + (if v && ValidationExceptionClass !in ts then [ValidationExceptionClass] else [])
                        + (if au && AuthenticationExceptionClass !in ts then [AuthenticationExceptionClass] else [])
  {
    DedupDistinct(ts);
    DedupFromAppend(ts, ExtraExceptions(v, au), []);
    DedupSuffix(ts, v, au);
  }

  /** Deduplicating the two appended exceptions after the distinct throws:
      each is added once, validation before authentication, unless thrown
      already. */
  lemma DedupSuffix(ts: seq<string>, v: bool, au: bool)
    requires Distinct(ts)
    ensures DedupFrom((if v then [ValidationExceptionClass] else [])
                      + (if au then [AuthenticationExceptionClass] else []), ts)
            == ts + (if v && ValidationExceptionClass !in ts then [ValidationExceptionClass] else [])
                  + (if au && AuthenticationExceptionClass !in ts then [AuthenticationExceptionClass] else [])
  {
    var e1 := if v then [ValidationExceptionClass] else [];
    var e2 := if au then [AuthenticationExceptionClass] else [];
    DedupFromAppend(e1, e2, ts);
    var mid := DedupFrom(e1, ts);
    if v {
      assert e1[1..] == [];
    }
    assert mid == ts + (if v && ValidationExceptionClass !in ts then [ValidationExceptionClass] else []);
    if au {
      assert e2[1..] == [];
      assert AuthenticationExceptionClass in mid <==> AuthenticationExceptionClass in ts;
    }
  }
}
