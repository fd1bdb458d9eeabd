/** `SuccessResponseGenerator` and `ErrorResponseGenerator`: the `responses`
    object of one operation, keyed by HTTP status code. */
module Responses {

  import opened Wrappers
  import opened Errors
  import opened Strings
  import opened OrderedMap
  import opened Schema
  import opened Route

  /** One response object: a description and, optionally, a schema. */
  datatype Response = Response(description: string, schema: Option<Schema>)

  /** Responses by status code, in the order they were written. PHP turns the
      numeric string keys `'422'`, `'401'`, ... into integers, so all keys are
      integers here. */
  type ResponseMap = OMap<int, Response>

  // ---------------------------------------------------------------------------
  // Success responses
  // ---------------------------------------------------------------------------

  /** The status codes the success table can produce. */
  const SuccessCodes: set<int> := {200, 201, 204}

  /** `$methodMappingHttpCode[$verb]`: get, post, put and delete have a code;
      any other verb is an undefined index. */
  function SuccessCode(verb: string): (c: Option<int>)
    ensures c.Some? <==> verb in {"get", "post", "put", "delete"}
    ensures c.Some? ==> c.value in SuccessCodes
    ensures c == Some(204) <==> verb in {"put", "delete"}
  {
    if verb == "get" then Some(200)
    else if verb == "post" then Some(201)
    else if verb == "put" || verb == "delete" then Some(204)
    else None
  }

  /** `getDescriptionByHttpCode`: the reason phrase, `''` for any other code. */
  function SuccessDescription(code: int): (d: string)
    ensures code !in SuccessCodes ==> d == ""
    ensures code == 200 ==> d == "OK"
    ensures code == 201 ==> d == "Created"
    ensures code == 204 ==> d == "No Content"
  {
    if code == 200 then "OK"
    else if code == 201 then "Created"
    else if code == 204 then "No Content"
    else ""
  }

  /** The element under key 0 of the action methods. `array_filter` keeps the
      keys of the elements it keeps, so key 0 exists only when the first verb is
      not `head`: it is then the first action method, and otherwise it is
      missing even when other verbs remain. */
  function FirstActionMethod(r: RouteRecord): (v: Option<string>)
    ensures v.Some? <==> |Methods(r)| > 0 && Methods(r)[0] != "head"
    ensures v.Some? ==> |ActionMethods(r)| > 0 && v.value == ActionMethods(r)[0]
  {
    var ms := Methods(r);
    if |ms| == 0 || ms[0] == "head" then None
    else
      assert ms == [ms[0]] + ms[1..];
      Some(ms[0])
  }

  /** `isTypeArrayRoute`: the route's name contains `index`; a route without a
      name is not an array route. */
  predicate IsTypeArrayRoute(r: RouteRecord) {
    Contains(r.name.GetOr(""), "index")
  }

  /** `mountSchema`: none for 204; otherwise a reference to the model's
      definition, wrapped as an array for index routes. */
  function MountSchema(r: RouteRecord, code: int, model: string): (s: Option<Schema>)
    ensures s.None? <==> code == 204
    ensures s.Some? ==> s.value == ArrayOf(Ref(ClassBasename(model)), None) || s.value == Ref(ClassBasename(model))
    ensures s.Some? ==> (s.value.ArrayOf? <==> IsTypeArrayRoute(r))
  {
    if code == 204 then None
    else
      var ref := Ref(ClassBasename(model));
      if IsTypeArrayRoute(r) then Some(ArrayOf(ref, None)) else Some(ref)
  }

  /** `SuccessResponseGenerator::generate`. The code is looked up first, so a
      missing key 0 or an unmapped verb raises before the model is resolved;
      then a failing `@model` propagates; a route without a model has no
      success response. */
  function SuccessResponses(r: RouteRecord, app: App): (res: Result<ResponseMap, Exception>)
    ensures res.Failure? && res.error.ErrorException? <==>
              FirstActionMethod(r).None? || SuccessCode(FirstActionMethod(r).value).None?
    ensures FirstActionMethod(r).Some? && SuccessCode(FirstActionMethod(r).value).Some? ==>
              (res.Failure? <==> GetModel(r, app).Failure?)
    ensures res == Success([]) <==>
              FirstActionMethod(r).Some? && SuccessCode(FirstActionMethod(r).value).Some?
              && ModelName(r).None?
    ensures res.Success? ==> |res.value| <= 1
  {
    match FirstActionMethod(r)
    case None => Failure(ErrorException("Undefined offset: 0"))
    case Some(verb) =>
      match SuccessCode(verb)
      case None => Failure(ErrorException("Undefined index: " + verb))
      case Some(code) =>
        var model :- GetModel(r, app);
        if model.None? then Success([])
        else Success([(code, Response(SuccessDescription(code), MountSchema(r, code, model.value)))])
  }

  /** A route with a model and a mapped first verb has exactly one success
      response: under the verb's code, with that code's reason phrase, and with
      a schema referring to the model's definition unless the code is 204. */
  lemma SuccessResponseShape(r: RouteRecord, app: App)
    requires SuccessResponses(r, app).Success? && SuccessResponses(r, app).value != []
    ensures FirstActionMethod(r).Some? && SuccessCode(FirstActionMethod(r).value).Some?
    ensures GetModel(r, app).Success? && GetModel(r, app).value.Some?
    ensures var code := SuccessCode(FirstActionMethod(r).value).value;
            var model := GetModel(r, app).value.value;
            && Keys(SuccessResponses(r, app).value) == [code]
            && code in SuccessCodes
            && SuccessResponses(r, app).value[0].1.description == SuccessDescription(code)
            && SuccessResponses(r, app).value[0].1.schema == MountSchema(r, code, model)
            && model in app.models
  {
  }

  /** Only the first verb decides: verbs registered after it change nothing,
      so `Route::match(['GET', 'POST'])` documents only the GET response. */
  lemma SuccessResponsesIgnoreLaterVerbs(r: RouteRecord, app: App, more: seq<string>)
    requires |r.methods| > 0
    ensures SuccessResponses(r.(methods := r.methods + more), app) == SuccessResponses(r, app)
  {
    var r' := r.(methods := r.methods + more);
    assert Methods(r')[0] == Methods(r)[0];
    assert ModelName(r') == ModelName(r);
  }

  /** A route whose first verb is `head` has no key 0 among its action
      methods, even when it has other verbs. */
  lemma HeadFirstHasNoCode()
    ensures SuccessResponses(RouteRecord("/ping", ["HEAD", "GET"], None, [], None), App(map[], map[], map[]))
            == Failure(ErrorException("Undefined offset: 0"))
  {
    var r := RouteRecord("/ping", ["HEAD", "GET"], None, [], None);
    assert Methods(r)[0] == ToLower("HEAD");
    assert ToLower("HEAD") == "head" by {
      assert LowerChar('H') == 'h' && LowerChar('E') == 'e' && LowerChar('A') == 'a' && LowerChar('D') == 'd';
    }
  }

  // ---------------------------------------------------------------------------
  // Error responses
  // ---------------------------------------------------------------------------

  const ModelNotFoundExceptionClass: string := "Illuminate\\Database\\Eloquent\\ModelNotFoundException"
  const AuthorizationExceptionClass: string := "Illuminate\\Auth\\Access\\AuthorizationException"

  /** The characters `trim($exception, "\ \t\n\r\0\x0B")` strips: PHP keeps the
      backslash of the unknown escape `\ `, so the list is a backslash, a space
      and the usual whitespace. */
  const ThrowTrimChars: set<char> := {'\\', ' ', '\t', '\n', '\r', '\0', 11 as char}

  /** The status codes an error response can have. */
  const ErrorCodes: set<int> := {401, 403, 404, 422}

  /** The fixed response written for each error code. */
  function ErrorResponse(code: int): (resp: Response)
    requires code in ErrorCodes
    ensures code == 422 ==> resp == Response("Validation errors", Some(Ref("UnprocessableEntityError")))
    ensures code == 401 ==> resp == Response("Unauthenticated", Some(Ref("UnauthenticatedError")))
    ensures code == 404 ==> resp == Response("Model not found", Some(Ref("NotFoundError")))
    ensures code == 403 ==> resp == Response("Forbidden", Some(Ref("ForbiddenError")))
  {
    if code == 422 then Response("Validation errors", Some(Ref("UnprocessableEntityError")))
    else if code == 401 then Response("Unauthenticated", Some(Ref("UnauthenticatedError")))
    else if code == 404 then Response("Model not found", Some(Ref("NotFoundError")))
    else Response("Forbidden", Some(Ref("ForbiddenError")))
  }

  /** Every error code refers to a definition of its own. */
  lemma ErrorResponseRefsDistinct(c1: int, c2: int)
    requires c1 in ErrorCodes && c2 in ErrorCodes && c1 != c2
    ensures ErrorResponse(c1).schema.Some? && ErrorResponse(c1).schema.value.Ref?
    ensures ErrorResponse(c1).schema != ErrorResponse(c2).schema
    ensures ErrorResponse(c1).description != ErrorResponse(c2).description
  {
  }

  /** `$exceptionsResponse[trim($exception, ...)] ?? null`: the code of a
      thrown exception that the table knows. */
  function ThrowCode(e: string): (c: Option<int>)
    ensures c == Some(401) <==> Trim(e, ThrowTrimChars) == AuthenticationExceptionClass
    ensures c == Some(404) <==> Trim(e, ThrowTrimChars) == ModelNotFoundExceptionClass
    ensures c == Some(403) <==> Trim(e, ThrowTrimChars) == AuthorizationExceptionClass
    ensures c.Some? ==> c.value in ErrorCodes - {422}
  {
    var n := Trim(e, ThrowTrimChars);
    if n == AuthenticationExceptionClass then Some(401)
    else if n == ModelNotFoundExceptionClass then Some(404)
    else if n == AuthorizationExceptionClass then Some(403)
    else None
  }

  /** Some thrown exception maps to `code`. */
  predicate Thrown(ts: seq<string>, code: int) {
    exists i :: 0 <= i < |ts| && ThrowCode(ts[i]) == Some(code)
  }

  /** Every entry is the fixed response for its code. */
  predicate Canonical(m: ResponseMap) {
    forall k :: k in Keys(m) ==> k in ErrorCodes && Get(m, k) == Some(ErrorResponse(k))
  }

  /** The `foreach` over the throws with `$response += $responseDefinition`:
      the first writer of a code wins; unknown exceptions add nothing. */
  function AddThrowResponses(acc: ResponseMap, ts: seq<string>): (r: ResponseMap)
    ensures Keys(acc) <= Keys(r)
    ensures forall k :: k in Keys(r) <==> k in Keys(acc) || Thrown(ts, k)
    ensures Canonical(acc) ==> Canonical(r)
    ensures UniqueKeys(acc) ==> UniqueKeys(r)
    decreases |ts|
  {
    if |ts| == 0 then acc
    else
      var acc' := match ThrowCode(ts[0])
                  case None => acc
                  case Some(c) => PutAbsent(acc, c, ErrorResponse(c));
      var r := AddThrowResponses(acc', ts[1..]);
      ThrowStep(acc, ts, acc', r);
      r
  }

  /** One step of the throws loop, given what the rest of the loop does. */
  lemma ThrowStep(acc: ResponseMap, ts: seq<string>, acc': ResponseMap, r: ResponseMap)
    requires |ts| > 0
    requires acc' == match ThrowCode(ts[0])
                     case None => acc
                     case Some(c) => PutAbsent(acc, c, ErrorResponse(c))
    requires Keys(acc') <= Keys(r)
    requires forall k :: k in Keys(r) <==> k in Keys(acc') || Thrown(ts[1..], k)
    requires Canonical(acc') ==> Canonical(r)
    requires UniqueKeys(acc') ==> UniqueKeys(r)
    ensures Keys(acc) <= Keys(r)
    ensures forall k :: k in Keys(r) <==> k in Keys(acc) || Thrown(ts, k)
    ensures Canonical(acc) ==> Canonical(r)
    ensures UniqueKeys(acc) ==> UniqueKeys(r)
  {
    ThrownCons(ts);
    match ThrowCode(ts[0]) {
      case None =>
      case Some(c) =>
        assert Keys(acc) <= Keys(acc');
        PrefixTrans(Keys(acc), Keys(acc'), Keys(r));
        if Canonical(acc) {
          forall k | k in Keys(acc') ensures k in ErrorCodes && Get(acc', k) == Some(ErrorResponse(k)) {
            if k != c {
              assert Get(acc', k) == Get(acc, k);
            }
          }
        }
    }
  }

  lemma ThrownCons(ts: seq<string>)
    requires |ts| > 0
    ensures forall k :: Thrown(ts, k) <==> ThrowCode(ts[0]) == Some(k) || Thrown(ts[1..], k)
  {
    forall k | Thrown(ts[1..], k) ensures Thrown(ts, k) {
      var i :| 0 <= i < |ts[1..]| && ThrowCode(ts[1..][i]) == Some(k);
      assert ts[i + 1] == ts[1..][i];
    }
    forall k | Thrown(ts, k) && ThrowCode(ts[0]) != Some(k) ensures Thrown(ts[1..], k) {
      var i :| 0 <= i < |ts| && ThrowCode(ts[i]) == Some(k);
      assert ts[1..][i - 1] == ts[i];
    }
  }

  /** The responses before the throws are looked at: 422 for a form request. */
  function ValidationResponses(r: RouteRecord, app: App): (m: ResponseMap)
    ensures Keys(m) == if FormRequestClass(r, app).Some? then [422] else []
    ensures Canonical(m) && UniqueKeys(m)
  {
    if FormRequestClass(r, app).Some? then [(422, ErrorResponse(422))] else []
  }

  /** `ErrorResponseGenerator::generate`: 422 for a form request, then the
      codes of the known thrown exceptions (first writer wins), then 401 for
      auth middleware, which overwrites. */
  function ErrorResponses(r: RouteRecord, app: App): (m: ResponseMap)
    ensures UniqueKeys(m) && Canonical(m)
  {
    var withThrows := AddThrowResponses(ValidationResponses(r, app), Throws(r));
    if HasAuthMiddleware(r) then Put(withThrows, 401, ErrorResponse(401)) else withThrows
  }

  /** Which codes the error responses have, each with its fixed response: 422
      exactly for a form request; 401 for auth middleware or a thrown
      `AuthenticationException`; 403 and 404 exactly for a thrown
      `AuthorizationException` and `ModelNotFoundException`; nothing else.
      A form request's 422 comes first. */
  lemma ErrorResponseCodes(r: RouteRecord, app: App)
    ensures var m := ErrorResponses(r, app);
            && (forall k :: k in Keys(m) ==> k in ErrorCodes && Get(m, k) == Some(ErrorResponse(k)))
            && (422 in Keys(m) <==> FormRequestClass(r, app).Some?)
            && (401 in Keys(m) <==> HasAuthMiddleware(r) || Thrown(Throws(r), 401))
            && (403 in Keys(m) <==> Thrown(Throws(r), 403))
            && (404 in Keys(m) <==> Thrown(Throws(r), 404))
            && (FormRequestClass(r, app).Some? ==> Keys(m)[0] == 422)
  {
    var base := ValidationResponses(r, app);
    var withThrows := AddThrowResponses(base, Throws(r));
    assert !Thrown(Throws(r), 422);
    if FormRequestClass(r, app).Some? {
      assert Keys(withThrows)[0] == 422;
    }
  }

  /** The error responses are empty exactly when there is no form request, no
      auth middleware and no thrown exception the table knows. */
  lemma ErrorResponsesEmpty(r: RouteRecord, app: App)
    ensures ErrorResponses(r, app) == [] <==>
              FormRequestClass(r, app).None? && !HasAuthMiddleware(r)
              && forall i :: 0 <= i < |Throws(r)| ==> ThrowCode(Throws(r)[i]).None?
  {
    var m := ErrorResponses(r, app);
    ErrorResponseCodes(r, app);
    if m != [] {
      assert Keys(m)[0] in Keys(m);
    }
    if !(forall i :: 0 <= i < |Throws(r)| ==> ThrowCode(Throws(r)[i]).None?) {
      var i :| 0 <= i < |Throws(r)| && ThrowCode(Throws(r)[i]).Some?;
      assert Thrown(Throws(r), ThrowCode(Throws(r)[i]).value);
    }
  }
}
