/** The parameter generators: path parameters from `{var}` placeholders, query
    parameters from form-request rules, and the single body parameter with its
    object schema. */
module Parameters {

  import opened Wrappers
  import opened Strings
  import opened OrderedMap
  import opened Helpers
  import opened Rules
  import opened Schema

  /** A `path` or `query` parameter (`description` is always ""), or the body
      parameter (`in` and `name` are both `body`, `description` is ""). */
  datatype Parameter =
    | Param(location: string, name: string, dataType: string, required: bool)
    | BodyParam(schema: Schema)

  // ---------------------------------------------------------------- path

  /** PCRE's `\w` without the `u` modifier. */
  predicate WordChar(c: char) {
    c == '_' || 'a' <= c <= 'z' || 'A' <= c <= 'Z' || '0' <= c <= '9'
  }

  /** The length of the longest prefix of word characters: how far the greedy
      `\w+` reaches. */
  function WordRun(s: string): (n: nat)
    ensures n <= |s|
    ensures forall i :: 0 <= i < n ==> WordChar(s[i])
    ensures n == |s| || !WordChar(s[n])
  {
    if |s| > 0 && WordChar(s[0]) then 1 + WordRun(s[1..]) else 0
  }

  /** An attempt to match `{(\w+\??)}` at the `{` that starts `s`: the captured
      text and what follows the match. */
  function PlaceholderAt(s: string): (r: Option<(string, string)>)
    requires |s| > 0 && s[0] == '{'
    ensures r.Some? ==> |r.value.1| < |s|
  {
    var n := WordRun(s[1..]);
    var after := s[1 + n..];
    if n >= 1 && |after| >= 1 && after[0] == '}' then Some((s[1..1 + n], after[1..]))
    else if n >= 1 && |after| >= 2 && after[0] == '?' && after[1] == '}' then Some((s[1..2 + n], after[2..]))
    else None
  }

  /** `preg_match_all('/{(\w+\??)}/', uri)[1]`: the captures of successive
      non-overlapping matches, left to right. A failed attempt at a `{` resumes
      one character later. */
  function Placeholders(s: string): seq<string>
    decreases |s|
  {
    if |s| == 0 then []
    else if s[0] == '{' then
      match PlaceholderAt(s)
      case Some((v, rest)) => [v] + Placeholders(rest)
      case None => Placeholders(s[1..])
    else Placeholders(s[1..])
  }

  /** One path parameter per placeholder: the name without its `?`, typed
      `integer`, required iff the placeholder has no `?`. */
  function PathParameter(v: string): (p: Parameter)
    ensures p.Param? && p.location == "path" && p.dataType == "integer"
    ensures p.name == StripOptionalChar(v)
    ensures p.required <==> '?' !in v
  {
    Param("path", StripOptionalChar(v), "integer", '?' !in v)
  }

  /** `PathParameterGenerator::getParameters`. */
  function PathParameters(uri: string): (ps: seq<Parameter>)
    ensures |ps| == |Placeholders(uri)|
    ensures forall i :: 0 <= i < |ps| ==> ps[i] == PathParameter(Placeholders(uri)[i])
  {
    var vs := Placeholders(uri);
    seq(|vs|, i requires 0 <= i < |vs| => PathParameter(vs[i]))
  }

  /** A URI built from literal text and `{name}` / `{name?}` placeholders. */
  datatype Segment = Literal(text: string) | Placeholder(name: string, optional: bool)

  /** Literal text holds no `{`; a placeholder name is one or more word
      characters. */
  predicate WellFormed(segs: seq<Segment>) {
    forall i :: 0 <= i < |segs| ==>
      match segs[i]
      case Literal(t) => '{' !in t
      case Placeholder(n, _) => |n| > 0 && forall k :: 0 <= k < |n| ==> WordChar(n[k])
  }

  function PlaceholderText(name: string, optional: bool): string {
    "{" + name + (if optional then "?" else "") + "}"
  }

  function Render(segs: seq<Segment>): string {
    if |segs| == 0 then ""
    else
      match segs[0]
      case Literal(t) => t + Render(segs[1..])
      case Placeholder(n, o) => PlaceholderText(n, o) + Render(segs[1..])
  }

  /** The parameters a URI rendered from `segs` should have. */
  function ExpectedParameters(segs: seq<Segment>): seq<Parameter> {
    if |segs| == 0 then []
    else
      match segs[0]
      case Literal(_) => ExpectedParameters(segs[1..])
      case Placeholder(n, o) => [Param("path", n, "integer", !o)] + ExpectedParameters(segs[1..])
  }

  /** Literal text without a `{` contributes no placeholder. */
  lemma {:induction false} PlaceholdersSkipLiteral(t: string, rest: string)
    requires '{' !in t
    ensures Placeholders(t + rest) == Placeholders(rest)
    decreases |t|
  {
    if |t| > 0 {
      assert (t + rest)[0] == t[0];
      assert (t + rest)[1..] == t[1..] + rest;
      PlaceholdersSkipLiteral(t[1..], rest);
    } else {
      assert t + rest == rest;
    }
  }

  lemma {:induction false} WordRunPrefix(n: string, tail: string)
    requires forall k :: 0 <= k < |n| ==> WordChar(n[k])
    requires |tail| > 0 && !WordChar(tail[0])
    ensures WordRun(n + tail) == |n|
    decreases |n|
  {
    if |n| > 0 {
      assert (n + tail)[1..] == n[1..] + tail;
      WordRunPrefix(n[1..], tail);
    } else {
      assert n + tail == tail;
    }
  }

  /** A well-formed placeholder is matched whole. */
  lemma PlaceholdersAtPlaceholder(n: string, o: bool, rest: string)
    requires |n| > 0 && forall k :: 0 <= k < |n| ==> WordChar(n[k])
    ensures Placeholders(PlaceholderText(n, o) + rest)
            == [n + (if o then "?" else "")] + Placeholders(rest)
  {
    var mark := if o then "?" else "";
    var s := PlaceholderText(n, o) + rest;
    var tail := mark + "}" + rest;
    assert s == "{" + (n + tail);
    assert s[1..] == n + tail;
    WordRunPrefix(n, tail);
    assert s[1 + |n|..] == tail;
    assert s[1..1 + |n| + |mark|] == n + mark;
    if o {
      assert tail[0] == '?' && tail[1] == '}' && tail[2..] == rest;
      assert PlaceholderAt(s) == Some((n + mark, rest));
    } else {
      assert tail[0] == '}' && tail[1..] == rest;
      assert PlaceholderAt(s) == Some((n + mark, rest));
    }
  }

  /** Round trip: the placeholders extracted from a rendered URI are exactly its
      placeholder segments, in order, each with its `?` marker. */
  lemma {:induction false} PlaceholdersOfRender(segs: seq<Segment>)
    requires WellFormed(segs)
    ensures Placeholders(Render(segs)) == PlaceholderTexts(segs)
    decreases |segs|
  {
    if |segs| > 0 {
      assert WellFormed(segs[1..]) by {
        forall i | 0 <= i < |segs[1..]| ensures segs[1..][i] == segs[i + 1] { }
      }
      PlaceholdersOfRender(segs[1..]);
      match segs[0]
      case Literal(t) =>
        assert '{' !in t by { assert segs[0] == segs[0]; }
        PlaceholdersSkipLiteral(t, Render(segs[1..]));
      case Placeholder(n, o) =>
        PlaceholdersAtPlaceholder(n, o, Render(segs[1..]));
    }
  }

  function PlaceholderTexts(segs: seq<Segment>): seq<string> {
    if |segs| == 0 then []
    else
      match segs[0]
      case Literal(_) => PlaceholderTexts(segs[1..])
      case Placeholder(n, o) => [n + (if o then "?" else "")] + PlaceholderTexts(segs[1..])
  }

  /** The path parameters of a rendered URI: one per placeholder segment, in
      order, named without the `?`, required iff not optional. */
  lemma {:induction false} PathParametersOfRender(segs: seq<Segment>)
    requires WellFormed(segs)
    ensures PathParameters(Render(segs)) == ExpectedParameters(segs)
    decreases |segs|
  {
    PlaceholdersOfRender(segs);
    ParametersOfTexts(segs);
  }

  lemma {:induction false} ParametersOfTexts(segs: seq<Segment>)
    requires WellFormed(segs)
    ensures |PlaceholderTexts(segs)| == |ExpectedParameters(segs)|
    ensures forall i :: 0 <= i < |PlaceholderTexts(segs)| ==>
              PathParameter(PlaceholderTexts(segs)[i]) == ExpectedParameters(segs)[i]
    decreases |segs|
  {
    if |segs| > 0 {
      assert WellFormed(segs[1..]) by {
        forall i | 0 <= i < |segs[1..]| ensures segs[1..][i] == segs[i + 1] { }
      }
      ParametersOfTexts(segs[1..]);
      match segs[0]
      case Literal(_) =>
      case Placeholder(n, o) =>
        assert forall k :: 0 <= k < |n| ==> WordChar(n[k]);
        assert '?' !in n;
        var v := n + (if o then "?" else "");
        RemoveCharAppend(n, if o then "?" else "", '?');
        assert StripOptionalChar(v) == n;
        assert ('?' !in v) == !o;
    }
  }

  /** A URI without `{` has no path parameters. */
  lemma NoBraceNoParameters(uri: string)
    requires '{' !in uri
    ensures PathParameters(uri) == []
  {
    PlaceholdersSkipLiteral(uri, "");
    assert uri + "" == uri;
  }

  /** A placeholder with a non-word character, such as `{user-id}`, is not
      matched. */
  lemma HyphenatedPlaceholderIgnored()
    ensures PathParameters("/users/{user-id}") == []
  {
    HyphenatedPlaceholders();
  }

  lemma HyphenatedPlaceholders()
    ensures Placeholders("/users/{user-id}") == []
  {
    HyphenSkipPrefix();
    HyphenSkipBrace();
    HyphenSkipRest();
  }

  lemma HyphenSkipPrefix()
    ensures Placeholders("/users/{user-id}") == Placeholders("{user-id}")
  {
    assert "/users/{user-id}" == "/users/" + "{user-id}";
    PlaceholdersSkipLiteral("/users/", "{user-id}");
  }

  lemma HyphenSkipBrace()
    ensures Placeholders("{user-id}") == Placeholders("user-id}")
  {
    HyphenNoMatch();
    assert "{user-id}"[1..] == "user-id}";
  }

  lemma HyphenSkipRest()
    ensures Placeholders("user-id}") == []
  {
    PlaceholdersSkipLiteral("user-id}", "");
    assert "user-id}" + "" == "user-id}";
  }

  lemma HyphenNoMatch()
    ensures PlaceholderAt("{user-id}").None?
  {
    var s := "{user-id}";
    assert s[1..] == "user" + "-id}";
    WordRunPrefix("user", "-id}");
    assert s[5..][0] == '-';
  }

  /** The worked example `/users/{username}/{id?}`. */
  lemma PathParametersExample()
    ensures PathParameters("/users/{username}/{id?}")
            == [Param("path", "username", "integer", true), Param("path", "id", "integer", false)]
  {
    var segs := [Literal("/users/"), Placeholder("username", false), Literal("/"), Placeholder("id", true)];
    ExampleSegmentsWellFormed(segs);
    ExampleSegmentsRender(segs);
    ExampleSegmentsExpected(segs);
    PathParametersOfRender(segs);
  }

  lemma ExampleSegmentsWellFormed(segs: seq<Segment>)
    requires segs == [Literal("/users/"), Placeholder("username", false), Literal("/"), Placeholder("id", true)]
    ensures WellFormed(segs)
  {
  }

  lemma ExampleSegmentsRender(segs: seq<Segment>)
    requires segs == [Literal("/users/"), Placeholder("username", false), Literal("/"), Placeholder("id", true)]
    ensures Render(segs) == "/users/{username}/{id?}"
  {
    assert segs == [Literal("/users/")] + segs[1..];
    ExampleRenderFromName(segs[1..]);
    RenderCons(Literal("/users/"), segs[1..]);
  }

  lemma ExampleRenderFromName(segs: seq<Segment>)
    requires segs == [Placeholder("username", false), Literal("/"), Placeholder("id", true)]
    ensures Render(segs) == "{username}/{id?}"
  {
    assert segs == [Placeholder("username", false)] + segs[1..];
    ExampleRenderFromSlash(segs[1..]);
    RenderCons(Placeholder("username", false), segs[1..]);
  }

  lemma ExampleRenderFromSlash(segs: seq<Segment>)
    requires segs == [Literal("/"), Placeholder("id", true)]
    ensures Render(segs) == "/{id?}"
  {
    assert segs == [Literal("/")] + [Placeholder("id", true)];
    assert Render([Placeholder("id", true)]) == "{id?}" by { RenderCons(Placeholder("id", true), []); }
    RenderCons(Literal("/"), [Placeholder("id", true)]);
  }

  lemma ExampleSegmentsExpected(segs: seq<Segment>)
    requires segs == [Literal("/users/"), Placeholder("username", false), Literal("/"), Placeholder("id", true)]
    ensures ExpectedParameters(segs)
            == [Param("path", "username", "integer", true), Param("path", "id", "integer", false)]
  {
    var d := [Placeholder("id", true)];
    var c := [Literal("/")] + d;
    var b := [Placeholder("username", false)] + c;
    assert segs == [Literal("/users/")] + b;
    ExpectedCons(Placeholder("id", true), []);
    ExpectedCons(Literal("/"), d);
    ExpectedCons(Placeholder("username", false), c);
    ExpectedCons(Literal("/users/"), b);
  }

  lemma RenderCons(x: Segment, rest: seq<Segment>)
    ensures Render([x] + rest) == (match x
                                   case Literal(t) => t
                                   case Placeholder(n, o) => PlaceholderText(n, o)) + Render(rest)
  {
    assert ([x] + rest)[0] == x && ([x] + rest)[1..] == rest;
  }

  lemma ExpectedCons(x: Segment, rest: seq<Segment>)
    ensures ExpectedParameters([x] + rest) == (match x
                                               case Literal(_) => []
                                               case Placeholder(n, o) => [Param("path", n, "integer", !o)]) + ExpectedParameters(rest)
  {
    assert ([x] + rest)[0] == x && ([x] + rest)[1..] == rest;
  }

  // ---------------------------------------------------------------- query

  /** One query parameter for a rule entry. */
  function QueryParameter(field: string, e: RuleExpr): (p: Parameter)
    ensures p.Param? && p.location == "query" && p.name == field
    ensures p.dataType == ParamType(SplitRules(e))
    ensures p.required <==> IsParamRequired(SplitRules(e))
  {
    Param("query", field, ParamType(SplitRules(e)), IsParamRequired(SplitRules(e)))
  }

  /** `QueryParameterGenerator::getParameters`: one parameter per rule key, in
      the rules' order. */
  function QueryParameters(rules: RuleMap): (ps: seq<Parameter>)
    ensures |ps| == |rules|
    ensures forall i :: 0 <= i < |ps| ==> ps[i] == QueryParameter(rules[i].0, rules[i].1)
  {
    if |rules| == 0 then [] else [QueryParameter(rules[0].0, rules[0].1)] + QueryParameters(rules[1..])
  }

  /** The two spellings of one rule set give the same query parameter. */
  lemma QueryRuleFormsAgree()
    ensures QueryParameters([("id", Piped("integer|required"))]) == [Param("query", "id", "integer", true)]
    ensures QueryParameters([("id", Listed([Word("integer"), Word("required")]))]) == [Param("query", "id", "integer", true)]
  {
    var rs := [Word("integer"), Word("required")];
    PipedIntegerRequired();
    assert TextOf(rs[0]) == Some("integer");
    assert TextOf(rs[1]) == Some("required");
    assert ParamType(rs) == "integer";
    assert IsParamRequired(rs);
  }

  lemma PipedIntegerRequired()
    ensures SplitRules(Piped("integer|required")) == [Word("integer"), Word("required")]
  {
    var parts := ["integer", "required"];
    assert Join(parts, '|') == "integer|required";
    SplitJoin(parts, '|');
    assert Words(parts) == [Word("integer"), Word("required")];
  }

  // ---------------------------------------------------------------- body

  /** The property schema of one body field: its type, and its enum when there
      is one. */
  function BodyProperty(e: RuleExpr): (s: Schema)
    ensures s.Typed? && s.format.None? && s.example.None?
    ensures s.dataType == ParamType(SplitRules(e))
    ensures s.enumValues == EnumValues(SplitRules(e))
  {
    Typed(ParamType(SplitRules(e)), None, EnumValues(SplitRules(e)), None)
  }

  /** `$required[] = $param` for every required field, in order. */
  function RequiredFields(rules: RuleMap): (req: seq<string>)
    ensures forall k :: k in req <==>
              exists i :: 0 <= i < |rules| && rules[i].0 == k && IsParamRequired(SplitRules(rules[i].1))
    ensures |req| <= |rules|
  {
    if |rules| == 0 then []
    else
      var rest := RequiredFields(rules[1..]);
      assert forall i :: 1 <= i < |rules| ==> rules[i] == rules[1..][i - 1];
      if IsParamRequired(SplitRules(rules[0].1)) then [rules[0].0] + rest else rest
  }

  /** The required list keeps the rules' order: it is computed piecewise. */
  lemma {:induction false} RequiredFieldsAppend(a: RuleMap, b: RuleMap)
    ensures RequiredFields(a + b) == RequiredFields(a) + RequiredFields(b)
    decreases |a|
  {
    if |a| == 0 {
      assert a + b == b;
    } else {
      assert (a + b)[0] == a[0];
      assert (a + b)[1..] == a[1..] + b;
      RequiredFieldsAppend(a[1..], b);
    }
  }

  /** `$properties[$param] = $propObj` for every field, in order. */
  function BodyProperties(acc: OMap<string, Schema>, rules: RuleMap): (props: OMap<string, Schema>)
    ensures UniqueKeys(acc) ==> UniqueKeys(props)
    ensures forall k :: k !in Keys(rules) ==> Get(props, k) == Get(acc, k)
    ensures forall k :: k in Keys(props) <==> k in Keys(acc) || k in Keys(rules)
    decreases |rules|
  {
    if |rules| == 0 then acc
    else
      var r := BodyProperties(Put(acc, rules[0].0, BodyProperty(rules[0].1)), rules[1..]);
      assert Keys(rules) == [rules[0].0] + Keys(rules[1..]);
      r
  }

  /** With distinct field names, the properties are the fields in the rules'
      order, each with its schema: nothing is merged, dropped or reordered. */
  lemma {:induction false} BodyPropertiesFresh(acc: OMap<string, Schema>, rules: RuleMap)
    requires UniqueKeys(rules)
    requires forall i :: 0 <= i < |rules| ==> rules[i].0 !in Keys(acc)
    ensures BodyProperties(acc, rules) == acc + FieldSchemas(rules)
    decreases |rules|
  {
    if |rules| == 0 {
      assert acc + FieldSchemas(rules) == acc;
    } else {
      var k := rules[0].0;
      var p := BodyProperty(rules[0].1);
      var tail := rules[1..];
      var acc' := acc + [(k, p)];
      assert k !in Keys(acc);
      PutFresh(acc, k, p);
      assert BodyProperties(acc, rules) == BodyProperties(acc', tail);
      GetAppend(acc, (k, p), k);
      FreshAfterPut(acc, k, p, rules);
      BodyPropertiesFresh(acc', tail);
      var fs := FieldSchemas(tail);
      assert FieldSchemas(rules) == [(k, p)] + fs;
      SeqAssoc(acc, [(k, p)], fs);
    }
  }

  lemma FreshAfterPut(acc: OMap<string, Schema>, k: string, p: Schema, rules: RuleMap)
    requires |rules| > 0 && rules[0].0 == k
    requires UniqueKeys(rules)
    requires forall i :: 0 <= i < |rules| ==> rules[i].0 !in Keys(acc)
    requires Keys(acc + [(k, p)]) == Keys(acc) + [k]
    ensures UniqueKeys(rules[1..])
    ensures forall i :: 0 <= i < |rules[1..]| ==> rules[1..][i].0 !in Keys(acc + [(k, p)])
  {
    forall i | 0 <= i < |rules[1..]|
      ensures rules[1..][i].0 !in Keys(acc + [(k, p)])
    {
      assert rules[1..][i] == rules[i + 1];
      assert rules[i + 1].0 != rules[0].0;
    }
  }

  /** Each field paired with its property schema. */
  function FieldSchemas(rules: RuleMap): (m: OMap<string, Schema>)
    ensures |m| == |rules|
    ensures forall i :: 0 <= i < |m| ==> m[i] == (rules[i].0, BodyProperty(rules[i].1))
  {
    if |rules| == 0 then [] else [(rules[0].0, BodyProperty(rules[0].1))] + FieldSchemas(rules[1..])
  }

  /** `BodyParameterGenerator::getParameters`: exactly one parameter, whose
      object schema lists the required fields in order and has one property
      per field. */
  function BodyParameters(rules: RuleMap): (ps: seq<Parameter>)
    ensures |ps| == 1 && ps[0].BodyParam? && ps[0].schema.Object?
    ensures ps[0].schema.required == RequiredFields(rules)
    ensures UniqueKeys(ps[0].schema.properties)
    ensures forall k :: k in Keys(ps[0].schema.properties) <==> k in Keys(rules)
    ensures UniqueKeys(rules) ==> ps[0].schema.properties == FieldSchemas(rules)
  {
    var props := BodyProperties([], rules);
    assert UniqueKeys(rules) ==> props == FieldSchemas(rules) by {
      if UniqueKeys(rules) {
        BodyPropertiesFresh([], rules);
        assert [] + FieldSchemas(rules) == FieldSchemas(rules);
      }
    }
    [BodyParam(Object(RequiredFields(rules), props))]
  }

  /** Without rules the body parameter still exists, with no required list and
      no properties. */
  lemma BodyParametersEmpty()
    ensures BodyParameters([]) == [BodyParam(Object([], []))]
  {
  }
}
