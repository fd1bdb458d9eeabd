/** The validation-rule helpers of `ParameterGenerator`, shared by the
    parameter generators: splitting a rule expression into tokens, choosing a
    schema type, `required` and `in:` enums. */
module Rules {

  import opened Wrappers
  import opened Strings
  import opened OrderedMap

  /** One element of a rule list. A string token; a rule object that can be
      cast to a string (such as `Rule::in(...)`); or a closure or rule object
      without a string form. */
  datatype Rule = Word(text: string) | Stringable(text: string) | Opaque

  /** A field's rules: a pipe-delimited string, or a list. */
  datatype RuleExpr = Piped(rules: string) | Listed(items: seq<Rule>)

  /** A form request's `rules()`: field name to rule expression, in order. */
  type RuleMap = OMap<string, RuleExpr>

  /** The text a rule compares as; rules without a string form compare unequal
      to every string. */
  function TextOf(r: Rule): Option<string> {
    match r
    case Word(t) => Some(t)
    case Stringable(t) => Some(t)
    case Opaque => None
  }

  /** `in_array(w, rules)`. */
  predicate HasRule(rules: seq<Rule>, w: string) {
    exists i :: 0 <= i < |rules| && TextOf(rules[i]) == Some(w)
  }

  function Words(parts: seq<string>): (r: seq<Rule>)
    ensures |r| == |parts|
    ensures forall i :: 0 <= i < |r| ==> r[i] == Word(parts[i])
  {
    if |parts| == 0 then [] else [Word(parts[0])] + Words(parts[1..])
  }

  function Texts(rules: seq<Rule>): seq<string>
  {
    if |rules| == 0 then [] else [TextOf(rules[0]).GetOr("")] + Texts(rules[1..])
  }

  /** `splitRules`: a string is split on `|` into tokens; a list passes through. */
  function SplitRules(e: RuleExpr): (r: seq<Rule>)
    ensures e.Listed? ==> r == e.items
    ensures e.Piped? ==> |r| >= 1 && forall i :: 0 <= i < |r| ==> r[i].Word? && '|' !in r[i].text
    ensures e.Piped? ==> Join(Texts(r), '|') == e.rules
  {
    match e
    case Listed(items) => items
    case Piped(s) =>
      var parts := Split(s, '|');
      TextsOfWords(parts);
      Words(parts)
  }

  lemma TextsOfWords(parts: seq<string>)
    ensures Texts(Words(parts)) == parts
  {
    if |parts| > 0 {
      assert Words(parts)[1..] == Words(parts[1..]);
    }
  }

  /** `getParamType`: `integer`, then `numeric` as `number`, then `boolean`,
      then `array`; anything else (date, email, file, ...) is `string`. */
  function ParamType(rules: seq<Rule>): (t: string)
    ensures t == "integer" <==> HasRule(rules, "integer")
    ensures t == "number" <==> !HasRule(rules, "integer") && HasRule(rules, "numeric")
    ensures t == "boolean" <==>
              !HasRule(rules, "integer") && !HasRule(rules, "numeric") && HasRule(rules, "boolean")
    ensures t == "array" <==>
              !HasRule(rules, "integer") && !HasRule(rules, "numeric") && !HasRule(rules, "boolean")
              && HasRule(rules, "array")
    ensures t == "string" <==>
              !HasRule(rules, "integer") && !HasRule(rules, "numeric") && !HasRule(rules, "boolean")
              && !HasRule(rules, "array")
  {
    if HasRule(rules, "integer") then "integer"
    else if HasRule(rules, "numeric") then "number"
    else if HasRule(rules, "boolean") then "boolean"
    else if HasRule(rules, "array") then "array"
    else "string"
  }

  /** The words that decide a type. */
  const TypeWords: set<string> := {"integer", "numeric", "boolean", "array"}

  /** Inserting a closure, or a rule whose text is not a type word, anywhere in
      a rule list leaves the type unchanged. */
  lemma ParamTypeIgnoresOtherRules(a: seq<Rule>, x: Rule, b: seq<Rule>)
    requires TextOf(x).None? || TextOf(x).value !in TypeWords
    ensures ParamType(a + [x] + b) == ParamType(a + b)
  {
    HasRuleInsert(a, x, b, "integer");
    HasRuleInsert(a, x, b, "numeric");
    HasRuleInsert(a, x, b, "boolean");
    HasRuleInsert(a, x, b, "array");
  }

  lemma HasRuleInsert(a: seq<Rule>, x: Rule, b: seq<Rule>, w: string)
    requires TextOf(x) != Some(w)
    ensures HasRule(a + [x] + b, w) == HasRule(a + b, w)
  {
    var s := a + [x] + b;
    var t := a + b;
    if HasRule(s, w) {
      var i :| 0 <= i < |s| && TextOf(s[i]) == Some(w);
      var k := if i < |a| then i else i - 1;
      assert t[k] == s[i];
    }
    if HasRule(t, w) {
      var i :| 0 <= i < |t| && TextOf(t[i]) == Some(w);
      var k := if i < |a| then i else i + 1;
      assert s[k] == t[i];
    }
  }

  /** `isParamRequired`: the token `required` is present. */
  predicate IsParamRequired(rules: seq<Rule>) {
    HasRule(rules, "required")
  }

  /** A rule whose text starts with `in:`. */
  predicate IsInRule(r: Rule) {
    TextOf(r).Some? && "in:" <= TextOf(r).value
  }

  /** `getInParameter`: the text of the first rule that starts with `in:`. */
  function InParameter(rules: seq<Rule>): (r: Option<string>)
    ensures r.None? <==> forall i :: 0 <= i < |rules| ==> !IsInRule(rules[i])
    ensures r.Some? ==> "in:" <= r.value
    ensures r.Some? ==>
              (exists i :: 0 <= i < |rules| && IsInRule(rules[i]) && TextOf(rules[i]) == r
                           && forall j :: 0 <= j < i ==> !IsInRule(rules[j]))
  {
    if |rules| == 0 then None
    else if IsInRule(rules[0]) then TextOf(rules[0])
    else
      var r := InParameter(rules[1..]);
      if r.Some? then
        var i :| 0 <= i < |rules[1..]| && IsInRule(rules[1..][i]) && TextOf(rules[1..][i]) == r
                 && forall j :: 0 <= j < i ==> !IsInRule(rules[1..][j]);
        assert rules[i + 1] == rules[1..][i];
        assert forall j :: 1 <= j < i + 1 ==> rules[j] == rules[1..][j - 1];
        r
      else
        assert forall j :: 1 <= j < |rules| ==> rules[j] == rules[1..][j - 1];
        r
  }

  /** `getEnumValues`: the text between the first and the second `:` of the
      first `in:` rule, split on `,`; no `in:` rule means no enum. */
  function EnumValues(rules: seq<Rule>): (r: seq<string>)
    ensures InParameter(rules).None? ==> r == []
    ensures InParameter(rules).Some? ==>
              |r| >= 1
              && (forall i :: 0 <= i < |r| ==> ',' !in r[i])
              && ':' !in Join(r, ',')
              && exists tail :: InParameter(rules).value == "in:" + Join(r, ',') + tail
                               && (tail == "" || tail[0] == ':')
  {
    match InParameter(rules)
    case None => []
    case Some(t) =>
      assert t == "in" + [':'] + t[3..];
      SplitAfterPiece("in", t[3..], ':');
      var vals := Split(t, ':')[1];
      assert vals == Split(t[3..], ':')[0];
      FirstPiece(t[3..], ':');
      var tail :| t[3..] == vals + tail && (tail == "" || tail[0] == ':');
      assert t == "in:" + Join(Split(vals, ','), ',') + tail;
      Split(vals, ',')
  }

  /** The first piece of a split is followed by the separator or by nothing. */
  lemma FirstPiece(s: string, c: char)
    ensures exists tail :: s == Split(s, c)[0] + tail && (tail == "" || tail[0] == c)
  {
    var parts := Split(s, c);
    if |parts| == 1 {
      assert s == parts[0] + "";
    } else {
      assert s == parts[0] + ([c] + Join(parts[1..], c));
    }
  }

  /** `integer|in:1,2|in_array:foo` has the enum `["1", "2"]`: `in_array:` is
      not an `in:` token. */
  lemma EnumValuesExample()
    ensures EnumValues([Word("integer"), Word("in:1,2"), Word("in_array:foo")]) == ["1", "2"]
  {
    var rules := [Word("integer"), Word("in:1,2"), Word("in_array:foo")];
    FirstInExample();
    ColonSplitExample();
    CommaSplitExample();
  }

  lemma FirstInExample()
    ensures InParameter([Word("integer"), Word("in:1,2"), Word("in_array:foo")]) == Some("in:1,2")
  {
    var rules := [Word("integer"), Word("in:1,2"), Word("in_array:foo")];
    assert !IsInRule(rules[0]) by {
      assert "integer"[2] != "in:"[2];
    }
    assert IsInRule(rules[1]) by {
      assert "in:1,2" == "in:" + "1,2";
    }
    assert rules[1..][0] == rules[1];
  }

  lemma ColonSplitExample()
    ensures Split("in:1,2", ':') == ["in", "1,2"]
  {
    assert "in:1,2" == "in" + [':'] + "1,2";
    SplitAfterPiece("in", "1,2", ':');
    SplitWithoutSeparator("1,2", ':');
  }

  lemma CommaSplitExample()
    ensures Split("1,2", ',') == ["1", "2"]
  {
    assert "1,2" == Join(["1", "2"], ',');
    SplitJoin(["1", "2"], ',');
  }

  /** A bare `in:` gives the one empty value. */
  lemma EnumValuesEmptyIn()
    ensures EnumValues([Word("in:")]) == [""]
  {
    assert IsInRule(Word("in:")) by {
      assert "in:" == "in:" + "";
    }
    assert "in:" == "in" + [':'] + "";
    SplitAfterPiece("in", "", ':');
  }
}
