/** `DefinitionGenerator` and the error definition handlers: the registry of
    `#/definitions` entries one route contributes. Model definitions come from
    the route's `@model` and a walk over its relations; error definitions come
    from the configured exception table. */
module Definitions {

  import opened Wrappers
  import opened Errors
  import opened Strings
  import opened OrderedMap
  import opened Rules
  import opened Schema
  import opened Models
  import opened Route

  /** Definition name to definition, in insertion order. */
  type Registry = OMap<string, Schema>

  // ---------------------------------------------------------------- verb gate

  function AllGetOrPost(ms: seq<string>): (b: bool)
    ensures b <==> forall i :: 0 <= i < |ms| ==> ms[i] == "get" || ms[i] == "post"
  {
    if |ms| == 0 then true
    else
      assert forall i :: 1 <= i < |ms| ==> ms[i] == ms[1..][i - 1];
      (ms[0] == "get" || ms[0] == "post") && AllGetOrPost(ms[1..])
  }

  /** `allowsHttpMethodGenerate`: every verb other than `head` is `get` or
      `post`. */
  function AllowsModelDefinitions(r: RouteRecord): (b: bool)
    ensures b <==> forall i :: 0 <= i < |ActionMethods(r)| ==> ActionMethods(r)[i] in {"get", "post"}
  {
    AllGetOrPost(ActionMethods(r))
  }

  // ---------------------------------------------------------------- columns

  const FloatSchema: Schema := Typed("number", Some("float"), [], None)
  const DateTimeSchema: Schema := Typed("string", Some("date-time"), [], None)

  /** `mountColumnDefinition`: a date column is a `date-time` string whatever
      its cast; otherwise the cast picks `number`/`float`, `integer` or
      `boolean`, and anything else is a `string`. */
  function ColumnSchema(m: ModelInfo, column: string): (s: Schema)
    ensures column in m.dates ==> s == DateTimeSchema
    ensures column !in m.dates && column in m.casts && m.casts[column] == "float" ==> s == FloatSchema
    ensures column !in m.dates && column in m.casts && m.casts[column] == "int" ==> s == Plain("integer")
    ensures column !in m.dates && column in m.casts && m.casts[column] == "boolean" ==> s == Plain("boolean")
    ensures (column !in m.dates && (column !in m.casts || m.casts[column] !in {"float", "int", "boolean"}))
              ==> s == Plain("string")
  {
    if column in m.dates then DateTimeSchema
    else
      var cast := if column in m.casts then m.casts[column] else "string";
      if cast == "float" then FloatSchema
      else if cast == "int" then Plain("integer")
      else if cast == "boolean" then Plain("boolean")
      else Plain("string")
  }

  /** A column schema is one of four Swagger types, and only `float` and dates
      carry a format. */
  lemma ColumnSchemaShape(m: ModelInfo, column: string)
    ensures ColumnSchema(m, column).Typed?
    ensures ColumnSchema(m, column).dataType in {"string", "number", "integer", "boolean"}
    ensures ColumnSchema(m, column).format.Some? <==>
              column in m.dates || (column in m.casts && m.casts[column] == "float")
  {
  }

  /** Declaring a column a date overrides any cast. */
  lemma DateOverridesCast(m: ModelInfo, column: string, cast: string)
    requires column in m.dates
    ensures ColumnSchema(m.(casts := m.casts[column := cast]), column) == DateTimeSchema
  {
  }

  // ---------------------------------------------------------------- properties

  /** The names that are not hidden, in order. */
  function Visible(m: ModelInfo, names: seq<string>): (vs: seq<string>)
    ensures forall x :: x in vs <==> x in names && x !in m.hidden
  {
    if |names| == 0 then []
    else if names[0] in m.hidden then Visible(m, names[1..])
    else
      assert names == [names[0]] + names[1..];
      [names[0]] + Visible(m, names[1..])
  }

  lemma {:induction false} VisibleAppend(m: ModelInfo, a: seq<string>, b: seq<string>)
    ensures Visible(m, a + b) == Visible(m, a) + Visible(m, b)
    decreases |a|
  {
    if |a| == 0 {
      assert a + b == b;
    } else {
      assert (a + b)[0] == a[0];
      assert (a + b)[1..] == a[1..] + b;
      VisibleAppend(m, a[1..], b);
    }
  }

  /** The `foreach ($columns ...)` loop: every name that is not hidden is
      written with its column schema. */
  function PutColumns(m: ModelInfo, acc: OMap<string, Schema>, names: seq<string>): (r: OMap<string, Schema>)
    ensures UniqueKeys(acc) ==> UniqueKeys(r)
    ensures forall k :: k in Keys(r) <==> k in Keys(acc) || (k in names && k !in m.hidden)
    ensures forall k :: k in names && k !in m.hidden ==> Get(r, k) == Some(ColumnSchema(m, k))
    ensures forall k :: k !in names || k in m.hidden ==> Get(r, k) == Get(acc, k)
    decreases |names|
  {
    if |names| == 0 then acc
    else
      assert forall k :: k in names <==> k == names[0] || k in names[1..];
      if names[0] in m.hidden then PutColumns(m, acc, names[1..])
      else PutColumns(m, Put(acc, names[0], ColumnSchema(m, names[0])), names[1..])
  }

  /** With distinct names, the property keys are the visible names in order. */
  lemma {:induction false} PutColumnsKeys(m: ModelInfo, acc: OMap<string, Schema>, names: seq<string>)
    requires Distinct(names)
    requires forall x :: x in names ==> x !in Keys(acc)
    ensures Keys(PutColumns(m, acc, names)) == Keys(acc) + Visible(m, names)
    decreases |names|
  {
    if |names| == 0 {
      assert Keys(acc) + [] == Keys(acc);
    } else {
      var n := names[0];
      DistinctTail(names);
      if n in m.hidden {
        PutColumnsKeys(m, acc, names[1..]);
      } else {
        var acc' := Put(acc, n, ColumnSchema(m, n));
        assert Keys(acc') == Keys(acc) + [n];
        PutColumnsKeys(m, acc', names[1..]);
        assert PutColumns(m, acc, names) == PutColumns(m, acc', names[1..]);
        var vs := Visible(m, names[1..]);
        assert Visible(m, names) == [n] + vs;
        SeqAssoc(Keys(acc), [n], vs);
      }
    }
  }

  lemma DistinctTail(s: seq<string>)
    requires Distinct(s) && |s| > 0
    ensures Distinct(s[1..]) && s[0] !in s[1..]
    ensures forall x :: x in s[1..] ==> x in s
  {
    forall i, j | 0 <= i < j < |s[1..]| ensures s[1..][i] != s[1..][j] {
      assert s[1..][i] == s[i + 1] && s[1..][j] == s[j + 1];
    }
  }

  /** The names `getDefinitionProperties` walks: the columns, then the appends
      when the model has them; a non-array `getAppends()` is an error. */
  function PropertyNames(m: ModelInfo): (r: Result<seq<string>, Exception>)
    ensures r.Failure? <==> m.appends.AppendsNotArray?
    ensures r.Success? ==> m.columns <= r.value
    ensures m.appends.AppendList? ==> r == Success(m.columns + m.appends.names)
    ensures m.appends.NoAppendsMethod? ==> r == Success(m.columns)
  {
    match m.appends
    case NoAppendsMethod => Success(m.columns)
    case AppendList(a) => Success(m.columns + a)
    case AppendsNotArray =>
      Failure(RuntimeException("The return type of the \"getAppends\" method must be an array."))
  }

  /** `getDefinitionProperties`: one property per visible column or appended
      attribute, with its column schema. */
  function DefinitionProperties(m: ModelInfo): (r: Result<OMap<string, Schema>, Exception>)
    ensures r.Failure? <==> m.appends.AppendsNotArray?
    ensures r.Success? ==> UniqueKeys(r.value)
    ensures r.Success? ==> forall k :: k in Keys(r.value) <==> k in PropertyNames(m).value && k !in m.hidden
    ensures r.Success? ==> forall k :: k in Keys(r.value) ==> Get(r.value, k) == Some(ColumnSchema(m, k))
  {
    var names :- PropertyNames(m);
    Success(PutColumns(m, [], names))
  }

  /** With distinct names, the properties list the visible columns first and
      the visible appends after them, each in its own order. */
  lemma DefinitionPropertiesOrder(m: ModelInfo, appended: seq<string>)
    requires m.appends == AppendList(appended)
    requires Distinct(m.columns + appended)
    ensures Keys(DefinitionProperties(m).value) == Visible(m, m.columns) + Visible(m, appended)
  {
    PutColumnsKeys(m, [], m.columns + appended);
    VisibleAppend(m, m.columns, appended);
    assert [] + Visible(m, m.columns + appended) == Visible(m, m.columns + appended);
  }

  // ---------------------------------------------------------------- relation walk

  /** `k` names the definition of some model of the catalog. */
  predicate CatalogName(cat: map<string, ModelInfo>, k: string) {
    exists c :: c in cat && ClassBasename(c) == k
  }

  /** The catalog models whose name is not among the keys `ks`: the walk's
      termination measure. */
  function Unregistered(cat: map<string, ModelInfo>, ks: seq<string>): set<string> {
    set c | c in cat.Keys && ClassBasename(c) !in ks
  }

  /** Registering a catalog model's name shrinks the measure. */
  lemma RegisterShrinks(cat: map<string, ModelInfo>, ks: seq<string>, c: string)
    requires c in cat && ClassBasename(c) !in ks
    ensures Unregistered(cat, ks + [ClassBasename(c)]) < Unregistered(cat, ks)
  {
    assert c in Unregistered(cat, ks) && c !in Unregistered(cat, ks + [ClassBasename(c)]);
  }

  /** Registering more names never grows the measure. */
  lemma ExtendNoGrow(cat: map<string, ModelInfo>, ks: seq<string>, ks': seq<string>)
    requires ks <= ks'
    ensures Unregistered(cat, ks') <= Unregistered(cat, ks)
  {
    assert forall k :: k in ks ==> k in ks';
  }

  /** Every relation leads to a model of the catalog. */
  predicate Closed(cat: map<string, ModelInfo>) {
    forall c :: c in cat ==> forall i :: 0 <= i < |cat[c].relations| ==> cat[c].relations[i].target in cat
  }

  /** The properties of a registered definition; none when it is absent or
      not an object. */
  function PropsMap(defs: Registry, d: string): OMap<string, Schema> {
    match Get(defs, d)
    case Some(s) => if s.Object? then s.properties else []
    case None => []
  }

  /** The property names of a registered definition. */
  function PropsOf(defs: Registry, d: string): seq<string> {
    Keys(PropsMap(defs, d))
  }

  /** The `required` list of a registered definition. */
  function RequiredOf(defs: Registry, d: string): seq<string> {
    match Get(defs, d)
    case Some(s) => if s.Object? then s.required else []
    case None => []
  }

  /** Relation `j` is the last relation of `rels` naming its accessor. */
  predicate LastWithAccessor(rels: seq<Relation>, j: nat)
    requires j < |rels|
  {
    forall l :: j < l < |rels| ==> rels[l].accessor != rels[j].accessor
  }

  /** Some relation from position `i` on names the property `q`. */
  predicate NamedFrom(rels: seq<Relation>, i: nat, q: string) {
    exists l :: i <= l < |rels| && rels[l].accessor == q
  }

  /** `$this->definitions[$d]['properties'][$p] = $s`. */
  function SetProperty(defs: Registry, d: string, p: string, s: Schema): (r: Registry)
    ensures Keys(r) == if d in Keys(defs) then Keys(defs) else Keys(defs) + [d]
    ensures forall k :: k != d ==> Get(r, k) == Get(defs, k)
    ensures Get(r, d).Some? && Get(r, d).value.Object? && Get(Get(r, d).value.properties, p) == Some(s)
    ensures forall q :: q in PropsOf(defs, d) ==> q in PropsOf(r, d)
    ensures p in PropsOf(r, d)
    ensures UniqueKeys(defs) ==> UniqueKeys(r)
  {
    match Get(defs, d)
    case Some(e) =>
      if e.Object? then Put(defs, d, Object(e.required, Put(e.properties, p, s)))
      else Put(defs, d, Object([], [(p, s)]))
    case None => Put(defs, d, Object([], [(p, s)]))
  }

  /** Inside `d`'s definition, the write sets `p` to `s`, keeps every other
      property's schema and keeps the `required` list. */
  lemma SetPropertyValues(defs: Registry, d: string, p: string, s: Schema)
    ensures var r := SetProperty(defs, d, p, s);
            && Get(PropsMap(r, d), p) == Some(s)
            && (forall q :: q != p ==> Get(PropsMap(r, d), q) == Get(PropsMap(defs, d), q))
            && RequiredOf(r, d) == RequiredOf(defs, d)
  {
  }

  /** The property a relation contributes: a `$ref` to the related definition,
      as an array iff the relation class name contains `Many`. */
  function RelationSchema(rel: Relation): (s: Schema)
    ensures Contains(rel.relationClass, "Many") ==> s == ArrayOf(Ref(ClassBasename(rel.target)), None)
    ensures !Contains(rel.relationClass, "Many") ==> s == Ref(ClassBasename(rel.target))
  {
    var ref := Ref(ClassBasename(rel.target));
    if Contains(rel.relationClass, "Many") then ArrayOf(ref, None) else ref
  }

  /** The definition of a model: an object with its properties. */
  function ModelDefinition(props: OMap<string, Schema>): Schema {
    Object([], props)
  }

  /** `generateFromCurrentModel`: a model whose name is registered is left
      alone (`false`); otherwise its definition is appended (`true`). */
  function AddModel(cat: map<string, ModelInfo>, defs: Registry, c: string): (r: Result<(Registry, bool), Exception>)
    requires c in cat
    ensures r.Failure? ==> ClassBasename(c) !in Keys(defs) && cat[c].appends.AppendsNotArray?
    ensures r.Success? ==> (r.value.1 <==> ClassBasename(c) !in Keys(defs))
    ensures r.Success? && !r.value.1 ==> r.value.0 == defs
    ensures r.Success? && r.value.1 ==>
              Keys(r.value.0) == Keys(defs) + [ClassBasename(c)]
              && DefinitionProperties(cat[c]).Success?
              && Get(r.value.0, ClassBasename(c)) == Some(ModelDefinition(DefinitionProperties(cat[c]).value))
              && forall k :: k != ClassBasename(c) ==> Get(r.value.0, k) == Get(defs, k)
    ensures r.Success? && UniqueKeys(defs) ==> UniqueKeys(r.value.0)
  {
    var name := ClassBasename(c);
    if name in Keys(defs) then Success((defs, false))
    else
      var props :- DefinitionProperties(cat[c]);
      Success((Put(defs, name, ModelDefinition(props)), true))
  }

  /** The property each relation of `c` adds to `c`'s definition. */
  function RelationProperty(cat: map<string, ModelInfo>, defs: Registry, c: string, i: nat): (r: Registry)
    requires c in cat && i < |cat[c].relations|
    ensures Keys(defs) <= Keys(r)
    ensures Unregistered(cat, Keys(r)) <= Unregistered(cat, Keys(defs))
    ensures UniqueKeys(defs) ==> UniqueKeys(r)
  {
    var rel := cat[c].relations[i];
    var r := SetProperty(defs, ClassBasename(c), rel.accessor, RelationSchema(rel));
    ExtendNoGrow(cat, Keys(defs), Keys(r));
    r
  }

  /** Setting a relation property either leaves the registered names as they
      were or registers `c`'s own, which shrinks the walk's measure. */
  lemma RelationPropertyMeasure(cat: map<string, ModelInfo>, defs: Registry, c: string, i: nat)
    requires c in cat && i < |cat[c].relations|
    ensures Keys(RelationProperty(cat, defs, c, i)) == Keys(defs)
            || Unregistered(cat, Keys(RelationProperty(cat, defs, c, i))) < Unregistered(cat, Keys(defs))
  {
    if ClassBasename(c) !in Keys(defs) {
      RegisterShrinks(cat, Keys(defs), c);
    }
  }

  /** Setting a relation property touches `c`'s definition only, and leaves
      the accessor among its properties. */
  lemma RelationPropertyFacts(cat: map<string, ModelInfo>, defs: Registry, c: string, i: nat)
    requires c in cat && i < |cat[c].relations|
    ensures var r := RelationProperty(cat, defs, c, i);
            && (forall k :: k != ClassBasename(c) ==> Get(r, k) == Get(defs, k))
            && (forall k :: k in Keys(r) ==> k in Keys(defs) || k == ClassBasename(c))
            && (forall q :: q in PropsOf(defs, ClassBasename(c)) ==> q in PropsOf(r, ClassBasename(c)))
            && cat[c].relations[i].accessor in PropsOf(r, ClassBasename(c))
            && Get(PropsMap(r, ClassBasename(c)), cat[c].relations[i].accessor) == Some(RelationSchema(cat[c].relations[i]))
            && (forall q :: q != cat[c].relations[i].accessor ==>
                  Get(PropsMap(r, ClassBasename(c)), q) == Get(PropsMap(defs, ClassBasename(c)), q))
            && RequiredOf(r, ClassBasename(c)) == RequiredOf(defs, ClassBasename(c))
  {
    var rel := cat[c].relations[i];
    SetPropertyValues(defs, ClassBasename(c), rel.accessor, RelationSchema(rel));
  }

  /** `generateFromRelations`, from relation `i` of model `c` on: each relation
      sets its property on `c`'s definition, registers the related model, and
      is followed into only when that model was new. The walk ends because
      every descent registers a name that was unregistered. */
  function WalkRelations(cat: map<string, ModelInfo>, defs: Registry, c: string, i: nat): (r: Result<Registry, Exception>)
    requires Closed(cat) && c in cat && i <= |cat[c].relations|
    ensures r.Success? ==> Keys(defs) <= Keys(r.value)
    decreases Unregistered(cat, Keys(defs)), |cat[c].relations| - i
  {
    if i == |cat[c].relations| then Success(defs)
    else
      var target := cat[c].relations[i].target;
      var defs1 := RelationProperty(cat, defs, c, i);
      RelationPropertyMeasure(cat, defs, c, i);
      var (defs2, added) :- AddModel(cat, defs1, target);
      if !added then
        var r :- WalkRelations(cat, defs2, c, i + 1);
        PrefixTrans(Keys(defs), Keys(defs1), Keys(r));
        Success(r)
      else
        var t := ClassBasename(target);
        RegisterShrinks(cat, Keys(defs1), target);
        var defs3 :- WalkRelations(cat, defs2, target, 0);
        ExtendNoGrow(cat, Keys(defs2), Keys(defs3));
        PrefixTrans(Keys(defs), Keys(defs1), Keys(defs2));
        PrefixTrans(Keys(defs), Keys(defs2), Keys(defs3));
        var r :- WalkRelations(cat, defs3, c, i + 1);
        PrefixTrans(Keys(defs), Keys(defs3), Keys(r));
        Success(r)
  }

  /** One step of the walk, unfolded once so that the facts below need not
      unfold it themselves. */
  lemma WalkStep(cat: map<string, ModelInfo>, defs: Registry, c: string, i: nat)
    requires Closed(cat) && c in cat && i < |cat[c].relations|
    requires WalkRelations(cat, defs, c, i).Success?
    ensures var target := cat[c].relations[i].target;
            var step := AddModel(cat, RelationProperty(cat, defs, c, i), target);
            && target in cat
            && step.Success?
            && (!step.value.1 ==> WalkRelations(cat, defs, c, i) == WalkRelations(cat, step.value.0, c, i + 1))
            && (step.value.1 ==>
                  && WalkRelations(cat, step.value.0, target, 0).Success?
                  && WalkRelations(cat, defs, c, i)
                     == WalkRelations(cat, WalkRelations(cat, step.value.0, target, 0).value, c, i + 1))
  {
    var target := cat[c].relations[i].target;
    var step := AddModel(cat, RelationProperty(cat, defs, c, i), target);
    assert target in cat && step.Success?;
    if step.value.1 {
      var sub := WalkRelations(cat, step.value.0, target, 0);
      assert sub.Success?;
      assert WalkRelations(cat, defs, c, i) == WalkRelations(cat, sub.value, c, i + 1);
    }
  }

  /** Names are registered at most once. */
  lemma {:induction false} WalkKeepsUniqueKeys(cat: map<string, ModelInfo>, defs: Registry, c: string, i: nat)
    requires Closed(cat) && c in cat && i <= |cat[c].relations|
    requires UniqueKeys(defs)
    requires WalkRelations(cat, defs, c, i).Success?
    ensures UniqueKeys(WalkRelations(cat, defs, c, i).value)
    decreases Unregistered(cat, Keys(defs)), |cat[c].relations| - i
  {
    if i < |cat[c].relations| {
      WalkStep(cat, defs, c, i);
      var target := cat[c].relations[i].target;
      var defs1 := RelationProperty(cat, defs, c, i);
      RelationPropertyMeasure(cat, defs, c, i);
      var (defs2, added) := AddModel(cat, defs1, target).value;
      if !added {
        WalkKeepsUniqueKeys(cat, defs2, c, i + 1);
      } else {
        RegisterShrinks(cat, Keys(defs1), target);
        WalkKeepsUniqueKeys(cat, defs2, target, 0);
        var defs3 := WalkRelations(cat, defs2, target, 0).value;
        ExtendNoGrow(cat, Keys(defs2), Keys(defs3));
        WalkKeepsUniqueKeys(cat, defs3, c, i + 1);
      }
    }
  }

  /** Only catalog models are registered, and an entry that existed before the
      walk, other than `c`'s own, is never rebuilt. */
  lemma {:induction false} WalkKeepsOthers(cat: map<string, ModelInfo>, defs: Registry, c: string, i: nat)
    requires Closed(cat) && c in cat && i <= |cat[c].relations|
    requires WalkRelations(cat, defs, c, i).Success?
    ensures var r := WalkRelations(cat, defs, c, i).value;
            && (forall k :: k in Keys(defs) && k != ClassBasename(c) ==> Get(r, k) == Get(defs, k))
            && (forall k :: k in Keys(r) ==> k in Keys(defs) || CatalogName(cat, k))
    decreases Unregistered(cat, Keys(defs)), |cat[c].relations| - i
  {
    if i < |cat[c].relations| {
      WalkStep(cat, defs, c, i);
      var base := ClassBasename(c);
      assert CatalogName(cat, base);
      var target := cat[c].relations[i].target;
      var defs1 := RelationProperty(cat, defs, c, i);
      RelationPropertyFacts(cat, defs, c, i);
      RelationPropertyMeasure(cat, defs, c, i);
      var (defs2, added) := AddModel(cat, defs1, target).value;
      var r := WalkRelations(cat, defs, c, i).value;
      if !added {
        WalkKeepsOthers(cat, defs2, c, i + 1);
        forall k | k in Keys(defs) && k != base ensures Get(r, k) == Get(defs, k) {
          PrefixMember(Keys(defs), Keys(defs1), k);
        }
      } else {
        var t := ClassBasename(target);
        assert CatalogName(cat, t);
        RegisterShrinks(cat, Keys(defs1), target);
        WalkKeepsOthers(cat, defs2, target, 0);
        var defs3 := WalkRelations(cat, defs2, target, 0).value;
        ExtendNoGrow(cat, Keys(defs2), Keys(defs3));
        WalkKeepsOthers(cat, defs3, c, i + 1);
        forall k | k in Keys(defs) && k != base ensures Get(r, k) == Get(defs, k) {
          PrefixMember(Keys(defs), Keys(defs1), k);
          assert k != t;
          assert Get(defs2, k) == Get(defs1, k);
          PrefixMember(Keys(defs1), Keys(defs2), k);
          assert Get(defs3, k) == Get(defs2, k);
          PrefixMember(Keys(defs2), Keys(defs3), k);
        }
        forall k | k in Keys(r) ensures k in Keys(defs) || CatalogName(cat, k) {
          if k !in Keys(defs3) {
          } else if k !in Keys(defs2) {
          } else {
            assert k in Keys(defs1) || k == t;
          }
        }
      }
    }
  }

  /** `c`'s definition only gains properties during the walk. */
  lemma {:induction false} WalkKeepsOwnProperties(cat: map<string, ModelInfo>, defs: Registry, c: string, i: nat)
    requires Closed(cat) && c in cat && i <= |cat[c].relations|
    requires WalkRelations(cat, defs, c, i).Success?
    ensures forall q :: q in PropsOf(defs, ClassBasename(c)) ==> q in PropsOf(WalkRelations(cat, defs, c, i).value, ClassBasename(c))
    ensures RequiredOf(WalkRelations(cat, defs, c, i).value, ClassBasename(c)) == RequiredOf(defs, ClassBasename(c))
    decreases Unregistered(cat, Keys(defs)), |cat[c].relations| - i
  {
    if i < |cat[c].relations| {
      var mid := WalkStepOwnProperties(cat, defs, c, i);
      WalkKeepsOwnProperties(cat, mid, c, i + 1);
    }
  }

  /** A property of `c`'s definition that no relation from `i` on names keeps
      its schema through the walk, so column schemas are never overwritten
      by anything but a relation of the same name. */
  lemma {:induction false} WalkKeepsProperty(cat: map<string, ModelInfo>, defs: Registry, c: string, i: nat, q: string)
    requires Closed(cat) && c in cat && i <= |cat[c].relations|
    requires WalkRelations(cat, defs, c, i).Success?
    ensures !NamedFrom(cat[c].relations, i, q) ==>
              Get(PropsMap(WalkRelations(cat, defs, c, i).value, ClassBasename(c)), q) == Get(PropsMap(defs, ClassBasename(c)), q)
    decreases Unregistered(cat, Keys(defs)), |cat[c].relations| - i
  {
    if i < |cat[c].relations| && !NamedFrom(cat[c].relations, i, q) {
      var mid := WalkStepOwnProperties(cat, defs, c, i);
      assert cat[c].relations[i].accessor != q;
      WalkKeepsProperty(cat, mid, c, i + 1, q);
    }
  }

  /** Relation `j`, walked from `i` on, leaves its accessor among the
      properties of `c`'s definition. */
  lemma {:induction false} WalkSetsAccessor(cat: map<string, ModelInfo>, defs: Registry, c: string, i: nat, j: nat)
    requires Closed(cat) && c in cat && i <= j < |cat[c].relations|
    requires WalkRelations(cat, defs, c, i).Success?
    ensures cat[c].relations[j].accessor in PropsOf(WalkRelations(cat, defs, c, i).value, ClassBasename(c))
    ensures LastWithAccessor(cat[c].relations, j) ==>
              Get(PropsMap(WalkRelations(cat, defs, c, i).value, ClassBasename(c)), cat[c].relations[j].accessor)
              == Some(RelationSchema(cat[c].relations[j]))
    decreases Unregistered(cat, Keys(defs)), |cat[c].relations| - i
  {
    var mid := WalkStepOwnProperties(cat, defs, c, i);
    if j == i {
      WalkKeepsOwnProperties(cat, mid, c, i + 1);
      WalkKeepsProperty(cat, mid, c, i + 1, cat[c].relations[j].accessor);
    } else {
      WalkSetsAccessor(cat, mid, c, i + 1, j);
    }
  }

  /** Every relation walked from `i` on leaves its accessor among the
      properties of `c`'s definition. */
  lemma WalkSetsRelationProperties(cat: map<string, ModelInfo>, defs: Registry, c: string, i: nat)
    requires Closed(cat) && c in cat && i <= |cat[c].relations|
    requires WalkRelations(cat, defs, c, i).Success?
    ensures var r := WalkRelations(cat, defs, c, i).value;
            forall j :: i <= j < |cat[c].relations| ==> cat[c].relations[j].accessor in PropsOf(r, ClassBasename(c))
    ensures var r := WalkRelations(cat, defs, c, i).value;
            forall j :: i <= j < |cat[c].relations| && LastWithAccessor(cat[c].relations, j) ==>
              Get(PropsMap(r, ClassBasename(c)), cat[c].relations[j].accessor) == Some(RelationSchema(cat[c].relations[j]))
  {
    forall j | i <= j < |cat[c].relations| {
      WalkSetsAccessor(cat, defs, c, i, j);
    }
  }

  /** Relation `i` and the walk it starts leave `c`'s definition with all the
      properties it had plus the relation's accessor; the walk then goes on
      from relation `i + 1`. */
  lemma WalkStepOwnProperties(cat: map<string, ModelInfo>, defs: Registry, c: string, i: nat) returns (mid: Registry)
    requires Closed(cat) && c in cat && i < |cat[c].relations|
    requires WalkRelations(cat, defs, c, i).Success?
    ensures WalkRelations(cat, mid, c, i + 1) == WalkRelations(cat, defs, c, i)
    ensures Unregistered(cat, Keys(mid)) < Unregistered(cat, Keys(defs)) || Unregistered(cat, Keys(mid)) == Unregistered(cat, Keys(defs))
    ensures forall q :: q in PropsOf(defs, ClassBasename(c)) ==> q in PropsOf(mid, ClassBasename(c))
    ensures cat[c].relations[i].accessor in PropsOf(mid, ClassBasename(c))
    ensures Get(PropsMap(mid, ClassBasename(c)), cat[c].relations[i].accessor) == Some(RelationSchema(cat[c].relations[i]))
    ensures forall q :: q != cat[c].relations[i].accessor ==>
              Get(PropsMap(mid, ClassBasename(c)), q) == Get(PropsMap(defs, ClassBasename(c)), q)
    ensures RequiredOf(mid, ClassBasename(c)) == RequiredOf(defs, ClassBasename(c))
  {
    mid := WalkStepKeepsOwnEntry(cat, defs, c, i);
    RelationPropertyFacts(cat, defs, c, i);
    var defs1 := RelationProperty(cat, defs, c, i);
    assert PropsMap(mid, ClassBasename(c)) == PropsMap(defs1, ClassBasename(c));
    assert RequiredOf(mid, ClassBasename(c)) == RequiredOf(defs1, ClassBasename(c));
  }

  /** Relation `i` and the walk it starts leave `c`'s entry as setting the
      relation's property made it. */
  lemma WalkStepKeepsOwnEntry(cat: map<string, ModelInfo>, defs: Registry, c: string, i: nat) returns (mid: Registry)
    requires Closed(cat) && c in cat && i < |cat[c].relations|
    requires WalkRelations(cat, defs, c, i).Success?
    ensures WalkRelations(cat, mid, c, i + 1) == WalkRelations(cat, defs, c, i)
    ensures Unregistered(cat, Keys(mid)) < Unregistered(cat, Keys(defs)) || Unregistered(cat, Keys(mid)) == Unregistered(cat, Keys(defs))
    ensures Get(mid, ClassBasename(c)) == Get(RelationProperty(cat, defs, c, i), ClassBasename(c))
  {
    WalkStep(cat, defs, c, i);
    var base := ClassBasename(c);
    var rel := cat[c].relations[i];
    var defs1 := RelationProperty(cat, defs, c, i);
    RelationPropertyMeasure(cat, defs, c, i);
    var (defs2, added) := AddModel(cat, defs1, rel.target).value;
    mid := defs2;
    if added {
      assert Get(defs1, base).Some?;
      mid := SubWalkKeepsEntry(cat, defs1, rel.target, base);
    }
  }

  /** Following a newly registered related model leaves an entry that was
      already registered as it was, and registers at least the new model. */
  lemma SubWalkKeepsEntry(cat: map<string, ModelInfo>, defs1: Registry, t: string, base: string) returns (mid: Registry)
    requires Closed(cat) && t in cat && base in Keys(defs1)
    requires AddModel(cat, defs1, t).Success? && AddModel(cat, defs1, t).value.1
    requires WalkRelations(cat, AddModel(cat, defs1, t).value.0, t, 0).Success?
    ensures mid == WalkRelations(cat, AddModel(cat, defs1, t).value.0, t, 0).value
    ensures Get(mid, base) == Get(defs1, base)
    ensures Unregistered(cat, Keys(mid)) < Unregistered(cat, Keys(defs1))
  {
    var defs2 := AddModel(cat, defs1, t).value.0;
    assert ClassBasename(t) != base;
    RegisterShrinks(cat, Keys(defs1), t);
    WalkKeepsOthers(cat, defs2, t, 0);
    mid := WalkRelations(cat, defs2, t, 0).value;
    assert base in Keys(defs2);
    ExtendNoGrow(cat, Keys(defs2), Keys(mid));
  }

  /** The walk from a freshly registered model: the model, then its relations. */
  function ModelDefinitions(cat: map<string, ModelInfo>, c: string): (r: Result<Registry, Exception>)
    requires Closed(cat) && c in cat
    ensures r.Failure? ==> exists m :: m in cat && cat[m].appends.AppendsNotArray?
    ensures r.Success? ==> UniqueKeys(r.value)
    ensures r.Success? ==> |r.value| >= 1 && r.value[0].0 == ClassBasename(c)
    ensures r.Success? ==> forall k :: k in Keys(r.value) ==> CatalogName(cat, k)
    ensures r.Success? ==> forall j :: 0 <= j < |cat[c].relations| ==>
              cat[c].relations[j].accessor in PropsOf(r.value, ClassBasename(c))
    ensures r.Success? ==> forall j :: 0 <= j < |cat[c].relations| && LastWithAccessor(cat[c].relations, j) ==>
              Get(PropsMap(r.value, ClassBasename(c)), cat[c].relations[j].accessor) == Some(RelationSchema(cat[c].relations[j]))
    ensures r.Success? ==> DefinitionProperties(cat[c]).Success? && RequiredOf(r.value, ClassBasename(c)) == []
    ensures r.Success? ==> forall q :: !NamedFrom(cat[c].relations, 0, q) ==>
              Get(PropsMap(r.value, ClassBasename(c)), q) == Get(DefinitionProperties(cat[c]).value, q)
  {
    var (defs, _) :- AddModel(cat, [], c);
    assert Keys(defs) == [ClassBasename(c)];
    assert CatalogName(cat, ClassBasename(c));
    var walk := WalkRelations(cat, defs, c, 0);
    if walk.Failure? then
      WalkFailure(cat, defs, c, 0);
      Failure(walk.error)
    else
    var r := walk.value;
    WalkKeepsUniqueKeys(cat, defs, c, 0);
    WalkKeepsOthers(cat, defs, c, 0);
    WalkSetsRelationProperties(cat, defs, c, 0);
    WalkKeepsOwnProperties(cat, defs, c, 0);
    forall q | !NamedFrom(cat[c].relations, 0, q)
      ensures Get(PropsMap(r, ClassBasename(c)), q) == Get(DefinitionProperties(cat[c]).value, q)
    {
      WalkKeepsProperty(cat, defs, c, 0, q);
    }
    Success(r)
  }

  /** A walk fails only on a model whose `getAppends()` is not an array. */
  lemma {:induction false} WalkFailure(cat: map<string, ModelInfo>, defs: Registry, c: string, i: nat)
    requires Closed(cat) && c in cat && i <= |cat[c].relations|
    requires WalkRelations(cat, defs, c, i).Failure?
    ensures exists m :: m in cat && cat[m].appends.AppendsNotArray?
    decreases Unregistered(cat, Keys(defs)), |cat[c].relations| - i
  {
    var target := cat[c].relations[i].target;
    var defs1 := RelationProperty(cat, defs, c, i);
    RelationPropertyMeasure(cat, defs, c, i);
    var step := AddModel(cat, defs1, target);
    if step.Success? {
      var (defs2, added) := step.value;
      if !added {
        WalkFailure(cat, defs2, c, i + 1);
      } else {
        RegisterShrinks(cat, Keys(defs1), target);
        var sub := WalkRelations(cat, defs2, target, 0);
        if sub.Failure? {
          WalkFailure(cat, defs2, target, 0);
        } else {
          ExtendNoGrow(cat, Keys(defs2), Keys(sub.value));
          WalkFailure(cat, sub.value, c, i + 1);
        }
      }
    }
  }

  // ---------------------------------------------------------------- error definitions

  /** A handler class of `errors_definitions`: the two the package ships, or
      any other subclass of the handler base, given by the content it returns.
      Subclasses choose the content only; `handle` is final. */
  datatype ErrorHandler =
    | DefaultErrorHandler
    | ValidationErrorHandler
    | CustomHandler(content: Schema)

  /** One entry of `errors_definitions`: its key (the definition name), the
      exception class it documents, and its handler. */
  datatype ErrorDefinitionConfig = ErrorDefinitionConfig(ref: string, exception: string, handler: ErrorHandler)

  const InvalidDataExample: string := "The given data was invalid"

  /** The `message` property both shipped handlers write. */
  const MessageProperty: Schema := Typed("string", None, [], Some(InvalidDataExample))

  /** `DefaultErrorDefinitionHandler::getDefinitionContent`. */
  const DefaultErrorContent: Schema := Object(["message"], [("message", MessageProperty)])

  /** The errors property of one validated field. */
  function FieldErrors(field: string): Schema {
    ArrayOf(Plain("string"), Some("Errors on \"" + field + "\" parameter"))
  }

  /** The `foreach ($formRequest->rules() ...)` loop: one array-of-strings
      property per rule key. */
  function ErrorsProperties(acc: OMap<string, Schema>, rules: RuleMap): (r: OMap<string, Schema>)
    ensures UniqueKeys(acc) ==> UniqueKeys(r)
    ensures forall k :: k in Keys(r) <==> k in Keys(acc) || k in Keys(rules)
    ensures forall k :: k in Keys(rules) ==> Get(r, k) == Some(FieldErrors(k))
    ensures forall k :: k !in Keys(rules) ==> Get(r, k) == Get(acc, k)
    decreases |rules|
  {
    if |rules| == 0 then acc
    else
      assert forall k :: k in Keys(rules) <==> k == rules[0].0 || k in Keys(rules[1..]);
      ErrorsProperties(Put(acc, rules[0].0, FieldErrors(rules[0].0)), rules[1..])
  }

  /** The loop appends the rule keys to the properties in the rules' own
      order, when the keys are distinct and none was already present. */
  lemma {:induction false} ErrorsPropertiesKeys(acc: OMap<string, Schema>, rules: RuleMap)
    requires UniqueKeys(rules)
    requires forall k :: k in Keys(rules) ==> k !in Keys(acc)
    ensures Keys(ErrorsProperties(acc, rules)) == Keys(acc) + Keys(rules)
    decreases |rules|
  {
    if |rules| > 0 {
      var k := rules[0].0;
      var acc' := Put(acc, k, FieldErrors(k));
      assert Keys(rules) == [k] + Keys(rules[1..]);
      assert Keys(acc') == Keys(acc) + [k];
      ErrorsPropertiesKeys(acc', rules[1..]);
      SeqAssoc(Keys(acc), [k], Keys(rules[1..]));
    }
  }

  /** `ValidationErrorDefinitionHandler::getDefinitionContent`: `message` and
      `errors` are required; `errors` has one property per form-request field,
      and none when the action has no form request. */
  function ValidationErrorContent(rules: Option<RuleMap>): (s: Schema)
    ensures s.Object? && s.required == ["message", "errors"]
    ensures Keys(s.properties) == ["message", "errors"]
    ensures Get(s.properties, "message") == Some(MessageProperty)
    ensures var errors := Get(s.properties, "errors");
            && errors.Some? && errors.value.Object? && errors.value.required == []
            && UniqueKeys(errors.value.properties)
            && (rules.None? ==> errors.value.properties == [])
            && (rules.Some? ==> forall k :: k in Keys(errors.value.properties) <==> k in Keys(rules.value))
            && (rules.Some? ==> forall k :: k in Keys(rules.value) ==> Get(errors.value.properties, k) == Some(FieldErrors(k)))
            && (rules.Some? && UniqueKeys(rules.value) ==> Keys(errors.value.properties) == Keys(rules.value))
  {
    var props := if rules.Some? then ErrorsProperties([], rules.value) else [];
    assert rules.Some? && UniqueKeys(rules.value) ==> Keys(props) == Keys(rules.value) by {
      if rules.Some? && UniqueKeys(rules.value) {
        ErrorsPropertiesKeys([], rules.value);
        assert Keys<string, Schema>([]) + Keys(rules.value) == Keys(rules.value);
      }
    }
    var s := Object(["message", "errors"], [("message", MessageProperty), ("errors", Object([], props))]);
    assert Keys(s.properties) == ["message", "errors"];
    s
  }

  /** What a handler's `getDefinitionContent` returns for a route. */
  function HandlerContent(h: ErrorHandler, r: RouteRecord, app: App): Schema {
    match h
    case DefaultErrorHandler => DefaultErrorContent
    case ValidationErrorHandler => ValidationErrorContent(FormRequestRules(r, app))
    case CustomHandler(content) => content
  }

  /** `handle`: the content under the entry's key, and nothing else. */
  function Handle(cfg: ErrorDefinitionConfig, r: RouteRecord, app: App): (d: Registry)
    ensures Keys(d) == [cfg.ref]
    ensures Get(d, cfg.ref) == Some(HandlerContent(cfg.handler, r, app))
  {
    [(cfg.ref, HandlerContent(cfg.handler, r, app))]
  }

  /** The default error definition is an object requiring only `message`, a
      string, and it is the same whatever the route. */
  lemma DefaultErrorContentShape(r: RouteRecord, app: App, r': RouteRecord, app': App)
    ensures var s := HandlerContent(DefaultErrorHandler, r, app);
            && s.Object? && s.required == ["message"]
            && Keys(s.properties) == ["message"]
            && Get(s.properties, "message") == Some(Typed("string", None, [], Some(InvalidDataExample)))
            && s == HandlerContent(DefaultErrorHandler, r', app')
  {
  }

  /** `findExceptionDefinitionHandler`: the first entry documenting exactly this
      exception class. */
  function FindHandler(config: seq<ErrorDefinitionConfig>, exception: string): (r: Option<ErrorDefinitionConfig>)
    ensures r.None? <==> forall i :: 0 <= i < |config| ==> config[i].exception != exception
    ensures r.Some? ==> r.value.exception == exception
    ensures r.Some? ==>
              (exists i :: 0 <= i < |config| && config[i] == r.value
                           && forall j :: 0 <= j < i ==> config[j].exception != exception)
  {
    if |config| == 0 then None
    else if config[0].exception == exception then Some(config[0])
    else
      var r := FindHandler(config[1..], exception);
      assert forall j :: 1 <= j < |config| ==> config[j] == config[1..][j - 1];
      if r.Some? then
        var i :| 0 <= i < |config[1..]| && config[1..][i] == r.value
                 && forall j :: 0 <= j < i ==> config[1..][j].exception != exception;
        assert config[i + 1] == r.value;
        r
      else r
  }

  /** The key an exception's definition is filed under, if it has a handler. */
  predicate DocumentedAs(config: seq<ErrorDefinitionConfig>, e: string, k: string) {
    FindHandler(config, e).Some? && FindHandler(config, e).value.ref == k
  }

  /** One iteration of `generateFromErrors`: the exception's definition, if it
      has a handler, is added by array union. */
  function AddErrorDefinition(defs: Registry, e: string, config: seq<ErrorDefinitionConfig>,
                              r: RouteRecord, app: App): (res: Registry)
    ensures Keys(defs) <= Keys(res)
    ensures UniqueKeys(defs) ==> UniqueKeys(res)
    ensures forall k :: k in Keys(defs) ==> Get(res, k) == Get(defs, k)
    ensures FindHandler(config, e).Some? ==> FindHandler(config, e).value.ref in Keys(res)
    ensures forall k :: k in Keys(res) && k !in Keys(defs) ==> DocumentedAs(config, e, k)
  {
    match FindHandler(config, e)
    case None => defs
    case Some(cfg) =>
      var res := Union(defs, Handle(cfg, r, app));
      assert forall k :: k in Keys(res) && k !in Keys(defs) ==> k == cfg.ref;
      res
  }

  /** `generateFromErrors`: each exception with a handler adds its definition
      by array union, so an existing key, model or error, is never replaced. */
  function ErrorDefinitions(defs: Registry, exceptions: seq<string>, config: seq<ErrorDefinitionConfig>,
                            r: RouteRecord, app: App): (res: Registry)
    ensures Keys(defs) <= Keys(res)
    ensures UniqueKeys(defs) ==> UniqueKeys(res)
    decreases |exceptions|
  {
    if |exceptions| == 0 then defs
    else
      var next := AddErrorDefinition(defs, exceptions[0], config, r, app);
      var res := ErrorDefinitions(next, exceptions[1..], config, r, app);
      PrefixTrans(Keys(defs), Keys(next), Keys(res));
      res
  }

  /** Error definitions never replace an entry, cover every exception that has
      a handler, and add nothing else. */
  lemma {:induction false} ErrorDefinitionsFacts(defs: Registry, exceptions: seq<string>, config: seq<ErrorDefinitionConfig>,
                                                 r: RouteRecord, app: App)
    ensures var res := ErrorDefinitions(defs, exceptions, config, r, app);
            && (forall k :: k in Keys(defs) ==> Get(res, k) == Get(defs, k))
            && (forall e :: e in exceptions && FindHandler(config, e).Some? ==> FindHandler(config, e).value.ref in Keys(res))
            && (forall k :: k in Keys(res) && k !in Keys(defs) ==> exists e :: e in exceptions && DocumentedAs(config, e, k))
    decreases |exceptions|
  {
    if |exceptions| > 0 {
      var e := exceptions[0];
      var next := AddErrorDefinition(defs, e, config, r, app);
      var res := ErrorDefinitions(defs, exceptions, config, r, app);
      assert res == ErrorDefinitions(next, exceptions[1..], config, r, app);
      ErrorDefinitionsFacts(next, exceptions[1..], config, r, app);
      forall k | k in Keys(defs) ensures Get(res, k) == Get(defs, k) {
        PrefixMember(Keys(defs), Keys(next), k);
      }
      forall x | x in exceptions && FindHandler(config, x).Some?
        ensures FindHandler(config, x).value.ref in Keys(res)
      {
        if x == e {
          PrefixMember(Keys(next), Keys(res), FindHandler(config, x).value.ref);
        } else {
          assert x in exceptions[1..];
        }
      }
      forall k | k in Keys(res) && k !in Keys(defs)
        ensures exists x :: x in exceptions && DocumentedAs(config, x, k)
      {
        if k in Keys(next) {
          assert DocumentedAs(config, e, k);
        } else {
          var x :| x in exceptions[1..] && DocumentedAs(config, x, k);
          assert x in exceptions;
        }
      }
    }
  }

  // ---------------------------------------------------------------- generate

  /** Every relation of every catalog model leads to a model of the
      application: what `get_all_model_relations` guarantees by construction. */
  predicate WellFormedApp(app: App) {
    Closed(app.models)
  }

  /** The model half of `generate`: nothing when some verb is not `get` or
      `post`; stop (`None`) when there is no model; otherwise the walk from the
      route's model. */
  function ModelStage(r: RouteRecord, app: App): (res: Result<Option<Registry>, Exception>)
    requires WellFormedApp(app)
    ensures !AllowsModelDefinitions(r) ==> res == Success(Some([]))
    ensures AllowsModelDefinitions(r) ==> (res == Success(None) <==> ModelName(r).None?)
    ensures AllowsModelDefinitions(r) && GetModel(r, app).Failure? ==> res == Failure(GetModel(r, app).error)
    ensures res.Failure? ==>
              AllowsModelDefinitions(r)
              && (GetModel(r, app).Failure? || exists m :: m in app.models && app.models[m].appends.AppendsNotArray?)
    ensures res.Success? && res.value.Some? ==> UniqueKeys(res.value.value)
    ensures res.Success? && res.value.Some? && AllowsModelDefinitions(r) ==>
              ModelName(r).Some? && |res.value.value| >= 1 && res.value.value[0].0 == ClassBasename(ModelName(r).value)
  {
    if !AllowsModelDefinitions(r) then Success(Some([]))
    else
      var model :- GetModel(r, app);
      if model.None? then Success(None)
      else
        var defs :- ModelDefinitions(app.models, model.value);
        Success(Some(defs))
  }

  /** `generate`, with the route that has no model returning no definitions,
      as the "no model" check intends. Models are walked only for routes whose
      verbs are all `get`/`post`; error definitions follow; the result is the
      insertion order reversed. */
  function Generate(r: RouteRecord, app: App, config: seq<ErrorDefinitionConfig>): (res: Result<Registry, Exception>)
    requires WellFormedApp(app)
    ensures !AllowsModelDefinitions(r) ==> res.Success?
    ensures AllowsModelDefinitions(r) && ModelName(r).None? ==> res == Success([])
    ensures res.Failure? ==> ModelStage(r, app).Failure? && res.error == ModelStage(r, app).error
    ensures res.Success? ==> UniqueKeys(res.value)
  {
    var stage :- ModelStage(r, app);
    if stage.None? then Success([])
    else Success(Reverse(ErrorDefinitions(stage.value, Exceptions(r, app), config, r, app)))
  }

  /** A failure is the model's: an unknown `@model` class, or a model on the
      walk whose appends are not an array. */
  lemma GenerateFailure(r: RouteRecord, app: App, config: seq<ErrorDefinitionConfig>)
    requires WellFormedApp(app)
    requires Generate(r, app, config).Failure?
    ensures AllowsModelDefinitions(r)
    ensures GetModel(r, app).Failure? ==> Generate(r, app, config).error == GetModel(r, app).error
    ensures GetModel(r, app).Success? ==> exists m :: m in app.models && app.models[m].appends.AppendsNotArray?
  {
  }

  /** The route's own model is the last definition. */
  lemma GenerateModelLast(r: RouteRecord, app: App, config: seq<ErrorDefinitionConfig>)
    requires WellFormedApp(app)
    requires Generate(r, app, config).Success? && AllowsModelDefinitions(r) && ModelName(r).Some?
    ensures var d := Generate(r, app, config).value;
            |d| >= 1 && d[|d| - 1].0 == ClassBasename(ModelName(r).value)
  {
    var defs := ModelStage(r, app).value.value;
    var all := ErrorDefinitions(defs, Exceptions(r, app), config, r, app);
    ReverseKeys(all);
    assert Keys(all)[0] == Keys(defs)[0];
  }

  /** The insertion order reversed: the walked models close the list, in the
      reverse of the order the walk found them. */
  lemma GenerateReverseOrder(r: RouteRecord, app: App, config: seq<ErrorDefinitionConfig>)
    requires WellFormedApp(app)
    requires Generate(r, app, config).Success? && ModelStage(r, app).value.Some?
    ensures var d := Generate(r, app, config).value;
            var m := ModelStage(r, app).value.value;
            |m| <= |d| && forall i :: |d| - |m| <= i < |d| ==> d[i].0 == m[|d| - 1 - i].0
  {
    var m := ModelStage(r, app).value.value;
    ReverseTail(m, ErrorDefinitions(m, Exceptions(r, app), config, r, app));
  }

  /** Before the models come the error definitions, each one named by a
      handled exception of the route. */
  lemma GenerateErrorsFirst(r: RouteRecord, app: App, config: seq<ErrorDefinitionConfig>)
    requires WellFormedApp(app)
    requires Generate(r, app, config).Success? && ModelStage(r, app).value.Some?
    ensures var d := Generate(r, app, config).value;
            var m := ModelStage(r, app).value.value;
            forall i :: 0 <= i < |d| - |m| ==>
              d[i].0 !in Keys(m) && exists e :: e in Exceptions(r, app) && DocumentedAs(config, e, d[i].0)
  {
    var es := Exceptions(r, app);
    var m := ModelStage(r, app).value.value;
    var all := ErrorDefinitions(m, es, config, r, app);
    ErrorDefinitionsFacts(m, es, config, r, app);
    var d := Generate(r, app, config).value;
    assert d == Reverse(all);
    forall i | 0 <= i < |d| - |m|
      ensures d[i].0 !in Keys(m) && exists e :: e in es && DocumentedAs(config, e, d[i].0)
    {
      ReverseEarlyKey(m, all, i);
    }
  }

  /** Unless the walk stopped for want of a model, every exception of the
      route that has a handler has its definition; for a route whose models
      are not walked, those are all the definitions there are. */
  lemma GenerateErrorDefinitions(r: RouteRecord, app: App, config: seq<ErrorDefinitionConfig>)
    requires WellFormedApp(app)
    requires Generate(r, app, config).Success?
    requires !AllowsModelDefinitions(r) || ModelName(r).Some?
    ensures forall e :: e in Exceptions(r, app) && FindHandler(config, e).Some? ==>
              FindHandler(config, e).value.ref in Keys(Generate(r, app, config).value)
    ensures !AllowsModelDefinitions(r) ==>
              forall k :: k in Keys(Generate(r, app, config).value) ==>
                exists e :: e in Exceptions(r, app) && DocumentedAs(config, e, k)
  {
    var es := Exceptions(r, app);
    var defs := ModelStage(r, app).value.value;
    var all := ErrorDefinitions(defs, es, config, r, app);
    ErrorDefinitionsFacts(defs, es, config, r, app);
    ReverseKeys(all);
    var d := Generate(r, app, config).value;
    assert d == Reverse(all);
    forall e | e in es && FindHandler(config, e).Some?
      ensures FindHandler(config, e).value.ref in Keys(d)
    {
      assert FindHandler(config, e).value.ref in Keys(all);
    }
    if !AllowsModelDefinitions(r) {
      assert defs == [];
      forall k | k in Keys(d) ensures exists e :: e in es && DocumentedAs(config, e, k) {
        assert k in Keys(all) && k !in Keys(defs);
      }
    }
  }

  /** `generate` as written: `getModel` signals "no model" with `null`, the
      check compares with `false`, and the walk then asks the missing model for
      its table. */
  function GenerateAsWritten(r: RouteRecord, app: App, config: seq<ErrorDefinitionConfig>): (res: Result<Registry, Exception>)
    requires WellFormedApp(app)
    ensures AllowsModelDefinitions(r) && ModelName(r).None? ==> res == Failure(NullModelError)
    ensures !(AllowsModelDefinitions(r) && ModelName(r).None?) ==> res == Generate(r, app, config)
  {
    if AllowsModelDefinitions(r) && GetModel(r, app) == Success(None) then Failure(NullModelError)
    else Generate(r, app, config)
  }

  /** The PHP error raised by `$this->model->getTable()` on a null model. */
  const NullModelError: Exception := Error("Call to a member function getTable() on null")

  /** A `get` route without `@model` (the closure `GET /orders` here) makes the
      code as written fail, while the intended result is no definitions. */
  lemma NullModelCounterexample()
    ensures var r := RouteRecord("/orders", ["GET"], Some("orders.index"), [], None);
            var app := App(map[], map[], map[]);
            && GenerateAsWritten(r, app, []) == Failure(NullModelError)
            && Generate(r, app, []) == Success([])
  {
    var r := RouteRecord("/orders", ["GET"], Some("orders.index"), [], None);
    assert ToLower("GET") == "get" by {
      forall i | 0 <= i < 3 ensures ToLower("GET")[i] == "get"[i] { }
    }
    assert Methods(r) == ["get"];
    assert ActionMethods(r) == ["get"];
  }
}
