/** `DataObjects\Middleware`: a middleware string `name:p1,p2` parsed into its
    name and parameter list. */
module Middleware {

  import opened Wrappers
  import opened Strings

  datatype Middleware = Middleware(name: string, parameters: seq<string>)

  /** The string a middleware was written as. */
  function Render(m: Middleware): string {
    if |m.parameters| == 0 then m.name else m.name + [':'] + Join(m.parameters, ',')
  }

  /** The constructor: only the first `:` splits; the rest is split on `,`.
      `a:` has the one parameter `""`; no `:` means no parameters. */
  function Parse(s: string): (m: Middleware)
    ensures ':' !in m.name
    ensures ':' !in s <==> m.parameters == []
    ensures ':' !in s ==> m.name == s
    ensures forall i :: 0 <= i < |m.parameters| ==> ',' !in m.parameters[i]
    ensures Render(m) == s
  {
    var (name, rest) := SplitOnce(s, ':');
    match rest
    case None => Middleware(name, [])
    case Some(tail) => Middleware(name, Split(tail, ','))
  }

  /** The other round trip: a middleware whose name has no `:` and whose
      parameters have no `,` is recovered from its string. */
  lemma {:induction false} ParseRender(m: Middleware)
    requires ':' !in m.name
    requires forall i :: 0 <= i < |m.parameters| ==> ',' !in m.parameters[i]
    ensures Parse(Render(m)) == m
  {
    if |m.parameters| > 0 {
      var s := Render(m);
      var (name, rest) := SplitOnce(s, ':');
      assert s == m.name + [':'] + Join(m.parameters, ',');
      SplitOnceAt(m.name, Join(m.parameters, ','), ':');
      SplitJoin(m.parameters, ',');
    }
  }

  /** `SplitOnce` stops at the first separator. */
  lemma {:induction false} SplitOnceAt(a: string, b: string, c: char)
    requires c !in a
    ensures SplitOnce(a + [c] + b, c) == (a, Some(b))
    decreases |a|
  {
    if |a| > 0 {
      assert (a + [c] + b)[1..] == a[1..] + [c] + b;
      SplitOnceAt(a[1..], b, c);
      assert [a[0]] + a[1..] == a;
    } else {
      assert (a + [c] + b)[1..] == b;
    }
  }

  /** The worked example `route-middleware:test,test2`. */
  lemma ParseExample()
    ensures Parse("route-middleware:test,test2") == Middleware("route-middleware", ["test", "test2"])
  {
    var m := Middleware("route-middleware", ["test", "test2"]);
    assert Join(m.parameters, ',') == "test" + [','] + "test2";
    assert Render(m) == "route-middleware:test,test2";
    ParseRender(m);
  }
}
