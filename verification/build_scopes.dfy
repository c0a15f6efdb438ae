/**
 * The scope of the `treeldr-build` layout syntax (`build/src/syntax.rs`).
 * It differs from the layout crate's scope in one respect: a variable is
 * bound to the number of distinct names already bound, with no separate
 * counter.
 */
module BuildScopes {
  import opened Wrappers
  import Scopes

  datatype Error =
    | NoBaseIri
    | InvalidIri(text: string)
    | UndeclaredVariable(name: string)
    | LayoutRedefinition

  datatype Scope = Scope(base: Option<string>, prefixes: map<string, string>, variables: map<string, nat>)

  /** Binds `name` to the number of distinct names bound so far. */
  function Bind(s: Scope, name: string): (r: Scope)
    ensures r.base == s.base && r.prefixes == s.prefixes
    ensures name in s.variables ==> |r.variables| == |s.variables|
    ensures name !in s.variables ==> |r.variables| == |s.variables| + 1
    ensures Variable(r, name) == Success(|s.variables|)
    ensures forall x :: x != name ==> Variable(r, x) == Variable(s, x)
  {
    s.(variables := s.variables[name := |s.variables|])
  }

  function Variable(s: Scope, name: string): (r: Result<nat, Error>)
    ensures r.Success? <==> name in s.variables
    ensures r.Failure? ==> r.error == UndeclaredVariable(name)
    ensures r.Success? ==> r.value == s.variables[name]
  {
    if name in s.variables then Success(s.variables[name]) else Failure(UndeclaredVariable(name))
  }

  /** Clears the variables only. */
  function WithoutVariables(s: Scope): (r: Scope)
    ensures r.base == s.base && r.prefixes == s.prefixes
    ensures forall x :: Variable(r, x).Failure?
  {
    s.(variables := map[])
  }

  /** The indices are exactly `0 .. |variables|`, each used once. */
  ghost predicate Dense(s: Scope) {
    (forall x :: x in s.variables ==> s.variables[x] < |s.variables|)
    && (forall x, y :: x in s.variables && y in s.variables && x != y ==> s.variables[x] != s.variables[y])
  }

  /** Binding a name not yet bound keeps the indices dense and unique. */
  lemma BindFreshDense(s: Scope, name: string)
    requires Dense(s) && name !in s.variables
    ensures Dense(Bind(s, name))
    ensures Variable(Bind(s, name), name) == Success(|s.variables|)
  {
  }

  /** Binds the names in order, as a header's inputs and intros are. */
  function BindAll(s: Scope, names: seq<string>): (r: Scope)
    ensures r.base == s.base && r.prefixes == s.prefixes
    decreases |names|
  {
    if names == [] then s else BindAll(Bind(s, names[0]), names[1..])
  }

  /** Without shadowing, binding in order hands out consecutive fresh
    * indices: the name at position `i` gets `|variables| + i`. */
  lemma {:induction false} BindAllFresh(s: Scope, names: seq<string>, i: nat)
    requires Dense(s)
    requires forall j, k :: 0 <= j < k < |names| ==> names[j] != names[k]
    requires forall j :: 0 <= j < |names| ==> names[j] !in s.variables
    requires i < |names|
    ensures Dense(BindAll(s, names))
    ensures Variable(BindAll(s, names), names[i]) == Success(|s.variables| + i)
    decreases |names|
  {
    BindFreshDense(s, names[0]);
    var s1 := Bind(s, names[0]);
    var rest := names[1..];
    assert BindAll(s, names) == BindAll(s1, rest);
    assert |s1.variables| == |s.variables| + 1;
    assert forall j, k :: 0 <= j < k < |rest| ==> rest[j] != rest[k] by {
      forall j, k | 0 <= j < k < |rest| ensures rest[j] != rest[k] {
        assert rest[j] == names[j + 1] && rest[k] == names[k + 1];
      }
    }
    assert forall j :: 0 <= j < |rest| ==> rest[j] !in s1.variables by {
      forall j | 0 <= j < |rest| ensures rest[j] !in s1.variables {
        assert rest[j] == names[j + 1] && names[j + 1] != names[0];
      }
    }
    if |names| == 1 {
      assert BindAll(s1, names[1..]) == s1;
    } else if i == 0 {
      BindAllFresh(s1, names[1..], 0);
      BindAllKeeps(s1, names[1..], names[0]);
    } else {
      BindAllFresh(s1, names[1..], i - 1);
      assert rest[i - 1] == names[i];
    }
  }

  lemma {:induction false} BindAllKeeps(s: Scope, names: seq<string>, x: string)
    requires x in s.variables && x !in names
    ensures Variable(BindAll(s, names), x) == Variable(s, x)
    decreases |names|
  {
    if names != [] {
      BindAllKeeps(Bind(s, names[0]), names[1..], x);
    }
  }

  /** Re-binding a bound name does not advance the counter, so the next
    * fresh name receives the same index: after binding `a`, `b`, `a` and
    * `c`, the variables `a` and `c` share index 2. */
  lemma RebindCollides()
    ensures var s := Bind(Bind(Bind(Bind(Scope(None, map[], map[]), "a"), "b"), "a"), "c");
      Variable(s, "a") == Success(2) && Variable(s, "c") == Success(2)
  {
    var s0 := Scope(None, map[], map[]);
    var s1 := Bind(s0, "a");
    assert s1.variables == map["a" := 0];
    var s2 := Bind(s1, "b");
    assert s2.variables.Keys == {"a", "b"};
    assert |s2.variables| == 2;
    var s3 := Bind(s2, "a");
    assert s3.variables.Keys == {"a", "b"};
    var s4 := Bind(s3, "c");
    assert s4.variables["c"] == 2;
  }

  /** In general: re-binding a bound name, then binding a new one, gives the
    * two the same index. */
  lemma RebindThenFreshCollide(s: Scope, x: string, y: string)
    requires x in s.variables && y !in s.variables
    ensures var r := Bind(Bind(s, x), y);
      Variable(r, x) == Variable(r, y) == Success(|s.variables|)
  {
    assert Bind(s, x).variables.Keys == s.variables.Keys;
  }

  /** Resolves a compact IRI; unlike the layout crate's scope, the missing
    * base error does not carry the reference. */
  function Resolve(iris: Scopes.Iris, s: Scope, c: string): (r: Result<string, Error>)
    ensures r == Failure(NoBaseIri) <==> Scopes.Scheme(c).None? && s.base.None?
    ensures var layoutScope := Scopes.Scope(s.base, s.prefixes, map[], 0);
      r.Success? <==> Scopes.Resolve(iris, layoutScope, c).Success?
    ensures var layoutScope := Scopes.Scope(s.base, s.prefixes, map[], 0);
      r.Success? ==> r.value == Scopes.Resolve(iris, layoutScope, c).value
  {
    match Scopes.Scheme(c)
    case Some(scheme) =>
      if scheme in s.prefixes then
        var expanded := s.prefixes[scheme] + c[|scheme| + 1..];
        if iris.valid(expanded) then Success(expanded) else Failure(InvalidIri(expanded))
      else Success(c)
    case None =>
      match s.base
      case Some(base) => Success(iris.resolved(c, base))
      case None => Failure(NoBaseIri)
  }

  /** Registers a built layout under its id.  The layout is stored in any
    * case; an id already holding a layout is reported as a redefinition. */
  function DefineLayout<L>(layouts: map<string, L>, id: string, layout: L): (r: (map<string, L>, Result<string, Error>))
    ensures id in r.0 && r.0[id] == layout
    ensures forall k :: k in layouts && k != id ==> k in r.0 && r.0[k] == layouts[k]
    ensures r.1.Failure? <==> id in layouts
    ensures r.1.Failure? ==> r.1.error == LayoutRedefinition
  {
    (layouts[id := layout], if id in layouts then Failure(LayoutRedefinition) else Success(id))
  }

  /** Defining the same id twice fails the second time. */
  lemma DefineTwice<L>(layouts: map<string, L>, id: string, a: L, b: L)
    ensures DefineLayout(DefineLayout(layouts, id, a).0, id, b).1 == Failure(LayoutRedefinition)
  {
  }
}
