/**
 * The scope of the layout abstract syntax builder: the active base IRI, the
 * IRI prefixes in force and the variables bound so far, each with a unique
 * index.  Also the compact IRI resolution that uses it, the variable-name
 * syntax check and the `OneOrMany` list wrapper of the layout headers.
 *
 * IRIs are strings.  Resolving a relative reference against a base and
 * checking that a string is an IRI belong to an IRI library outside the
 * model; they are the `Iris` parameters below.
 */
module Scopes {
  import opened Wrappers

  /** The errors the scope and the compact IRI resolution report. */
  datatype BuildError =
    | NoBaseIri(iriRef: string)
    | InvalidIri(text: string)
    | UndeclaredVariable(name: string)
    | LayoutRedefinition
    | MissingLiteralTargetResource
    | NoPropertySubject
    | NoPropertyObject

  /** The IRI library: `resolved(r, base)` resolves the relative reference
    * `r` against `base`; `valid(s)` holds when `s` is an IRI. */
  datatype Iris = Iris(resolved: (string, string) -> string, valid: string -> bool)

  // ---------------------------------------------------------------------------
  // IRI schemes (section 3.1 of RFC 3986)
  // ---------------------------------------------------------------------------

  predicate IsAlpha(c: char) {
    'a' <= c <= 'z' || 'A' <= c <= 'Z'
  }

  predicate IsSchemeChar(c: char) {
    IsAlpha(c) || '0' <= c <= '9' || c == '+' || c == '-' || c == '.'
  }

  /** `scheme = ALPHA *( ALPHA / DIGIT / "+" / "-" / "." )` */
  predicate IsScheme(s: string) {
    |s| > 0 && IsAlpha(s[0]) && forall i :: 1 <= i < |s| ==> IsSchemeChar(s[i])
  }

  /** The index of the first `:` of `s`, if any. */
  function FirstColon(s: string): (r: Option<nat>)
    ensures r.Some? ==> var i := r.value; i < |s| && s[i] == ':' && ':' !in s[..i]
    ensures r.None? ==> ':' !in s
  {
    if s == [] then None
    else if s[0] == ':' then Some(0)
    else match FirstColon(s[1..])
      case Some(i) =>
        assert s[..i + 1] == [s[0]] + s[1..][..i];
        Some(i + 1)
      case None => None
  }

  /** The scheme of an IRI reference: the text before its first colon when
    * that text is a scheme.  A reference with a scheme is an IRI; one
    * without is a relative reference. */
  function Scheme(s: string): (r: Option<string>)
    ensures r.Some? ==> IsScheme(r.value) && |r.value| < |s| && s == r.value + [':'] + s[|r.value| + 1..]
    ensures r.None? ==> ':' !in s || !IsScheme(s[..FirstColon(s).value])
  {
    match FirstColon(s)
    case Some(i) =>
      if IsScheme(s[..i]) then
        assert s == s[..i] + [':'] + s[i + 1..];
        Some(s[..i])
      else None
    case None => None
  }

  /** A scheme followed by a colon is recognised as that scheme, whatever
    * comes after the colon. */
  lemma SchemeOfPrefixed(p: string, suffix: string)
    requires IsScheme(p)
    ensures Scheme(p + ":" + suffix) == Some(p)
  {
    var s := p + ":" + suffix;
    assert ':' !in p by {
      forall i | 0 <= i < |p| ensures p[i] != ':' {
        if i > 0 { assert IsSchemeChar(p[i]); }
      }
    }
    FirstColonAt(p, suffix);
    assert s[..|p|] == p;
  }

  lemma {:induction false} FirstColonAt(p: string, suffix: string)
    requires ':' !in p
    ensures FirstColon(p + ":" + suffix) == Some(|p|)
  {
    if p == [] {
      assert (p + ":" + suffix)[0] == ':';
    } else {
      assert (p + ":" + suffix)[1..] == p[1..] + ":" + suffix;
      FirstColonAt(p[1..], suffix);
    }
  }

  // ---------------------------------------------------------------------------
  // Scopes
  // ---------------------------------------------------------------------------

  /** `count` is the number of `bind` calls so far: the next fresh index. */
  datatype Scope = Scope(
    base: Option<string>,
    prefixes: map<string, string>,
    variables: map<string, nat>,
    count: nat)

  const EmptyScope := Scope(None, map[], map[], 0)

  /** Every bound index is below the count and no two names share one. */
  ghost predicate Valid(s: Scope) {
    (forall x :: x in s.variables ==> s.variables[x] < s.count)
    && (forall x, y :: x in s.variables && y in s.variables && x != y ==> s.variables[x] != s.variables[y])
  }

  /** Binds `name` to the next fresh index, shadowing any earlier binding. */
  function Bind(s: Scope, name: string): (r: Scope)
    ensures r.base == s.base && r.prefixes == s.prefixes
    ensures r.count == s.count + 1
    ensures Valid(s) ==> Valid(r)
  {
    s.(variables := s.variables[name := s.count], count := s.count + 1)
  }

  /** The index of a bound variable. */
  function Variable(s: Scope, name: string): (r: Result<nat, BuildError>)
    ensures r.Success? <==> name in s.variables
    ensures r.Failure? ==> r.error == UndeclaredVariable(name)
    ensures Valid(s) && r.Success? ==> r.value < s.count
  {
    if name in s.variables then Success(s.variables[name]) else Failure(UndeclaredVariable(name))
  }

  /** A freshly bound name is found at the index it was given, and every
    * other name keeps its binding. */
  lemma BindThenVariable(s: Scope, name: string, other: string)
    ensures Variable(Bind(s, name), name) == Success(s.count)
    ensures other != name ==> Variable(Bind(s, name), other) == Variable(s, other)
  {
  }

  /** Binds the names in order. */
  function BindAll(s: Scope, names: seq<string>): (r: Scope)
    ensures r.base == s.base && r.prefixes == s.prefixes
    ensures r.count == s.count + |names|
    ensures Valid(s) ==> Valid(r)
    decreases |names|
  {
    if names == [] then s else BindAll(Bind(s, names[0]), names[1..])
  }

  /** The position of the last occurrence of `x` in `names`. */
  function LastIndex(names: seq<string>, x: string): (r: nat)
    requires x in names
    ensures r < |names| && names[r] == x
    ensures forall j :: r < j < |names| ==> names[j] != x
  {
    if x in names[1..] then 1 + LastIndex(names[1..], x) else 0
  }

  /** After binding a list of names, a name of the list is found at the
    * index of its last occurrence, counted from the old count; every other
    * name keeps its old binding. */
  lemma {:induction false} BindAllVariable(s: Scope, names: seq<string>, x: string)
    ensures x in names ==> Variable(BindAll(s, names), x) == Success(s.count + LastIndex(names, x))
    ensures x !in names ==> Variable(BindAll(s, names), x) == Variable(s, x)
    decreases |names|
  {
    if names != [] {
      BindAllVariable(Bind(s, names[0]), names[1..], x);
      if x !in names[1..] && x == names[0] {
        BindThenVariable(s, names[0], x);
      } else if x !in names {
        BindThenVariable(s, names[0], x);
      }
    }
  }

  /** Clears the variables, keeping the base IRI and the prefixes. */
  function WithoutVariables(s: Scope): (r: Scope)
    ensures Valid(r) && r.count == 0
    ensures forall x :: Variable(r, x) == Failure(UndeclaredVariable(x))
    ensures r.base == s.base && r.prefixes == s.prefixes
  {
    Scope(s.base, s.prefixes, map[], 0)
  }

  // ---------------------------------------------------------------------------
  // Compact IRIs
  // ---------------------------------------------------------------------------

  /** Resolves a compact IRI: `p:s` whose scheme `p` is a declared prefix
    * expands to the prefix IRI followed by `s`; any other IRI is kept; a
    * relative reference is resolved against the base IRI. */
  function Resolve(iris: Iris, s: Scope, c: string): (r: Result<string, BuildError>)
    ensures r.Failure? && r.error.NoBaseIri? <==> Scheme(c).None? && s.base.None?
    ensures r.Failure? && r.error.NoBaseIri? ==> r.error.iriRef == c
    ensures Scheme(c).Some? && Scheme(c).value !in s.prefixes ==> r == Success(c)
    ensures r.Failure? && r.error.InvalidIri? ==> Scheme(c).Some? && Scheme(c).value in s.prefixes
    ensures r.Failure? ==> r.error.NoBaseIri? || r.error.InvalidIri?
  {
    match Scheme(c)
    case Some(scheme) =>
      if scheme in s.prefixes then
        var expanded := s.prefixes[scheme] + c[|scheme| + 1..];
        if iris.valid(expanded) then Success(expanded) else Failure(InvalidIri(expanded))
      else Success(c)
    case None =>
      match s.base
      case Some(base) => Success(iris.resolved(c, base))
      case None => Failure(NoBaseIri(c))
  }

  /** `p:suffix` with a declared prefix `p` expands to the prefix IRI
    * followed by `suffix`, when that text is an IRI. */
  lemma ResolvePrefixed(iris: Iris, s: Scope, p: string, suffix: string)
    requires IsScheme(p) && p in s.prefixes
    ensures iris.valid(s.prefixes[p] + suffix) ==> Resolve(iris, s, p + ":" + suffix) == Success(s.prefixes[p] + suffix)
    ensures !iris.valid(s.prefixes[p] + suffix) ==> Resolve(iris, s, p + ":" + suffix) == Failure(InvalidIri(s.prefixes[p] + suffix))
  {
    SchemeOfPrefixed(p, suffix);
    assert (p + ":" + suffix)[|p| + 1..] == suffix;
  }

  /** Resolution reads only the base IRI and the prefixes, so clearing or
    * binding variables does not change it. */
  lemma ResolveIgnoresVariables(iris: Iris, s: Scope, c: string, name: string)
    ensures Resolve(iris, WithoutVariables(s), c) == Resolve(iris, s, c)
    ensures Resolve(iris, Bind(s, name), c) == Resolve(iris, s, c)
  {
  }

  // ---------------------------------------------------------------------------
  // OneOrMany
  // ---------------------------------------------------------------------------

  datatype OneOrMany<T> = One(value: T) | Many(values: seq<T>)

  function AsSlice<T>(o: OneOrMany<T>): (r: seq<T>)
    ensures o.One? ==> |r| == 1
  {
    match o
    case One(t) => [t]
    case Many(v) => v
  }

  function Len<T>(o: OneOrMany<T>): (r: nat)
    ensures r == |AsSlice(o)|
  {
    match o
    case One(_) => 1
    case Many(v) => |v|
  }

  predicate IsEmpty<T>(o: OneOrMany<T>)
    ensures IsEmpty(o) <==> AsSlice(o) == []
  {
    match o
    case One(_) => false
    case Many(v) => v == []
  }

  /** A one-element list becomes `One`; any other list is kept as `Many`. */
  function FromSeq<T>(v: seq<T>): (r: OneOrMany<T>)
    ensures r.One? <==> |v| == 1
    ensures AsSlice(r) == v
  {
    if |v| == 1 then One(v[0]) else Many(v)
  }

  /** Converting back and forth is the identity, except that a one-element
    * `Many` is normalised to `One`. */
  lemma FromSlice<T>(o: OneOrMany<T>)
    ensures FromSeq(AsSlice(o)) == o <==> !(o.Many? && |o.values| == 1)
  {
    if o.Many? && |o.values| == 1 {
      assert FromSeq(AsSlice(o)).One?;
    }
  }

  /** The variables a header introduces: `input` (by default just `self`)
    * and `intro`. */
  const DefaultInput: OneOrMany<string> := One("self")

  predicate IsDefaultInput(input: OneOrMany<string>) {
    var slice := AsSlice(input);
    |slice| == 1 && slice[0] == "self"
  }

  /** `is_default` compares the contents, so it also holds for a `Many`
    * holding `self` alone. */
  lemma DefaultInputSpec(input: OneOrMany<string>)
    ensures IsDefaultInput(DefaultInput)
    ensures IsDefaultInput(input) <==> AsSlice(input) == AsSlice(DefaultInput)
    ensures IsDefaultInput(input) <==> input == DefaultInput || input == Many(["self"])
  {
    if IsDefaultInput(input) && input.Many? {
      assert input.values == ["self"];
    }
  }

  // ---------------------------------------------------------------------------
  // Layout headers
  // ---------------------------------------------------------------------------

  /** The scope-related part of a layout header.  `prefixes` lists the
    * prefix declarations in the order of their names. */
  datatype Header = Header(
    base: Option<string>,
    prefixes: seq<(string, string)>,
    input: OneOrMany<string>,
    intro: OneOrMany<string>)

  /** Resolves the prefix declarations against the scope `s` and adds them
    * to `acc`; the first failing declaration is the error. */
  function DeclarePrefixes(iris: Iris, s: Scope, decls: seq<(string, string)>, acc: map<string, string>): (r: Result<map<string, string>, BuildError>)
    ensures r.Success? ==> forall i :: 0 <= i < |decls| ==> decls[i].0 in r.value
    ensures r.Success? ==> forall p :: p in acc ==> p in r.value
    ensures r.Failure? ==> exists i :: 0 <= i < |decls| && Resolve(iris, s, decls[i].1).Failure?
    decreases |decls|
  {
    if decls == [] then Success(acc)
    else match Resolve(iris, s, decls[0].1)
      case Failure(e) => Failure(e)
      case Success(iri) =>
        var r := DeclarePrefixes(iris, s, decls[1..], acc[decls[0].0 := iri]);
        if r.Failure? then
          var i :| 0 <= i < |decls[1..]| && Resolve(iris, s, decls[1..][i].1).Failure?;
          assert Resolve(iris, s, decls[i + 1].1).Failure?;
          r
        else
          assert forall i :: 1 <= i < |decls| ==> decls[i] == decls[1..][i - 1];
          r
  }

  /** Extends `s` with a layout header: its base IRI, then its prefixes
    * (both resolved in `s`), then binds every `input` name and every
    * `intro` name, in that order. */
  function WithHeader(iris: Iris, s: Scope, h: Header): (r: Result<Scope, BuildError>)
    ensures r.Success? ==> r.value.count == s.count + Len(h.input) + Len(h.intro)
    ensures r.Success? && h.base.None? ==> r.value.base == s.base
    ensures r.Success? && h.base.Some? ==> r.value.base.Some? && Resolve(iris, s, h.base.value) == Success(r.value.base.value)
    ensures Valid(s) && r.Success? ==> Valid(r.value)
  {
    var base := match h.base
      case Some(b) => Resolve(iris, s, b).Map((iri: string) => Some(iri))
      case None => Success(s.base);
    if base.Failure? then Failure(base.error)
    else
      var prefixes := DeclarePrefixes(iris, s, h.prefixes, s.prefixes);
      if prefixes.Failure? then Failure(prefixes.error)
      else Success(BindAll(s.(base := base.value, prefixes := prefixes.value), AsSlice(h.input) + AsSlice(h.intro)))
  }

  /** Extends `s` with variables bound in order. */
  function WithIntro(s: Scope, intro: seq<string>): (r: Scope)
    ensures r.count == s.count + |intro|
    ensures r.base == s.base && r.prefixes == s.prefixes
    ensures Valid(s) ==> Valid(r)
  {
    BindAll(s, intro)
  }

  /** In a scope extended with a header, the inputs and intros are bound in
    * order from the old count: a name gets the position of its last
    * occurrence in `input ++ intro`. */
  lemma WithHeaderVariables(iris: Iris, s: Scope, h: Header, x: string)
    requires WithHeader(iris, s, h).Success?
    ensures var names := AsSlice(h.input) + AsSlice(h.intro);
      var r := WithHeader(iris, s, h).value;
      (x in names ==> Variable(r, x) == Success(s.count + LastIndex(names, x)))
      && (x !in names ==> Variable(r, x) == Variable(s, x))
  {
    var names := AsSlice(h.input) + AsSlice(h.intro);
    var base := match h.base
      case Some(b) => Resolve(iris, s, b).Map((iri: string) => Some(iri))
      case None => Success(s.base);
    var prefixes := DeclarePrefixes(iris, s, h.prefixes, s.prefixes);
    var s' := s.(base := base.value, prefixes := prefixes.value);
    BindAllVariable(s', names, x);
  }

  /** The first variable a field introduces after a header with distinct
    * names, in a scope whose variables were cleared, is at index
    * `|input| + |intro|`: the object the product layout gives a field's
    * property. */
  lemma FieldObjectIndex(iris: Iris, s: Scope, h: Header, fieldIntro: seq<string>)
    requires WithHeader(iris, WithoutVariables(s), h).Success?
    requires |fieldIntro| > 0 && fieldIntro[0] !in fieldIntro[1..]
    ensures Variable(WithIntro(WithHeader(iris, WithoutVariables(s), h).value, fieldIntro), fieldIntro[0])
      == Success(Len(h.input) + Len(h.intro))
  {
    var r := WithHeader(iris, WithoutVariables(s), h).value;
    BindAllVariable(r, fieldIntro, fieldIntro[0]);
    assert LastIndex(fieldIntro, fieldIntro[0]) == 0;
  }

  // ---------------------------------------------------------------------------
  // Variable names
  // ---------------------------------------------------------------------------

  /** `PN_CHARS_BASE` of the SPARQL 1.1 grammar. */
  predicate IsPnCharBase(c: char) {
    'A' <= c <= 'Z' || 'a' <= c <= 'z'
    || '\U{00C0}' <= c <= '\U{00D6}' || '\U{00D8}' <= c <= '\U{00F6}' || '\U{00F8}' <= c <= '\U{02FF}'
    || '\U{0370}' <= c <= '\U{037D}' || '\U{037F}' <= c <= '\U{1FFF}' || '\U{200C}' <= c <= '\U{200D}'
    || '\U{2070}' <= c <= '\U{218F}' || '\U{2C00}' <= c <= '\U{2FEF}' || '\U{3001}' <= c <= '\U{D7FF}'
    || '\U{F900}' <= c <= '\U{FDCF}' || '\U{FDF0}' <= c <= '\U{FFFD}' || '\U{10000}' <= c <= '\U{effff}'
  }

  /** `PN_CHARS_U`, which here admits `:` besides `_`. */
  predicate IsPnCharU(c: char) {
    IsPnCharBase(c) || c == '_' || c == ':'
  }

  /** `PN_CHARS`. */
  predicate IsPnChar(c: char) {
    IsPnCharU(c) || c == '-' || '0' <= c <= '9' || c == '\U{00B7}'
    || '\U{0300}' <= c <= '\U{036F}' || '\U{203F}' <= c <= '\U{2040}'
  }

  /** A variable name: a digit or `PN_CHARS_U` first, `PN_CHARS` after. */
  predicate IsVariableName(s: string) {
    |s| > 0 && ('0' <= s[0] <= '9' || IsPnCharU(s[0]))
    && forall i :: 1 <= i < |s| ==> IsPnChar(s[i])
  }

  /** Scans the name once, stopping at the first character out of place. */
  method CheckVariableName(s: string) returns (ok: bool)
    ensures ok <==> IsVariableName(s)
  {
    if |s| == 0 || !('0' <= s[0] <= '9' || IsPnCharU(s[0])) {
      return false;
    }
    var i := 1;
    while i < |s|
      invariant 1 <= i <= |s|
      invariant forall j :: 1 <= j < i ==> IsPnChar(s[j])
    {
      if !IsPnChar(s[i]) {
        return false;
      }
      i := i + 1;
    }
    return true;
  }

  // ---------------------------------------------------------------------------
  // Patterns and literal resources
  // ---------------------------------------------------------------------------

  /** A pattern of the abstract syntax: a variable name or a compact IRI. */
  datatype SyntaxPattern = VarPattern(name: string) | IriPattern(iri: string)

  /** A built pattern: a variable index or a resource, named by its IRI. */
  datatype Pattern = Var(index: nat) | Resource(iri: string)

  /** Builds a pattern: a variable is looked up, an IRI resolved. */
  function BuildPattern(iris: Iris, s: Scope, p: SyntaxPattern): (r: Result<Pattern, BuildError>)
    ensures p.VarPattern? ==> (r.Success? <==> p.name in s.variables)
    ensures p.VarPattern? && r.Success? ==> r.value == Var(s.variables[p.name])
    ensures p.IriPattern? && r.Success? ==> r.value.Resource? && Resolve(iris, s, p.iri) == Success(r.value.iri)
    ensures p.IriPattern? && r.Failure? ==> Resolve(iris, s, p.iri).Failure?
  {
    match p
    case VarPattern(name) => Variable(s, name).Map((i: nat) => Var(i))
    case IriPattern(c) => Resolve(iris, s, c).Map((iri: string) => Resource(iri))
  }

  /** The resource a literal layout describes: the explicit one if any,
    * else the first input, else an error. */
  function LiteralResource(iris: Iris, s: Scope, input: OneOrMany<string>, resource: Option<SyntaxPattern>): (r: Result<Pattern, BuildError>)
    ensures resource.None? && IsEmpty(input) ==> r == Failure(MissingLiteralTargetResource)
    ensures resource.None? && !IsEmpty(input) ==> r == Success(Var(0))
    ensures resource.Some? ==> r == BuildPattern(iris, s, resource.value)
  {
    match resource
    case Some(p) => BuildPattern(iris, s, p)
    case None => if IsEmpty(input) then Failure(MissingLiteralTargetResource) else Success(Var(0))
  }

  /** The default target of a literal layout is the variable its first
    * input is bound to, in a header built from a cleared scope. */
  lemma LiteralResourceIsFirstInput(iris: Iris, s: Scope, h: Header)
    requires WithHeader(iris, WithoutVariables(s), h).Success?
    requires !IsEmpty(h.input)
    requires AsSlice(h.input)[0] !in AsSlice(h.input)[1..] + AsSlice(h.intro)
    ensures LiteralResource(iris, WithHeader(iris, WithoutVariables(s), h).value, h.input, None)
      == Success(Var(0))
    ensures Variable(WithHeader(iris, WithoutVariables(s), h).value, AsSlice(h.input)[0]) == Success(0)
  {
    var names := AsSlice(h.input) + AsSlice(h.intro);
    var x := AsSlice(h.input)[0];
    assert names[0] == x;
    assert names[1..] == AsSlice(h.input)[1..] + AsSlice(h.intro);
    WithHeaderVariables(iris, WithoutVariables(s), h, x);
  }

  /** The property quad of a product-layout field: subject the first input,
    * object the first variable the field introduces. */
  function FieldProperty(headerInput: OneOrMany<string>, headerIntro: OneOrMany<string>, fieldIntro: OneOrMany<string>): (r: Result<(Pattern, Pattern), BuildError>)
    ensures r.Success? <==> !IsEmpty(headerInput) && !IsEmpty(fieldIntro)
    ensures IsEmpty(headerInput) ==> r == Failure(NoPropertySubject)
    ensures !IsEmpty(headerInput) && IsEmpty(fieldIntro) ==> r == Failure(NoPropertyObject)
    ensures r.Success? ==> r.value.0 == Var(0)
  {
    if IsEmpty(headerInput) then Failure(NoPropertySubject)
    else if IsEmpty(fieldIntro) then Failure(NoPropertyObject)
    else Success((Var(0), Var(Len(headerInput) + Len(headerIntro))))
  }

  /** The property quad of a list item: the subject is given by the list
    * node; the object is the first variable the item introduces. */
  function ItemProperty(s: Scope, subject: Option<nat>, itemIntro: OneOrMany<string>): (r: Result<(Pattern, Pattern), BuildError>)
    ensures r.Success? <==> subject.Some? && !IsEmpty(itemIntro)
    ensures subject.None? ==> r == Failure(NoPropertySubject)
    ensures subject.Some? && IsEmpty(itemIntro) ==> r == Failure(NoPropertyObject)
    ensures r.Success? ==> r.value.0 == Var(subject.value)
    ensures r.Success? ==> r.value.1.Var?
    ensures r.Success? && AsSlice(itemIntro)[0] !in AsSlice(itemIntro)[1..] ==>
      Variable(WithIntro(s, AsSlice(itemIntro)), AsSlice(itemIntro)[0]) == Success(r.value.1.index)
  {
    if IsEmpty(itemIntro) then
      if subject.None? then Failure(NoPropertySubject) else Failure(NoPropertyObject)
    else
      BindAllVariable(s, AsSlice(itemIntro), AsSlice(itemIntro)[0]);
      match subject
      case None => Failure(NoPropertySubject)
      case Some(x) => Success((Var(x), Var(s.count)))
  }
}
