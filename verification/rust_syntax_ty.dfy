/** Type definitions of the generated Rust syntax
    (`modules/rust/gen/src/syntax/ty.rs`): the set of derived traits and its
    iterator, the layout type parameters, and the choice of a struct's `new`
    constructor. */
module RustSyntaxTy {
  import opened Wrappers

  /** The derivable traits, in declaration order. */
  datatype Derive = Clone | PartialEq | Eq | Ord | Debug | Default

  /** `Derives`, one flag per trait; `DerivesIter` has the same fields and is
      modelled by the same type. */
  datatype Derives = Derives(clone: bool, partialEq: bool, eq: bool, ord: bool, debug: bool, default: bool)

  function Rank(d: Derive): (r: nat)
    ensures r < 6
  {
    match d
    case Clone => 0
    case PartialEq => 1
    case Eq => 2
    case Ord => 3
    case Debug => 4
    case Default => 5
  }

  lemma RankInjective(a: Derive, b: Derive)
    requires Rank(a) == Rank(b)
    ensures a == b
  {
  }

  /** Whether the flag of trait `d` is set. */
  predicate Has(ds: Derives, d: Derive) {
    match d
    case Clone => ds.clone
    case PartialEq => ds.partialEq
    case Eq => ds.eq
    case Ord => ds.ord
    case Debug => ds.debug
    case Default => ds.default
  }

  /** `Derives::is_empty`. */
  function IsEmpty(ds: Derives): (r: bool)
    ensures r <==> forall d: Derive :: !Has(ds, d)
  {
    assert Has(ds, Clone) == ds.clone && Has(ds, PartialEq) == ds.partialEq && Has(ds, Eq) == ds.eq
      && Has(ds, Ord) == ds.ord && Has(ds, Debug) == ds.debug && Has(ds, Default) == ds.default;
    !ds.clone && !ds.partialEq && !ds.eq && !ds.ord && !ds.debug && !ds.default
  }

  /** The number of flags set. */
  function Count(ds: Derives): (n: nat)
    ensures n == 0 <==> IsEmpty(ds)
  {
    (if ds.clone then 1 else 0) + (if ds.partialEq then 1 else 0) + (if ds.eq then 1 else 0)
    + (if ds.ord then 1 else 0) + (if ds.debug then 1 else 0) + (if ds.default then 1 else 0)
  }

  /** `DerivesIter::next`: yields the first set flag in declaration order
      and clears it. */
  function Next(it: Derives): (r: (Option<Derive>, Derives))
    ensures r.0.None? <==> IsEmpty(it)
    ensures r.0.None? ==> r.1 == it
    ensures r.0.Some? ==> Has(it, r.0.value) && !Has(r.1, r.0.value)
    ensures r.0.Some? ==> forall d :: Rank(d) < Rank(r.0.value) ==> !Has(it, d)
    ensures r.0.Some? ==> forall d :: d != r.0.value ==> (Has(r.1, d) <==> Has(it, d))
    ensures r.0.Some? ==> Count(r.1) == Count(it) - 1
  {
    if it.clone then (Some(Clone), it.(clone := false))
    else if it.partialEq then (Some(PartialEq), it.(partialEq := false))
    else if it.eq then (Some(Eq), it.(eq := false))
    else if it.ord then (Some(Ord), it.(ord := false))
    else if it.debug then (Some(Debug), it.(debug := false))
    else if it.default then (Some(Default), it.(default := false))
    else (None, it)
  }

  /** Everything the iterator yields until it returns `None`. */
  function Drain(it: Derives): (r: seq<Derive>)
    decreases Count(it)
  {
    match Next(it)
    case (None, _) => []
    case (Some(d), rest) => [d] + Drain(rest)
  }

  /** Iterating a `Derives` yields each set flag once, in declaration order,
      and nothing else. */
  lemma {:induction false} DrainListsFlags(ds: Derives)
    ensures forall d :: d in Drain(ds) <==> Has(ds, d)
    ensures forall i, j :: 0 <= i < j < |Drain(ds)| ==> Rank(Drain(ds)[i]) < Rank(Drain(ds)[j])
    ensures |Drain(ds)| == Count(ds)
    decreases Count(ds)
  {
    var (first, rest) := Next(ds);
    if first.Some? {
      DrainListsFlags(rest);
      var r := Drain(ds);
      assert r == [first.value] + Drain(rest);
      forall j | 1 <= j < |r|
        ensures Rank(r[0]) < Rank(r[j])
      {
        assert r[j] in Drain(rest);
        if Rank(r[j]) <= Rank(first.value) {
          if Rank(r[j]) == Rank(first.value) {
            RankInjective(r[j], first.value);
          }
        }
      }
      forall i, j | 0 <= i < j < |r|
        ensures Rank(r[i]) < Rank(r[j])
      {
        if i > 0 {
          assert r[i] == Drain(rest)[i - 1] && r[j] == Drain(rest)[j - 1];
        }
      }
    }
  }

  /** `Derives::is_empty` holds exactly when iterating yields nothing. */
  lemma EmptyIffNoDerive(ds: Derives)
    ensures IsEmpty(ds) <==> Drain(ds) == []
  {
    DrainListsFlags(ds);
  }

  /** The `#[derive(...)]` attribute emitted for a `Derives`: none when it
      is empty, otherwise the traits the iterator yields. */
  function DeriveAttribute(ds: Derives): (r: Option<seq<Derive>>)
    ensures r.None? <==> forall d: Derive :: !Has(ds, d)
    ensures r.Some? ==> r.value != [] && forall d :: d in r.value <==> Has(ds, d)
  {
    DrainListsFlags(ds);
    if IsEmpty(ds) then None else Some(Drain(ds))
  }

  /** `LayoutParameters`: the optional `identifier` type parameter.
      `LayoutParametersIter` has the same field and is modelled by the same
      type. */
  datatype LayoutParameters = LayoutParameters(identifier: Option<string>)

  /** `LayoutParameters::is_empty`. */
  function ParamsEmpty(p: LayoutParameters): (r: bool)
    ensures r <==> p.identifier.None?
  {
    p.identifier.None?
  }

  /** `LayoutParametersIter::next`: takes the first parameter that is set. */
  function ParamsNext(it: LayoutParameters): (r: (Option<string>, LayoutParameters))
    ensures r.0 == it.identifier
    ensures r.1.identifier.None?
  {
    match it.identifier
    case Some(id) => (Some(id), LayoutParameters(None))
    case None => (None, it)
  }

  function ParamsDrain(it: LayoutParameters): (r: seq<string>)
    decreases if it.identifier.Some? then 1 else 0
  {
    match ParamsNext(it)
    case (None, _) => []
    case (Some(id), rest) => [id] + ParamsDrain(rest)
  }

  /** Iterating the parameters yields exactly the ones that are set, and
      `is_empty` holds exactly when there are none. */
  lemma ParamsDrainListsSet(p: LayoutParameters)
    ensures forall id :: id in ParamsDrain(p) <==> p.identifier == Some(id)
    ensures |ParamsDrain(p)| <= 1
    ensures ParamsEmpty(p) <==> ParamsDrain(p) == []
  {
  }

  /** A field: its identifier, type and the expression `new` initialises it
      with. */
  datatype Field = Field(ident: string, ty: string, initialValue: string)

  datatype Struct = Struct(derives: Derives, ident: string, params: LayoutParameters, fields: seq<Field>, constructorInputs: seq<(string, string)>)

  /** The `new` constructor of a generated struct. */
  datatype Constructor =
    | FromDefault
    | FromInputs(inputs: seq<(string, string)>, inits: seq<string>)

  /** A struct deriving `Default` gets `new() = Self::default()`; any other
      one gets `new` over its constructor inputs, initialising each field
      with its initial value. */
  function StructConstructor(s: Struct): (c: Constructor)
    ensures c.FromDefault? <==> Has(s.derives, Default)
    ensures c.FromInputs? ==> c.inputs == s.constructorInputs && |c.inits| == |s.fields|
    ensures c.FromInputs? ==> forall i :: 0 <= i < |s.fields| ==> c.inits[i] == s.fields[i].initialValue
  {
    if s.derives.default then FromDefault
    else FromInputs(s.constructorInputs, seq(|s.fields|, i requires 0 <= i < |s.fields| => s.fields[i].initialValue))
  }

  /** The struct item's derive attribute lists `Default` exactly when its
      constructor is `Self::default()`. */
  lemma ConstructorMatchesDerive(s: Struct)
    ensures StructConstructor(s).FromDefault? <==> (DeriveAttribute(s.derives).Some? && Default in DeriveAttribute(s.derives).value)
  {
  }
}
