/** Attribute parsing of the `treeldr` derive macro
    (`generators/rust/treeldr-rs-derive/src/parse.rs`): the type map that
    names Rust types by IRI, single-assignment of attribute values, token
    helpers, pattern strings, layout kinds and `Vec` item extraction. */
module RustDeriveParse {
  import opened Wrappers
  import opened RustSyn
  import Values

  datatype Error =
    | UnexpectedToken(token: TokenTree)
    | UnexpectedLiteral
    | MissingToken
    | InvalidPattern(value: string)
    | ConflictingValue
    | UnionType
    | ExpectedVec

  // Type map

  /** The IRI `rust:/#Type{i}` naming the `i`-th registered type. */
  function TypeIri(i: nat): string {
    "rust:/#Type" + Values.NatToString(i)
  }

  lemma TypeIriInjective(i: nat, j: nat)
    requires TypeIri(i) == TypeIri(j)
    ensures i == j
  {
    var prefix := "rust:/#Type";
    assert TypeIri(i)[|prefix|..] == Values.NatToString(i);
    assert TypeIri(j)[|prefix|..] == Values.NatToString(j);
    Values.NatToStringInjective(i, j);
  }

  /** The keys a type map can hold: `insert` is its only way in, so each key
      names one of the types registered so far. */
  predicate Built<T>(m: map<string, T>) {
    forall k :: k in m ==> exists j :: 0 <= j < |m| && k == TypeIri(j)
  }

  /** The IRI numbered by a built map's size is not in it yet, and adding
      it keeps the map built. */
  lemma FreshTypeIri<T>(m: map<string, T>, ty: T)
    requires Built(m)
    ensures TypeIri(|m|) !in m
    ensures Built(m[TypeIri(|m|) := ty]) && |m[TypeIri(|m|) := ty]| == |m| + 1
  {
    var iri := TypeIri(|m|);
    if iri in m {
      var j :| 0 <= j < |m| && iri == TypeIri(j);
      TypeIriInjective(j, |m|);
    }
    var m' := m[iri := ty];
    forall k | k in m'
      ensures exists j :: 0 <= j < |m'| && k == TypeIri(j)
    {
      if k == iri {
        assert k == TypeIri(|m|);
      } else {
        var j :| 0 <= j < |m| && k == TypeIri(j);
        assert k == TypeIri(j);
      }
    }
  }

  /** `TypeMap::insert`: names the type with the IRI numbered by the map's
      size, and registers it. */
  function Insert<T>(m: map<string, T>, ty: T): (r: (map<string, T>, string))
    requires Built(m)
    ensures r.1 !in m && r.1 in r.0 && r.0[r.1] == ty
    ensures |r.0| == |m| + 1 && Built(r.0)
    ensures forall k :: k in m ==> k in r.0 && r.0[k] == m[k]
  {
    FreshTypeIri(m, ty);
    var iri := TypeIri(|m|);
    (m[iri := ty], iri)
  }

  /** Registers several types in turn. */
  function InsertAll<T>(m: map<string, T>, tys: seq<T>): (r: (map<string, T>, seq<string>))
    requires Built(m)
    ensures Built(r.0) && |r.0| == |m| + |tys| && |r.1| == |tys|
    decreases |tys|
  {
    if tys == [] then (m, [])
    else
      var (m1, iri) := Insert(m, tys[0]);
      var (m2, iris) := InsertAll(m1, tys[1..]);
      (m2, [iri] + iris)
  }

  /** Registering several types numbers their IRIs on from the map's size. */
  lemma {:induction false} InsertAllIris<T>(m: map<string, T>, tys: seq<T>)
    requires Built(m)
    ensures forall i :: 0 <= i < |tys| ==> InsertAll(m, tys).1[i] == TypeIri(|m| + i)
    decreases |tys|
  {
    if tys != [] {
      var (m1, iri) := Insert(m, tys[0]);
      InsertAllIris(m1, tys[1..]);
      var rest := InsertAll(m1, tys[1..]).1;
      var iris := InsertAll(m, tys).1;
      assert iris == [iri] + rest;
      forall i | 0 <= i < |tys|
        ensures iris[i] == TypeIri(|m| + i)
      {
        if i > 0 {
          assert iris[i] == rest[i - 1];
        }
      }
    }
  }

  /** Every IRI `insert` hands out is new: registering several types gives
      pairwise distinct IRIs, none already in the map. */
  lemma InsertedIrisDistinct<T>(m: map<string, T>, tys: seq<T>)
    requires Built(m)
    ensures var iris := InsertAll(m, tys).1;
      (forall i, j :: 0 <= i < j < |iris| ==> iris[i] != iris[j])
      && forall i :: 0 <= i < |iris| ==> iris[i] !in m
  {
    var iris := InsertAll(m, tys).1;
    InsertAllIris(m, tys);
    NumberedIrisDistinct(iris, |m|);
    NumberedIrisFresh(m, iris);
  }

  /** IRIs numbered consecutively from `from` are pairwise distinct. */
  lemma NumberedIrisDistinct(iris: seq<string>, from: nat)
    requires forall i :: 0 <= i < |iris| ==> iris[i] == TypeIri(from + i)
    ensures forall i, j :: 0 <= i < j < |iris| ==> iris[i] != iris[j]
  {
    forall i, j | 0 <= i < j < |iris|
      ensures iris[i] != iris[j]
    {
      TypeIriDistinct(from + i, from + j);
    }
  }

  /** IRIs numbered from a built map's size on are not in it. */
  lemma NumberedIrisFresh<T>(m: map<string, T>, iris: seq<string>)
    requires Built(m)
    requires forall i :: 0 <= i < |iris| ==> iris[i] == TypeIri(|m| + i)
    ensures forall i :: 0 <= i < |iris| ==> iris[i] !in m
  {
    forall i | 0 <= i < |iris|
      ensures iris[i] !in m
    {
      BeyondSizeAbsent(m, |m| + i);
    }
  }

  lemma TypeIriDistinct(i: nat, j: nat)
    requires i != j
    ensures TypeIri(i) != TypeIri(j)
  {
    if TypeIri(i) == TypeIri(j) {
      TypeIriInjective(i, j);
    }
  }

  /** A built map holds no IRI numbered at or beyond its size. */
  lemma BeyondSizeAbsent<T>(m: map<string, T>, n: nat)
    requires Built(m) && n >= |m|
    ensures TypeIri(n) !in m
  {
    if TypeIri(n) in m {
      var j :| 0 <= j < |m| && TypeIri(n) == TypeIri(j);
      TypeIriInjective(j, n);
    }
  }

  // Single-assignment of attribute values

  /** `replace`: stores `value`, failing with `ConflictingValue` when a
      different value was stored before. The new value is stored even then. */
  function Replace<T(==)>(target: Option<T>, value: T): (r: (Option<T>, Result<(), Error>))
    ensures r.0 == Some(value)
    ensures r.1.Failure? <==> target.Some? && target.value != value
    ensures r.1.Failure? ==> r.1.error == ConflictingValue
  {
    match target
    case Some(previous) => (Some(value), if previous != value then Failure(ConflictingValue) else Success(()))
    case None => (Some(value), Success(()))
  }

  /** Repeated `replace` on one attribute, stopping at the first error as
      `?` does. */
  function ReplaceAll<T(==)>(target: Option<T>, values: seq<T>): (r: Result<Option<T>, Error>)
    decreases |values|
  {
    if values == [] then Success(target)
    else
      var (next, res) := Replace(target, values[0]);
      if res.Failure? then Failure(res.error) else ReplaceAll(next, values[1..])
  }

  /** An attribute given several times is accepted exactly when every
      occurrence repeats the value already set. */
  lemma {:induction false} ReplaceAllAgrees<T>(v: T, values: seq<T>)
    ensures ReplaceAll(Some(v), values).Success? <==> forall i :: 0 <= i < |values| ==> values[i] == v
    ensures ReplaceAll(Some(v), values).Success? ==> ReplaceAll(Some(v), values).value == Some(v)
    decreases |values|
  {
    if values != [] {
      ReplaceAllAgrees(v, values[1..]);
      assert forall i :: 1 <= i < |values| ==> values[1..][i - 1] == values[i];
    }
  }

  /** From an unset attribute, the occurrences are accepted exactly when they
      all agree with the first, which is then the value kept. */
  lemma FirstValueKept<T>(values: seq<T>)
    requires values != []
    ensures ReplaceAll(None, values).Success? <==> forall i :: 0 <= i < |values| ==> values[i] == values[0]
    ensures ReplaceAll(None, values).Success? ==> ReplaceAll(None, values).value == Some(values[0])
  {
    ReplaceAllAgrees(values[0], values[1..]);
    assert forall i :: 1 <= i < |values| ==> values[1..][i - 1] == values[i];
  }

  // Patterns

  /** A pattern of the abstract layout syntax: a variable, or an IRI
      (reference). */
  datatype Pattern = Var(name: string) | Iri(iri: string)

  /** `GraphValue`: keep the current graph, no graph, or a given graph. */
  datatype GraphValue = Keep | NoGraph | SomeGraph(graph: Pattern)

  /** `From<GraphValue> for Option<Option<Pattern>>`. */
  function GraphValueToOption(g: GraphValue): (r: Option<Option<Pattern>>)
    ensures r.None? <==> g.Keep?
    ensures r == Some(None) <==> g.NoGraph?
  {
    match g
    case Keep => None
    case NoGraph => Some(None)
    case SomeGraph(p) => Some(Some(p))
  }

  /** Reference inverse of the conversion. */
  function GraphValueOfOption(o: Option<Option<Pattern>>): GraphValue {
    match o
    case None => Keep
    case Some(None) => NoGraph
    case Some(Some(p)) => SomeGraph(p)
  }

  /** The conversion is a bijection: nothing is lost either way. */
  lemma GraphValueRoundTrip(g: GraphValue, o: Option<Option<Pattern>>)
    ensures GraphValueOfOption(GraphValueToOption(g)) == g
    ensures GraphValueToOption(GraphValueOfOption(o)) == o
  {
  }

  /** A blank node identifier `_:label`. Which labels are well formed is
      decided by the RDF types crate and enters as `validLabel`. */
  predicate IsBlankId(s: string, validLabel: string -> bool) {
    |s| >= 2 && s[0] == '_' && s[1] == ':' && validLabel(s[2..])
  }

  /** `parse_pattern`: a blank node identifier gives the variable named by
      its label; otherwise an IRI reference (decided by the IRI crate, here
      `isIriRef`) gives an IRI pattern; anything else is `InvalidPattern`. */
  function ParsePattern(value: string, validLabel: string -> bool, isIriRef: string -> bool): (r: Result<Pattern, Error>)
    ensures r.Success? && r.value.Var? <==> IsBlankId(value, validLabel)
    ensures r.Success? && r.value.Var? ==> "_:" + r.value.name == value
    ensures r.Success? && r.value.Iri? ==> !IsBlankId(value, validLabel) && isIriRef(value) && r.value.iri == value
    ensures r.Failure? <==> !IsBlankId(value, validLabel) && !isIriRef(value)
    ensures r.Failure? ==> r.error == InvalidPattern(value)
  {
    if IsBlankId(value, validLabel) then Success(Var(value[2..]))
    else if isIriRef(value) then Success(Iri(value))
    else Failure(InvalidPattern(value))
  }

  /** How a pattern is written in an attribute. */
  function PatternString(p: Pattern): string {
    match p
    case Var(name) => "_:" + name
    case Iri(iri) => iri
  }

  /** A pattern written out reads back as itself, provided its label is
      valid, or its IRI is an IRI reference that does not look like a blank
      node identifier. */
  lemma PatternRoundTrip(p: Pattern, validLabel: string -> bool, isIriRef: string -> bool)
    requires p.Var? ==> validLabel(p.name)
    requires p.Iri? ==> isIriRef(p.iri) && !IsBlankId(p.iri, validLabel)
    ensures ParsePattern(PatternString(p), validLabel, isIriRef) == Success(p)
  {
    if p.Var? {
      assert ("_:" + p.name)[2..] == p.name;
    }
  }

  // Tokens

  /** `parse_opt_comma`: consumes one token; a comma gives `true`, the end
      of the stream `false`, anything else `UnexpectedToken`. */
  function ParseOptComma(tokens: seq<TokenTree>): (r: Result<(bool, seq<TokenTree>), Error>)
    ensures r.Success? && r.value.0 <==> tokens != [] && tokens[0] == Punct(',')
    ensures r.Success? && !r.value.0 <==> tokens == []
    ensures r.Failure? ==> tokens != [] && r.error == UnexpectedToken(tokens[0])
    ensures r.Success? && tokens != [] ==> [tokens[0]] + r.value.1 == tokens
    ensures r.Success? ==> |r.value.1| <= |tokens|
  {
    if tokens == [] then Success((false, []))
    else if tokens[0] == Punct(',') then Success((true, tokens[1..]))
    else Failure(UnexpectedToken(tokens[0]))
  }

  /** `parse_comma`: a comma is required; the end of the stream is
      `MissingToken`. */
  function ParseComma(tokens: seq<TokenTree>): (r: Result<seq<TokenTree>, Error>)
    ensures r.Success? <==> tokens != [] && tokens[0] == Punct(',')
    ensures r.Success? ==> [tokens[0]] + r.value == tokens
    ensures tokens == [] ==> r == Failure(MissingToken)
  {
    var (b, rest) :- ParseOptComma(tokens);
    if b then Success(rest) else Failure(MissingToken)
  }

  /** `string_token`: the value of a string literal. */
  function StringToken(t: TokenTree): (r: Result<string, Error>)
    ensures r.Success? <==> t.StrLit?
    ensures r.Success? ==> r.value == t.value
    ensures t.OtherLit? ==> r == Failure(UnexpectedLiteral)
  {
    match t
    case StrLit(v) => Success(v)
    case OtherLit(_) => Failure(UnexpectedLiteral)
    case _ => Failure(UnexpectedToken(t))
  }

  /** `parse_list` with `string_token` (`parse_string_list`): items, each
      followed by an optional comma. */
  function ParseStringList(tokens: seq<TokenTree>): (r: Result<seq<string>, Error>)
    ensures r.Success? ==> |r.value| <= |tokens|
    decreases |tokens|
  {
    if tokens == [] then Success([])
    else
      var v :- StringToken(tokens[0]);
      var next :- ParseOptComma(tokens[1..]);
      var vs :- ParseStringList(next.1);
      Success([v] + vs)
  }

  /** A comma-separated list of string literals, as `quote!` writes it,
      reads back as the same strings. */
  lemma {:induction false} StringListRoundTrip(names: seq<string>)
    ensures ParseStringList(CommaSeparated(names)) == Success(names)
    decreases |names|
  {
    var ts := CommaSeparated(names);
    if |names| == 1 {
      assert ts == [StrLit(names[0])];
      assert ts[1..] == [];
      assert [names[0]] + [] == names;
    } else if |names| > 1 {
      assert ts == [StrLit(names[0]), Punct(',')] + CommaSeparated(names[1..]);
      assert ts[1..] == [Punct(',')] + CommaSeparated(names[1..]);
      assert ts[1..][1..] == CommaSeparated(names[1..]);
      StringListRoundTrip(names[1..]);
      assert [names[0]] + names[1..] == names;
    }
  }

  /** A trailing comma is accepted. */
  lemma TrailingCommaAccepted(names: seq<string>)
    requires names != []
    ensures ParseStringList(CommaSeparated(names) + [Punct(',')]) == Success(names)
  {
    TrailingCommaStep(names);
  }

  lemma {:induction false} TrailingCommaStep(names: seq<string>)
    requires names != []
    ensures ParseStringList(CommaSeparated(names) + [Punct(',')]) == Success(names)
    decreases |names|
  {
    var ts := CommaSeparated(names) + [Punct(',')];
    if |names| == 1 {
      assert ts == [StrLit(names[0]), Punct(',')];
      assert ts[1..][1..] == [];
      assert [names[0]] + [] == names;
    } else {
      assert ts == [StrLit(names[0]), Punct(',')] + (CommaSeparated(names[1..]) + [Punct(',')]);
      assert ts[1..][1..] == CommaSeparated(names[1..]) + [Punct(',')];
      TrailingCommaStep(names[1..]);
      assert [names[0]] + names[1..] == names;
    }
  }

  /** `expect_string_list_argument`: the next token must be a group, whose
      content is a string list; the rest of the stream follows. */
  function ExpectStringListArgument(tokens: seq<TokenTree>): (r: Result<(seq<string>, seq<TokenTree>), Error>)
    ensures tokens == [] ==> r == Failure(MissingToken)
    ensures tokens != [] && !tokens[0].Group? ==> r == Failure(UnexpectedToken(tokens[0]))
    ensures r.Success? ==> tokens[0].Group? && r.value.1 == tokens[1..]
    ensures r.Success? ==> ParseStringList(tokens[0].stream) == Success(r.value.0)
  {
    if tokens == [] then Failure(MissingToken)
    else match tokens[0]
      case Group(stream) =>
        var vs :- ParseStringList(stream);
        Success((vs, tokens[1..]))
      case _ => Failure(UnexpectedToken(tokens[0]))
  }

  /** A group holding a comma-separated string list is read back as that
      list, with nothing after it. */
  lemma ListArgumentReadBack(names: seq<string>)
    ensures ExpectStringListArgument([Group(CommaSeparated(names))]) == Success((names, []))
  {
    var tokens := [Group(CommaSeparated(names))];
    StringListRoundTrip(names);
    assert tokens[0].stream == CommaSeparated(names) && tokens[1..] == [];
  }

  // Layout kinds

  datatype Kind = Id | Unit | Boolean | Number | String | Bytes | Record | Sum | Set | List | Tuple

  /** The attribute name of each kind. */
  function KindName(k: Kind): string {
    match k
    case Id => "id"
    case Unit => "unit"
    case Boolean => "boolean"
    case Number => "number"
    case String => "string"
    case Bytes => "bytes"
    case Record => "record"
    case Sum => "sum"
    case Set => "set"
    case List => "list"
    case Tuple => "tuple"
  }

  /** `Kind::from_ident`: recognises exactly the eleven kind names. */
  function KindFromIdent(ident: string): (r: Option<Kind>)
    ensures r.Some? ==> KindName(r.value) == ident
    ensures r.None? ==> forall k :: KindName(k) != ident
  {
    if ident == "id" then Some(Id)
    else if ident == "unit" then Some(Unit)
    else if ident == "boolean" then Some(Boolean)
    else if ident == "number" then Some(Number)
    else if ident == "string" then Some(String)
    else if ident == "bytes" then Some(Bytes)
    else if ident == "record" then Some(Record)
    else if ident == "sum" then Some(Sum)
    else if ident == "set" then Some(Set)
    else if ident == "list" then Some(List)
    else if ident == "tuple" then Some(Tuple)
    else None
  }

  /** Every kind is recognised by its own name. */
  lemma KindNameRoundTrip(k: Kind)
    ensures KindFromIdent(KindName(k)) == Some(k)
  {
  }

  datatype Fields = Named | Unnamed | UnitFields

  /** The item a derive macro is applied to. */
  datatype Data = StructData(fields: Fields) | EnumData | UnionData

  /** `Kind::from_data`: the kind a type has when no kind attribute is
      given; unions are not supported. */
  function KindFromData(data: Data): (r: Result<Kind, Error>)
    ensures r.Failure? <==> data.UnionData?
    ensures r.Failure? ==> r.error == UnionType
    ensures data == StructData(Named) ==> r == Success(Record)
    ensures data == StructData(Unnamed) ==> r == Success(Tuple)
    ensures data == StructData(UnitFields) ==> r == Success(Unit)
    ensures data.EnumData? ==> r == Success(Sum)
  {
    match data
    case StructData(Named) => Success(Record)
    case StructData(Unnamed) => Success(Tuple)
    case StructData(UnitFields) => Success(Unit)
    case EnumData => Success(Sum)
    case UnionData => Failure(UnionType)
  }

  // `Vec` item types

  /** The type `Vec<item>`. */
  function VecOf(item: Type): Type {
    PathType(false, [PathSegment("Vec", AngleBracketed([TypeArg(item)]))])
  }

  /** `extract_vec_item`: the item type of `Vec<item>`; any other type is
      `ExpectedVec`. */
  function ExtractVecItem(ty: Type): (r: Result<Type, Error>)
    ensures r.Success? ==> ty == VecOf(r.value)
    ensures r.Failure? ==> r.error == ExpectedVec
  {
    match ty
    case PathType(qself, segments) =>
      if qself || |segments| != 1 || segments[0].ident != "Vec" then Failure(ExpectedVec)
      else
        assert segments == [PathSegment("Vec", segments[0].arguments)];
        VecArgument(segments[0].arguments)
    case OtherType(_) => Failure(ExpectedVec)
  }

  /** The angle-bracketed single type argument of a `Vec` segment. */
  function VecArgument(arguments: PathArguments): (r: Result<Type, Error>)
    ensures r.Success? ==> arguments == AngleBracketed([TypeArg(r.value)])
    ensures r.Failure? ==> r.error == ExpectedVec
  {
    match arguments
    case AngleBracketed(args) =>
      if |args| != 1 then Failure(ExpectedVec)
      else
        assert args == [args[0]];
        (match args[0]
        case TypeArg(item) => Success(item)
        case OtherArg => Failure(ExpectedVec))
    case NoArguments => Failure(ExpectedVec)
    case Parenthesized => Failure(ExpectedVec)
  }

  /** Every `Vec<item>` gives back its item. */
  lemma ExtractVecOf(item: Type)
    ensures ExtractVecItem(VecOf(item)) == Success(item)
  {
  }
}
