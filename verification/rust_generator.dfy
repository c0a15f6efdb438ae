/** The Rust code generator's options and attribute helpers
    (`generators/rust/generator/src/lib.rs`): registering extern modules,
    choosing a layout's default type identifier, turning patterns into RDF
    identifiers, and writing the `intro` and `input` attributes that the
    derive macro reads back. */
module RustGenerator {
  import opened Wrappers
  import opened RustSyn
  import Values
  import RustDeriveParse

  newtype U32 = x: int | 0 <= x < 0x1_0000_0000

  datatype Error = MissingTypeIdentifier(layout: nat) | NoIriRepresentation

  datatype InvalidModulePath = InvalidModulePath

  /** Generator options: type identifiers chosen for layouts, and the Rust
      module path standing for each IRI prefix. */
  datatype Options = Options(idents: map<nat, string>, externModules: map<string, seq<PathSegment>>)

  /** Every registered module path is a plain path, without generic
      arguments. */
  predicate PlainModules(o: Options) {
    forall prefix :: prefix in o.externModules ==>
      forall i :: 0 <= i < |o.externModules[prefix]| ==> o.externModules[prefix][i].arguments.NoArguments?
  }

  /** `Options::use_module`: registers `path` for `prefix`, rejecting a path
      with a segment that has generic arguments. */
  method UseModule(o: Options, prefix: string, path: seq<PathSegment>) returns (r: Result<Options, InvalidModulePath>)
    ensures r.Success? <==> forall i :: 0 <= i < |path| ==> path[i].arguments.NoArguments?
    ensures r.Success? ==> r.value.externModules == o.externModules[prefix := path] && r.value.idents == o.idents
    ensures r.Success? && PlainModules(o) ==> PlainModules(r.value)
  {
    for k := 0 to |path|
      invariant forall i :: 0 <= i < k ==> path[i].arguments.NoArguments?
    {
      if !path[k].arguments.NoArguments? {
        return Failure(InvalidModulePath);
      }
    }
    return Success(o.(externModules := o.externModules[prefix := path]));
  }

  // Identifier order

  /** `Ident`s compare by their text, lexicographically. */
  predicate StrLt(a: string, b: string)
    decreases |a|
  {
    if a == [] then b != []
    else b != [] && (a[0] < b[0] || (a[0] == b[0] && StrLt(a[1..], b[1..])))
  }

  predicate StrLe(a: string, b: string) {
    a == b || StrLt(a, b)
  }

  lemma {:induction false} StrLtTotal(a: string, b: string)
    ensures a == b || StrLt(a, b) || StrLt(b, a)
    decreases |a|
  {
    if a != [] && b != [] && a[0] == b[0] {
      StrLtTotal(a[1..], b[1..]);
      if a[1..] == b[1..] {
        assert a == [a[0]] + a[1..] && b == [b[0]] + b[1..];
      }
    }
  }

  lemma {:induction false} StrLtTransitive(a: string, b: string, c: string)
    requires StrLt(a, b) && StrLt(b, c)
    ensures StrLt(a, c)
    decreases |a|
  {
    if a != [] && a[0] == b[0] && b[0] == c[0] {
      StrLtTransitive(a[1..], b[1..], c[1..]);
    }
  }

  lemma StrLeTransitive(a: string, b: string, c: string)
    requires StrLe(a, b) && StrLe(b, c)
    ensures StrLe(a, c)
  {
    if a != b && b != c {
      StrLtTransitive(a, b, c);
    }
  }

  // Default layout identifier

  /** The loop of `default_layout_ident` from a current selection: an
      identifier replaces the selection unless the selection is smaller. */
  function SelectIdent(selected: Option<string>, iris: seq<string>, identOf: string -> Option<string>): (r: Option<string>)
    decreases |iris|
  {
    if iris == [] then selected
    else
      var next := match identOf(iris[0])
        case Some(id) => if !(selected.Some? && StrLt(selected.value, id)) then Some(id) else selected
        case None => selected;
      SelectIdent(next, iris[1..], identOf)
  }

  /** `default_layout_ident`: over the layout's IRIs, in the order the
      interpretation lists them, the identifiers derivable from them (by
      `ident_from_iri`, here `identOf`), and the least one of them. */
  function DefaultLayoutIdent(iris: seq<string>, identOf: string -> Option<string>): (r: Option<string>)
  {
    SelectIdent(None, iris, identOf)
  }

  /** The selection is the least of the previous selection and of the
      identifiers derivable from the remaining IRIs. */
  lemma {:induction false} SelectIdentLeast(selected: Option<string>, iris: seq<string>, identOf: string -> Option<string>)
    ensures var r := SelectIdent(selected, iris, identOf);
      (r.None? <==> selected.None? && forall i :: 0 <= i < |iris| ==> identOf(iris[i]).None?)
      && (r.Some? ==> r == selected || exists i :: 0 <= i < |iris| && identOf(iris[i]) == r)
      && (r.Some? && selected.Some? ==> StrLe(r.value, selected.value))
      && (r.Some? ==> forall i :: 0 <= i < |iris| && identOf(iris[i]).Some? ==> StrLe(r.value, identOf(iris[i]).value))
    decreases |iris|
  {
    if iris != [] {
      var next := match identOf(iris[0])
        case Some(id) => if !(selected.Some? && StrLt(selected.value, id)) then Some(id) else selected
        case None => selected;
      SelectIdentLeast(next, iris[1..], identOf);
      var r := SelectIdent(selected, iris, identOf);
      assert r == SelectIdent(next, iris[1..], identOf);
      assert forall i :: 1 <= i < |iris| ==> iris[1..][i - 1] == iris[i];
      if identOf(iris[0]).Some? && selected.Some? {
        StrLtTotal(selected.value, identOf(iris[0]).value);
      }
      if r.Some? {
        if next.Some? && selected.Some? {
          assert StrLe(next.value, selected.value);
          StrLeTransitive(r.value, next.value, selected.value);
        }
        if identOf(iris[0]).Some? {
          assert StrLe(next.value, identOf(iris[0]).value);
          StrLeTransitive(r.value, next.value, identOf(iris[0]).value);
        }
        if r != selected && r != next {
          var i :| 0 <= i < |iris[1..]| && identOf(iris[1..][i]) == r;
          assert identOf(iris[i + 1]) == r;
        }
      }
    }
  }

  /** A layout gets a default identifier exactly when one of its IRIs gives
      one, and it is the least identifier its IRIs give. */
  lemma DefaultLayoutIdentLeast(iris: seq<string>, identOf: string -> Option<string>)
    ensures var r := DefaultLayoutIdent(iris, identOf);
      (r.None? <==> forall i :: 0 <= i < |iris| ==> identOf(iris[i]).None?)
      && (r.Some? ==> exists i :: 0 <= i < |iris| && identOf(iris[i]) == r)
      && (r.Some? ==> forall i :: 0 <= i < |iris| && identOf(iris[i]).Some? ==> StrLe(r.value, identOf(iris[i]).value))
  {
    SelectIdentLeast(None, iris, identOf);
  }

  /** `Options::layout_ident`: a chosen identifier, else the default one,
      else `MissingTypeIdentifier`. */
  function LayoutIdent(o: Options, layout: nat, iris: seq<string>, identOf: string -> Option<string>): (r: Result<string, Error>)
    ensures layout in o.idents ==> r == Success(o.idents[layout])
    ensures layout !in o.idents ==> (r.Failure? <==> DefaultLayoutIdent(iris, identOf).None?)
    ensures r.Failure? ==> r.error == MissingTypeIdentifier(layout)
  {
    if layout in o.idents then Success(o.idents[layout])
    else match DefaultLayoutIdent(iris, identOf)
      case Some(id) => Success(id)
      case None => Failure(MissingTypeIdentifier(layout))
  }

  // Patterns to identifiers

  /** An RDF node identifier: a blank node, by its label, or an IRI. */
  datatype RdfId = BlankId(suffix: string) | IriId(iri: string)

  /** A layout pattern: a variable by its index, or a resource. */
  datatype Pattern = Var(index: nat) | Resource(resource: nat)

  /** The text of an identifier, as `Id`'s `Display` writes it. */
  function IdString(id: RdfId): string {
    match id
    case BlankId(s) => "_:" + s
    case IriId(i) => i
  }

  /** `pattern_to_id`: a variable is the blank node labelled by its index; a
      resource is named by the first of its IRIs (as the interpretation
      lists them, here `irisOf`), and a resource without one is
      `NoIriRepresentation`. */
  function PatternToId(p: Pattern, irisOf: nat -> seq<string>): (r: Result<RdfId, Error>)
    ensures p.Var? ==> r.Success? && r.value.BlankId?
    ensures p.Var? ==> Values.AllDigits(r.value.suffix) && Values.DigitsValue(r.value.suffix) == p.index
    ensures p.Resource? ==> (r.Failure? <==> irisOf(p.resource) == [])
    ensures p.Resource? && r.Success? ==> r.value == IriId(irisOf(p.resource)[0])
    ensures r.Failure? ==> r.error == NoIriRepresentation
  {
    match p
    case Var(i) =>
      Values.NatToStringValue(i);
      Success(BlankId(Values.NatToString(i)))
    case Resource(res) =>
      var iris := irisOf(res);
      if iris == [] then Failure(NoIriRepresentation) else Success(IriId(iris[0]))
  }

  /** Distinct variables become distinct blank nodes. */
  lemma VarIdsDistinct(i: nat, j: nat, irisOf: nat -> seq<string>)
    requires i != j
    ensures PatternToId(Var(i), irisOf) != PatternToId(Var(j), irisOf)
  {
    if PatternToId(Var(i), irisOf) == PatternToId(Var(j), irisOf) {
      Values.NatToStringInjective(i, j);
    }
  }

  /** The derive macro reads a variable's identifier, written out, back as
      the variable of the same label, when the blank-label grammar accepts
      decimal labels. */
  lemma VarIdReadBack(i: nat, irisOf: nat -> seq<string>, validLabel: string -> bool, isIriRef: string -> bool)
    requires validLabel(Values.NatToString(i))
    ensures RustDeriveParse.ParsePattern(IdString(PatternToId(Var(i), irisOf).value), validLabel, isIriRef)
      == Success(RustDeriveParse.Var(Values.NatToString(i)))
  {
    RustDeriveParse.PatternRoundTrip(RustDeriveParse.Var(Values.NatToString(i)), validLabel, isIriRef);
  }

  // `intro` and `input` attributes

  /** The decimal names `offset`, ..., `offset + count - 1`. */
  function Names(count: nat, offset: nat): (r: seq<string>)
    ensures |r| == count
    ensures forall k :: 0 <= k < count ==> r[k] == Values.NatToString(offset + k)
  {
    seq(count, k requires 0 <= k < count => Values.NatToString(offset + k))
  }

  /** `generate_intro_attribute`: `intro(...)` listing the names of the
      `count` variables starting at `offset`. The sum is a `u32` addition,
      which panics on overflow (`None`). */
  function IntroAttribute(count: U32, offset: U32): (r: Option<seq<TokenTree>>)
    ensures r.None? <==> count as int + offset as int >= 0x1_0000_0000
    ensures r.Some? ==> r.value == [Ident("intro"), Group(CommaSeparated(Names(count as nat, offset as nat)))]
  {
    if count as int + offset as int >= 0x1_0000_0000 then None
    else Some([Ident("intro"), Group(CommaSeparated(Names(count as nat, offset as nat)))])
  }

  /** `generate_input_attribute`: `input(...)` listing the names `0` to
      `count - 1`. */
  function InputAttribute(count: U32): (r: seq<TokenTree>)
    ensures |r| == 2 && r[0] == Ident("input")
  {
    [Ident("input"), Group(CommaSeparated(Names(count as nat, 0)))]
  }

  /** The names are pairwise distinct and denote `offset` to
      `offset + count - 1`, each once. */
  lemma NamesDenoteRange(count: nat, offset: nat)
    ensures forall k :: 0 <= k < count ==>
      Values.AllDigits(Names(count, offset)[k]) && Values.DigitsValue(Names(count, offset)[k]) == offset + k
    ensures forall k, l :: 0 <= k < l < count ==> Names(count, offset)[k] != Names(count, offset)[l]
  {
    var names := Names(count, offset);
    forall k | 0 <= k < count
      ensures Values.AllDigits(names[k]) && Values.DigitsValue(names[k]) == offset + k
    {
      Values.NatToStringValue(offset + k);
    }
  }

  /** The derive macro reads the generated `intro` attribute back as the
      same names, with nothing left over. */
  lemma IntroReadBack(count: U32, offset: U32)
    requires count as int + offset as int < 0x1_0000_0000
    ensures var tokens := IntroAttribute(count, offset).value;
      tokens[0] == Ident("intro")
      && RustDeriveParse.ExpectStringListArgument(tokens[1..]) == Success((Names(count as nat, offset as nat), []))
  {
    var names := Names(count as nat, offset as nat);
    var tokens := IntroAttribute(count, offset).value;
    assert tokens[1..] == [Group(CommaSeparated(names))];
    RustDeriveParse.ListArgumentReadBack(names);
  }

  /** The derive macro reads the generated `input` attribute back as the
      names `0` to `count - 1`, the intro names of offset `0`. */
  lemma InputReadBack(count: U32)
    ensures var tokens := InputAttribute(count);
      RustDeriveParse.ExpectStringListArgument(tokens[1..]) == Success((Names(count as nat, 0), []))
    ensures Some(InputAttribute(count)[1..]) == (match IntroAttribute(count, 0) case Some(t) => Some(t[1..]) case None => None)
  {
    var names := Names(count as nat, 0);
    assert InputAttribute(count)[1..] == [Group(CommaSeparated(names))];
    RustDeriveParse.ListArgumentReadBack(names);
  }
}
