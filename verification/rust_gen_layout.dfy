/** Generated Rust layouts (`modules/rust/gen/src/lib.rs`): which generated
    types implement `Default`, how field identifiers are derived from
    names, and how a struct's `derive(Default)` and `new` constructor are
    chosen. A context maps layout references to generated layouts. */
module RustGenLayout {
  import opened Wrappers
  import RustGenPath

  datatype Primitive =
    | Boolean | Integer | UnsignedInteger | Float | Double | String
    | Date | DateTime | Time | Url | Uri | Iri

  datatype BuiltIn = Vec(item: nat) | BTreeSet(item: nat)

  /** A field's layout, and whether the field is required (otherwise it is
      generated as an `Option`). */
  datatype FieldType = FieldType(ty: nat, required: bool)

  datatype Field = Field(ident: string, ty: FieldType)

  datatype Variant = Variant(ident: string, ty: Option<nat>)

  datatype Description =
    | BuiltInDesc(builtIn: BuiltIn)
    | Never
    | Alias(ident: string, target: nat)
    | Reference
    | PrimitiveDesc(primitive: Primitive)
    | Struct(ident: string, fields: seq<Field>)
    | Enum(ident: string, variants: seq<Variant>)

  datatype Layout = Layout(parentModule: Option<RustGenPath.ParentModule>, desc: Description)

  type Layouts = map<nat, Layout>

  /** Every layout a description refers to through an alias or a field is
      defined; the source unwraps these lookups. */
  predicate RefsIn(ls: Layouts, d: Description) {
    match d
    case Alias(_, other) => other in ls
    case Struct(_, fields) => forall i :: 0 <= i < |fields| ==> fields[i].ty.ty in ls
    case _ => true
  }

  predicate Closed(ls: Layouts) {
    forall r :: r in ls ==> RefsIn(ls, ls[r].desc)
  }

  /** `Description::impl_default`. The source follows aliases and required
      fields with no bound, which overflows the stack on a cycle; `fuel`
      bounds the depth, and `None` means it ran out. */
  function DescImplDefault(ls: Layouts, d: Description, fuel: nat): (r: Option<bool>)
    requires Closed(ls) && RefsIn(ls, d)
    ensures d.BuiltInDesc? ==> r == Some(true)
    ensures d.Never? || d.Reference? || d.PrimitiveDesc? || d.Enum? ==> r == Some(false)
    decreases fuel, 2
  {
    match d
    case BuiltInDesc(_) => Some(true)
    case Never => Some(false)
    case Alias(_, other) => if fuel == 0 then None else DescImplDefault(ls, ls[other].desc, fuel - 1)
    case Reference => Some(false)
    case PrimitiveDesc(_) => Some(false)
    case Struct(_, fields) => FieldsImplDefault(ls, fields, fuel)
    case Enum(_, _) => Some(false)
  }

  /** `Struct::impl_default`: `all` over the fields, stopping at the first
      field that does not implement `Default`. */
  function FieldsImplDefault(ls: Layouts, fields: seq<Field>, fuel: nat): (r: Option<bool>)
    requires Closed(ls)
    requires forall i :: 0 <= i < |fields| ==> fields[i].ty.ty in ls
    decreases fuel, 1, |fields|
  {
    if fields == [] then Some(true)
    else match FieldImplDefault(ls, fields[0].ty, fuel)
      case None => None
      case Some(false) => Some(false)
      case Some(true) => FieldsImplDefault(ls, fields[1..], fuel)
  }

  /** `FieldType::impl_default`: an optional field defaults to `None`; a
      required one needs its layout to implement `Default`. */
  function FieldImplDefault(ls: Layouts, f: FieldType, fuel: nat): (r: Option<bool>)
    requires Closed(ls) && f.ty in ls
    ensures !f.required ==> r == Some(true)
    decreases fuel, 0
  {
    if !f.required then Some(true)
    else if fuel == 0 then None
    else DescImplDefault(ls, ls[f.ty].desc, fuel - 1)
  }

  /** A struct implements `Default` exactly when every field does. */
  lemma {:induction false} StructDefaultIff(ls: Layouts, fields: seq<Field>, fuel: nat)
    requires Closed(ls)
    requires forall i :: 0 <= i < |fields| ==> fields[i].ty.ty in ls
    ensures FieldsImplDefault(ls, fields, fuel) == Some(true)
      <==> forall i :: 0 <= i < |fields| ==> FieldImplDefault(ls, fields[i].ty, fuel) == Some(true)
    decreases |fields|
  {
    if fields != [] {
      StructDefaultIff(ls, fields[1..], fuel);
      assert forall i :: 1 <= i < |fields| ==> fields[1..][i - 1] == fields[i];
    }
  }

  /** A struct fails to implement `Default` exactly when some field fails,
      every field before it implementing `Default`. */
  lemma {:induction false} StructNotDefaultIff(ls: Layouts, fields: seq<Field>, fuel: nat)
    requires Closed(ls)
    requires forall i :: 0 <= i < |fields| ==> fields[i].ty.ty in ls
    ensures FieldsImplDefault(ls, fields, fuel) == Some(false)
      <==> (exists k :: 0 <= k < |fields| && FieldImplDefault(ls, fields[k].ty, fuel) == Some(false)
             && forall i :: 0 <= i < k ==> FieldImplDefault(ls, fields[i].ty, fuel) == Some(true))
    decreases |fields|
  {
    if fields != [] {
      StructNotDefaultIff(ls, fields[1..], fuel);
      assert forall i :: 1 <= i < |fields| ==> fields[1..][i - 1] == fields[i];
      if FieldsImplDefault(ls, fields, fuel) == Some(false) && FieldImplDefault(ls, fields[0].ty, fuel) != Some(false) {
        var k :| 0 <= k < |fields| - 1 && FieldImplDefault(ls, fields[1..][k].ty, fuel) == Some(false)
           && forall i :: 0 <= i < k ==> FieldImplDefault(ls, fields[1..][i].ty, fuel) == Some(true);
        assert FieldImplDefault(ls, fields[k + 1].ty, fuel) == Some(false);
      }
      if exists k :: 0 <= k < |fields| && FieldImplDefault(ls, fields[k].ty, fuel) == Some(false)
           && forall i :: 0 <= i < k ==> FieldImplDefault(ls, fields[i].ty, fuel) == Some(true) {
        var k :| 0 <= k < |fields| && FieldImplDefault(ls, fields[k].ty, fuel) == Some(false)
           && forall i :: 0 <= i < k ==> FieldImplDefault(ls, fields[i].ty, fuel) == Some(true);
        if k > 0 {
          assert FieldImplDefault(ls, fields[1..][k - 1].ty, fuel) == Some(false);
        }
      }
    }
  }

  /** More fuel never changes an answer already reached: the bound only
      cuts off recursions that would not have ended. */
  lemma {:induction false} DescImplDefaultMonotone(ls: Layouts, d: Description, fuel: nat, more: nat)
    requires Closed(ls) && RefsIn(ls, d) && fuel <= more
    requires DescImplDefault(ls, d, fuel).Some?
    ensures DescImplDefault(ls, d, more) == DescImplDefault(ls, d, fuel)
    decreases fuel, 2
  {
    match d
    case Alias(_, other) =>
      DescImplDefaultMonotone(ls, ls[other].desc, fuel - 1, more - 1);
    case Struct(_, fields) =>
      FieldsImplDefaultMonotone(ls, fields, fuel, more);
    case _ =>
  }

  lemma {:induction false} FieldsImplDefaultMonotone(ls: Layouts, fields: seq<Field>, fuel: nat, more: nat)
    requires Closed(ls) && fuel <= more
    requires forall i :: 0 <= i < |fields| ==> fields[i].ty.ty in ls
    requires FieldsImplDefault(ls, fields, fuel).Some?
    ensures FieldsImplDefault(ls, fields, more) == FieldsImplDefault(ls, fields, fuel)
    decreases fuel, 1, |fields|
  {
    if fields != [] {
      FieldImplDefaultMonotone(ls, fields[0].ty, fuel, more);
      if FieldImplDefault(ls, fields[0].ty, fuel) == Some(true) {
        FieldsImplDefaultMonotone(ls, fields[1..], fuel, more);
      }
    }
  }

  lemma {:induction false} FieldImplDefaultMonotone(ls: Layouts, f: FieldType, fuel: nat, more: nat)
    requires Closed(ls) && f.ty in ls && fuel <= more
    requires FieldImplDefault(ls, f, fuel).Some?
    ensures FieldImplDefault(ls, f, more) == FieldImplDefault(ls, f, fuel)
    decreases fuel, 0
  {
    if f.required {
      DescImplDefaultMonotone(ls, ls[f.ty].desc, fuel - 1, more - 1);
    }
  }

  /** `field_ident_of_name`: the name's snake-case form, with `_` appended
      when that form is the keyword `type`. */
  function FieldIdentOfName(snake: string): (r: string)
    ensures r != "type"
    ensures snake != "type" ==> r == snake
    ensures |r| >= |snake| && r[..|snake|] == snake
  {
    if snake == "type" then snake + "_" else snake
  }

  /** A normalized name never ends in `_` (its last segment is not empty),
      so distinct names get distinct field identifiers. */
  lemma FieldIdentInjective(a: string, b: string)
    requires a != [] && a[|a| - 1] != '_'
    requires b != [] && b[|b| - 1] != '_'
    requires FieldIdentOfName(a) == FieldIdentOfName(b)
    ensures a == b
  {
  }

  /** How a field of a generated struct is initialised by `new`. */
  datatype FieldInit = DefaultInit | InputInit

  /** The parts of a generated struct item that depend on `Default`: whether
      it derives `Default`, the inputs of its `new` constructor, and each
      field's initialiser. */
  datatype StructItem = StructItem(derivesDefault: bool, requiredInputs: seq<string>, inits: seq<FieldInit>)

  /** The struct case of `Layout::generate`: a field whose type implements
      `Default` is initialised with `Default::default()`, any other one
      becomes an input of `new`; the struct derives `Default` when there is
      no input. Every field is visited, so `None` when any field's
      `impl_default` does not end within `fuel`. */
  function GenerateStruct(ls: Layouts, fields: seq<Field>, fuel: nat): (r: Option<StructItem>)
    requires Closed(ls)
    requires forall i :: 0 <= i < |fields| ==> fields[i].ty.ty in ls
    ensures r.Some? <==> forall i :: 0 <= i < |fields| ==> FieldImplDefault(ls, fields[i].ty, fuel).Some?
    ensures r.Some? ==> |r.value.inits| == |fields|
    ensures r.Some? ==> forall i :: 0 <= i < |fields| ==>
      (r.value.inits[i] == DefaultInit <==> FieldImplDefault(ls, fields[i].ty, fuel) == Some(true))
    ensures r.Some? ==> (r.value.derivesDefault <==> r.value.requiredInputs == [])
    decreases |fields|
  {
    if fields == [] then Some(StructItem(true, [], []))
    else
      var first := FieldImplDefault(ls, fields[0].ty, fuel);
      var rest := GenerateStruct(ls, fields[1..], fuel);
      assert forall i :: 1 <= i < |fields| ==> fields[1..][i - 1] == fields[i];
      if first.None? || rest.None? then None
      else
        var inputs := if first.value then rest.value.requiredInputs else [fields[0].ident] + rest.value.requiredInputs;
        var init := if first.value then DefaultInit else InputInit;
        Some(StructItem(inputs == [], inputs, [init] + rest.value.inits))
  }

  /** The generated struct derives `Default` exactly when `impl_default`
      says it implements it, and `new` takes exactly the fields that have no
      default, in order. */
  lemma {:induction false} GeneratedDefaultAgrees(ls: Layouts, fields: seq<Field>, fuel: nat)
    requires Closed(ls)
    requires forall i :: 0 <= i < |fields| ==> fields[i].ty.ty in ls
    requires GenerateStruct(ls, fields, fuel).Some?
    ensures GenerateStruct(ls, fields, fuel).value.derivesDefault <==> FieldsImplDefault(ls, fields, fuel) == Some(true)
    ensures GenerateStruct(ls, fields, fuel).value.requiredInputs == NoDefaultIdents(ls, fields, fuel)
    decreases |fields|
  {
    if fields != [] {
      GeneratedDefaultAgrees(ls, fields[1..], fuel);
    }
  }

  /** Reference definition: the identifiers of the fields whose type does
      not implement `Default`, in field order. */
  function NoDefaultIdents(ls: Layouts, fields: seq<Field>, fuel: nat): (r: seq<string>)
    requires Closed(ls)
    requires forall i :: 0 <= i < |fields| ==> fields[i].ty.ty in ls
    ensures |r| <= |fields|
    decreases |fields|
  {
    if fields == [] then []
    else if FieldImplDefault(ls, fields[0].ty, fuel) == Some(true) then NoDefaultIdents(ls, fields[1..], fuel)
    else [fields[0].ident] + NoDefaultIdents(ls, fields[1..], fuel)
  }

  /** `Context::add_layout`: records the layout, and lists it in its module,
      whose absence makes `expect` panic (`None` here). */
  function AddLayout(mods: seq<RustGenPath.Module>, ls: Layouts, parentModule: Option<RustGenPath.ParentModule>, r: nat, desc: Description): (res: Option<(seq<RustGenPath.Module>, Layouts)>)
    requires RustGenPath.WellFormed(mods)
    ensures res.Some? <==> (parentModule.Some? && parentModule.value.InModule? ==> parentModule.value.index < |mods|)
    ensures res.Some? ==> var (mods', ls') := res.value;
      RustGenPath.WellFormed(mods') && |mods'| == |mods|
      && ls' == ls[r := Layout(parentModule, desc)]
      && (forall i :: 0 <= i < |mods| ==> mods'[i].parent == mods[i].parent && mods'[i].ident == mods[i].ident)
      && (parentModule.Some? && parentModule.value.InModule? ==> r in mods'[parentModule.value.index].layouts)
  {
    var ls' := ls[r := Layout(parentModule, desc)];
    match parentModule
    case Some(InModule(m)) =>
      if m < |mods| then
        var mods' := mods[m := mods[m].(layouts := mods[m].layouts + {r})];
        assert forall i :: 0 <= i < |mods| ==> mods'[i].parent == mods[i].parent && mods'[i].subModules == mods[i].subModules;
        Some((mods', ls'))
      else None
    case _ => Some((mods, ls'))
  }
}
