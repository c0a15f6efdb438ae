/** Module paths of the generated Rust code (`modules/rust/gen/src/lib.rs`):
    paths of `super` and identifier segments, the relative path from one
    module to another, and the tree of generated modules that gives each
    module and layout its absolute path. */
module RustGenPath {
  import opened Wrappers

  datatype Segment = Super | Ident(name: string)

  type Path = seq<Segment>

  /** A path of identifiers only, as the paths of modules and layouts are. */
  predicate Absolute(p: Path) {
    forall i :: 0 <= i < |p| ==> p[i].Ident?
  }

  /** `Path::longest_common_prefix`: the segments both paths start with. */
  function LongestCommonPrefix(a: Path, b: Path): (r: Path)
    ensures r <= a && r <= b
    ensures |r| < |a| && |r| < |b| ==> a[|r|] != b[|r|]
  {
    if a == [] || b == [] || a[0] != b[0] then []
    else [a[0]] + LongestCommonPrefix(a[1..], b[1..])
  }

  /** No common prefix is longer than `LongestCommonPrefix`. */
  lemma LongestCommonPrefixGreatest(a: Path, b: Path, p: Path)
    requires p <= a && p <= b
    ensures p <= LongestCommonPrefix(a, b)
  {
  }

  /** `n` copies of `super`. */
  function Supers(n: nat): (r: Path)
    ensures |r| == n
    ensures forall i :: 0 <= i < n ==> r[i] == Super
  {
    if n == 0 then [] else [Super] + Supers(n - 1)
  }

  /** `Path::to`: climbs out of `a` to the common prefix with `super`, then
      descends along the rest of `b`. */
  function To(a: Path, b: Path): (r: Path)
    ensures |r| == |a| + |b| - 2 * |LongestCommonPrefix(a, b)|
  {
    var lcp := LongestCommonPrefix(a, b);
    Supers(|a| - |lcp|) + b[|lcp|..]
  }

  /** Where a relative path leads from module `base`: `super` leaves the
      current module and an identifier enters a child. `None` when `super`
      would leave the crate root. */
  function Resolve(base: Path, rel: Path): (r: Option<Path>)
    decreases |rel|
  {
    if rel == [] then Some(base)
    else match rel[0]
      case Super => if base == [] then None else Resolve(base[..|base| - 1], rel[1..])
      case Ident(_) => Resolve(base + [rel[0]], rel[1..])
  }

  lemma {:induction false} ResolveSupers(base: Path, n: nat, rest: Path)
    requires n <= |base|
    ensures Resolve(base, Supers(n) + rest) == Resolve(base[..|base| - n], rest)
    decreases n
  {
    if n > 0 {
      assert (Supers(n) + rest)[0] == Super;
      assert (Supers(n) + rest)[1..] == Supers(n - 1) + rest;
      ResolveSupers(base[..|base| - 1], n - 1, rest);
      assert base[..|base| - 1][..|base| - 1 - (n - 1)] == base[..|base| - n];
    } else {
      assert Supers(n) + rest == rest && base[..|base|] == base;
    }
  }

  lemma {:induction false} ResolveIdents(base: Path, rest: Path)
    requires Absolute(rest)
    ensures Resolve(base, rest) == Some(base + rest)
    decreases |rest|
  {
    if rest != [] {
      assert rest[0].Ident? && Absolute(rest[1..]);
      ResolveIdents(base + [rest[0]], rest[1..]);
      assert base + [rest[0]] + rest[1..] == base + rest;
    } else {
      assert base + rest == base;
    }
  }

  /** The relative path `a.to(b)` leads from `a` exactly to `b`. */
  lemma ToResolves(a: Path, b: Path)
    requires Absolute(b)
    ensures Resolve(a, To(a, b)) == Some(b)
  {
    var lcp := LongestCommonPrefix(a, b);
    ResolveSupers(a, |a| - |lcp|, b[|lcp|..]);
    assert a[..|a| - (|a| - |lcp|)] == lcp;
    ResolveIdents(lcp, b[|lcp|..]);
    assert lcp + b[|lcp|..] == b;
  }

  /** A module refers to its own items with the empty path. */
  lemma ToSelf(a: Path)
    ensures To(a, a) == []
  {
    var lcp := LongestCommonPrefix(a, a);
    assert |lcp| == |a|;
  }

  /** A generated module: its parent, its name, and the sub-modules and
      layouts it holds. */
  datatype Module = Module(parent: Option<nat>, ident: string, subModules: set<nat>, layouts: set<nat>)

  /** The shape `add_module` keeps: each parent was added before its child,
      and a module lists exactly the modules whose parent it is. */
  predicate WellFormed(mods: seq<Module>) {
    (forall i :: 0 <= i < |mods| && mods[i].parent.Some? ==> mods[i].parent.value < i)
    && (forall i, j :: 0 <= i < |mods| && 0 <= j < |mods| ==>
          (j in mods[i].subModules <==> mods[j].parent == Some(i)))
    && (forall i :: 0 <= i < |mods| ==> forall j :: j in mods[i].subModules ==> j < |mods|)
  }

  /** A module reference the context defines; the source's `expect` calls
      make every caller guarantee this. */
  predicate Defined(mods: seq<Module>, r: Option<nat>) {
    r.Some? ==> r.value < |mods|
  }

  /** `Context::module_path` and `Module::path`: the crate root has the empty
      path, and a module the path of its parent followed by its name. */
  function ModulePath(mods: seq<Module>, r: Option<nat>): (p: Path)
    requires WellFormed(mods) && Defined(mods, r)
    ensures Absolute(p)
    ensures p == [] <==> r.None?
    decreases if r.Some? then r.value + 1 else 0
  {
    match r
    case None => []
    case Some(i) => ModulePath(mods, mods[i].parent) + [Ident(mods[i].ident)]
  }

  /** `Context::add_module`: appends a module and records it in its parent,
      whose absence makes `expect` panic (`None` here). */
  function AddModule(mods: seq<Module>, parent: Option<nat>, ident: string): (r: Option<(seq<Module>, nat)>)
    requires WellFormed(mods)
    ensures r.Some? <==> Defined(mods, parent)
    ensures r.Some? ==> WellFormed(r.value.0) && r.value.1 == |mods| == |r.value.0| - 1
  {
    if !Defined(mods, parent) then None
    else
      var added := mods + [Module(parent, ident, {}, {})];
      var r := |mods|;
      var result := match parent
        case None => added
        case Some(p) => added[p := added[p].(subModules := added[p].subModules + {r})];
      assert forall i :: 0 <= i < |mods| ==> result[i].parent == mods[i].parent;
      Some((result, r))
  }

  /** Adding a module leaves the path of every existing module as it was. */
  lemma {:induction false} AddModuleKeepsPaths(mods: seq<Module>, parent: Option<nat>, ident: string, q: Option<nat>)
    requires WellFormed(mods) && Defined(mods, parent) && Defined(mods, q)
    ensures ModulePath(AddModule(mods, parent, ident).value.0, q) == ModulePath(mods, q)
    decreases if q.Some? then q.value + 1 else 0
  {
    var after := AddModule(mods, parent, ident).value.0;
    if q.Some? {
      assert after[q.value].parent == mods[q.value].parent && after[q.value].ident == mods[q.value].ident;
      AddModuleKeepsPaths(mods, parent, ident, mods[q.value].parent);
    }
  }

  /** Adding a module gives it its parent's path followed by its name. */
  lemma AddModulePath(mods: seq<Module>, parent: Option<nat>, ident: string)
    requires WellFormed(mods) && Defined(mods, parent)
    ensures var (after, r) := AddModule(mods, parent, ident).value;
      ModulePath(after, Some(r)) == ModulePath(mods, parent) + [Ident(ident)]
  {
    var (after, r) := AddModule(mods, parent, ident).value;
    assert after[r].parent == parent && after[r].ident == ident;
    AddModuleKeepsPaths(mods, parent, ident, parent);
  }

  /** Where a layout is declared: in an unreachable (extern) module, or in a
      generated module. A layout with no parent module sits at the root. */
  datatype ParentModule = Extern | InModule(index: nat)

  /** `Layout::path`: the parent module's path followed by the layout's
      name; no path for a layout of an extern module. */
  function LayoutPath(mods: seq<Module>, parentModule: Option<ParentModule>, ident: string): (r: Option<Path>)
    requires WellFormed(mods)
    requires parentModule.Some? && parentModule.value.InModule? ==> parentModule.value.index < |mods|
    ensures r.None? <==> parentModule == Some(Extern)
    ensures r.Some? ==> Absolute(r.value) && |r.value| >= 1 && r.value[|r.value| - 1] == Ident(ident)
  {
    match parentModule
    case Some(Extern) => None
    case Some(InModule(m)) => Some(ModulePath(mods, Some(m)) + [Ident(ident)])
    case None => Some([Ident(ident)])
  }

  datatype Error = UnreachableType

  /** How a type is named from the module `scope`: the path from the scope
      to the layout, or `UnreachableType` when the layout is extern. */
  function TypePath(mods: seq<Module>, scope: Option<nat>, parentModule: Option<ParentModule>, ident: string): (r: Result<Path, Error>)
    requires WellFormed(mods) && Defined(mods, scope)
    requires parentModule.Some? && parentModule.value.InModule? ==> parentModule.value.index < |mods|
    ensures r.Failure? <==> parentModule == Some(Extern)
    ensures r.Success? ==> Resolve(ModulePath(mods, scope), r.value) == LayoutPath(mods, parentModule, ident)
  {
    match LayoutPath(mods, parentModule, ident)
    case None => Failure(UnreachableType)
    case Some(p) =>
      var here := ModulePath(mods, scope);
      ToResolves(here, p);
      Success(To(here, p))
  }
}
