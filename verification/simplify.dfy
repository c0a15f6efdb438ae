/**
 * Model simplification (`core/src/simplify.rs`): the occurrences that give
 * each blank node its colour, the reallocation of shelf items when nodes
 * are merged, and the renaming of blank nodes to one fresh identifier per
 * equivalence class.
 */
module Simplify {
  import opened Wrappers
  import opened Ids
  import UnionFinds

  /** The object of a quad: a blank node, an IRI or a literal. */
  datatype Object = BlankObject(blank: nat) | IriObject(iri: nat) | LiteralObject(literal: nat)

  datatype Quad = Quad(subject: Id, property: nat, obj: Object)

  /** How a quad looks from one of its blank nodes. */
  datatype QuadColor =
    | ThisColor(property: nat)
    | BlankColor(property: nat)
    | ValueColor(property: nat, value: Object)

  /** The blank node a quad refers to, if any. */
  datatype ColoredQuad = Zero | One(blank: nat)

  /** `occurrence`: how `quad` looks from the blank node `x`. */
  function Occurrence(quad: Quad, x: nat): (r: (QuadColor, ColoredQuad))
    ensures r.0.property == quad.property
    ensures r.0.ThisColor? <==> quad.obj == BlankObject(x)
    ensures r.0.BlankColor? <==> quad.obj.BlankObject? && quad.obj.blank != x
    ensures r.0.ValueColor? <==> !quad.obj.BlankObject?
    ensures r.0.ValueColor? ==> r.0.value == quad.obj
    ensures r.1.One? <==> r.0.BlankColor?
    ensures r.1.One? ==> quad.obj == BlankObject(r.1.blank)
  {
    match quad.obj
    case BlankObject(z) =>
      if x == z then (ThisColor(quad.property), Zero) else (BlankColor(quad.property), One(z))
    case _ => (ValueColor(quad.property, quad.obj), Zero)
  }

  /** The occurrences of a blank node, and for each colour of quad the
    * blank nodes it refers to. */
  datatype BlankData = BlankData(occurrences: seq<QuadColor>, quads: map<QuadColor, seq<nat>>)

  /** `add_occurence`: records the colour, and for a quad referring to
    * another blank node records that node under the colour. */
  function AddOccurrence(d: BlankData, occ: (QuadColor, ColoredQuad)): (r: BlankData)
    ensures r.occurrences == d.occurrences + [occ.0]
    ensures occ.1.Zero? ==> r.quads == d.quads
    ensures occ.1.One? ==>
      r.quads.Keys == d.quads.Keys + {occ.0}
      && r.quads[occ.0] == (if occ.0 in d.quads then d.quads[occ.0] else []) + [occ.1.blank]
      && forall c :: c in d.quads && c != occ.0 ==> r.quads[c] == d.quads[c]
  {
    var occurrences := d.occurrences + [occ.0];
    match occ.1
    case Zero => BlankData(occurrences, d.quads)
    case One(a) =>
      var prev := if occ.0 in d.quads then d.quads[occ.0] else [];
      BlankData(occurrences, d.quads[occ.0 := prev + [a]])
  }

  /** The data of a blank node gathered from quads, in order. */
  function Gather(quads: seq<Quad>, x: nat): BlankData
    decreases |quads|
  {
    if |quads| == 0 then BlankData([], map[])
    else
      var d := Gather(quads[..|quads| - 1], x);
      var q := quads[|quads| - 1];
      AddOccurrence(d, Occurrence(q, x))
  }

  /** Gathering records one occurrence per quad, and under each blank
    * colour exactly the blank nodes the quads of that colour refer to. */
  lemma {:induction false} GatherMeaning(quads: seq<Quad>, x: nat, c: QuadColor)
    ensures |Gather(quads, x).occurrences| == |quads|
    ensures forall i :: 0 <= i < |quads| ==> Gather(quads, x).occurrences[i] == Occurrence(quads[i], x).0
    ensures c in Gather(quads, x).quads <==>
      exists i :: 0 <= i < |quads| && Occurrence(quads[i], x).0 == c && Occurrence(quads[i], x).1.One?
    decreases |quads|
  {
    if |quads| > 0 {
      var n := |quads| - 1;
      GatherMeaning(quads[..n], x, c);
      assert forall i :: 0 <= i < n ==> quads[..n][i] == quads[i];
    }
  }

  // Reallocating shelf items.

  /** A shelf being renumbered: the old items, still there or already
    * moved, the new items, and the old-to-new reference map. */
  datatype ShelfSubstitution<T> = ShelfSubstitution(items: seq<Option<T>>, newItems: seq<T>, refs: map<nat, nat>)

  /** `ShelfSubstitution::new`. */
  function NewSubstitution<T>(shelf: seq<T>): (s: ShelfSubstitution<T>)
    ensures |s.items| == |shelf| && |s.newItems| == 0 && |s.refs| == 0
    ensures forall i :: 0 <= i < |shelf| ==> s.items[i] == Some(shelf[i])
  {
    ShelfSubstitution(seq(|shelf|, i requires 0 <= i < |shelf| => Some(shelf[i])), [], map[])
  }

  /** `insert`: the old reference now stands for an existing new one. */
  function InsertRef<T>(s: ShelfSubstitution<T>, r: nat, newRef: nat): (t: ShelfSubstitution<T>)
    ensures t.items == s.items && t.newItems == s.newItems
    ensures t.refs.Keys == s.refs.Keys + {r} && t.refs[r] == newRef
  {
    s.(refs := s.refs[r := newRef])
  }

  /** `allocate`: moves the item to the next new index and records it. */
  function Allocate<T>(s: ShelfSubstitution<T>, r: nat): (res: (ShelfSubstitution<T>, nat))
    requires r < |s.items| && s.items[r].Some?
    ensures res.1 == |s.newItems|
    ensures res.0.newItems == s.newItems + [s.items[r].value]
    ensures |res.0.items| == |s.items| && res.0.items[r].None?
    ensures forall i :: 0 <= i < |s.items| && i != r ==> res.0.items[i] == s.items[i]
    ensures res.0.refs == s.refs[r := res.1]
  {
    var newRef := |s.newItems|;
    (ShelfSubstitution(s.items[r := None], s.newItems + [s.items[r].value], s.refs[r := newRef]), newRef)
  }

  /** Allocates the references in order. */
  function AllocateAll<T>(s: ShelfSubstitution<T>, rs: seq<nat>): ShelfSubstitution<T>
    requires forall i :: 0 <= i < |rs| ==> rs[i] < |s.items|
    requires forall i, j :: 0 <= i < j < |rs| ==> rs[i] != rs[j]
    requires forall i :: 0 <= i < |rs| ==> s.items[rs[i]].Some?
    decreases |rs|
  {
    if |rs| == 0 then s
    else
      var next := Allocate(s, rs[0]).0;
      AllocateAll(next, rs[1..])
  }

  /** Allocating distinct references gives them consecutive new indices,
    * and each new index holds the item its old reference held. */
  lemma {:induction false} AllocateAllMeaning<T>(s: ShelfSubstitution<T>, rs: seq<nat>, k: nat)
    requires forall i :: 0 <= i < |rs| ==> rs[i] < |s.items|
    requires forall i, j :: 0 <= i < j < |rs| ==> rs[i] != rs[j]
    requires forall i :: 0 <= i < |rs| ==> s.items[rs[i]].Some?
    requires k < |rs|
    ensures |AllocateAll(s, rs).newItems| == |s.newItems| + |rs|
    ensures AllocateAll(s, rs).newItems[..|s.newItems|] == s.newItems
    ensures rs[k] in AllocateAll(s, rs).refs && AllocateAll(s, rs).refs[rs[k]] == |s.newItems| + k
    ensures AllocateAll(s, rs).newItems[|s.newItems| + k] == s.items[rs[k]].value
    decreases |rs|
  {
    var next := Allocate(s, rs[0]).0;
    var rest := rs[1..];
    AllocateNextValid(s, rs);
    AllocateAllPrefix(s, rs);
    if |rest| == 0 {
      assert k == 0;
    } else if k == 0 {
      AllocateAllPrefix(next, rest);
      assert rs[0] !in rest;
      AllocateAllKeeps(next, rest, rs[0]);
    } else {
      assert rest[k - 1] == rs[k];
      AllocateAllMeaning(next, rest, k - 1);
    }
  }

  /** After the first allocation, the remaining references are still
    * distinct, in range and holding items. */
  lemma AllocateNextValid<T>(s: ShelfSubstitution<T>, rs: seq<nat>)
    requires forall i :: 0 <= i < |rs| ==> rs[i] < |s.items|
    requires forall i, j :: 0 <= i < j < |rs| ==> rs[i] != rs[j]
    requires forall i :: 0 <= i < |rs| ==> s.items[rs[i]].Some?
    requires |rs| > 0
    ensures var next := Allocate(s, rs[0]).0;
      (forall i :: 0 <= i < |rs| - 1 ==> rs[1..][i] < |next.items|)
      && (forall i, j :: 0 <= i < j < |rs| - 1 ==> rs[1..][i] != rs[1..][j])
      && (forall i :: 0 <= i < |rs| - 1 ==> next.items[rs[1..][i]] == s.items[rs[1..][i]])
  {
    var next := Allocate(s, rs[0]).0;
    var rest := rs[1..];
    forall i | 0 <= i < |rest| ensures next.items[rest[i]] == s.items[rest[i]] {
      assert rest[i] == rs[i + 1] && rs[i + 1] != rs[0];
    }
  }

  /** Allocation only appends to the new items, one per reference. */
  lemma {:induction false} AllocateAllPrefix<T>(s: ShelfSubstitution<T>, rs: seq<nat>)
    requires forall i :: 0 <= i < |rs| ==> rs[i] < |s.items|
    requires forall i, j :: 0 <= i < j < |rs| ==> rs[i] != rs[j]
    requires forall i :: 0 <= i < |rs| ==> s.items[rs[i]].Some?
    ensures |AllocateAll(s, rs).newItems| == |s.newItems| + |rs|
    ensures AllocateAll(s, rs).newItems[..|s.newItems|] == s.newItems
    decreases |rs|
  {
    if |rs| > 0 {
      var next := Allocate(s, rs[0]).0;
      AllocateNextValid(s, rs);
      AllocateAllPrefix(next, rs[1..]);
      var r := AllocateAll(next, rs[1..]);
      assert r.newItems[..|s.newItems|] == r.newItems[..|next.newItems|][..|s.newItems|];
    }
  }

  /** A reference not allocated again keeps its new index. */
  lemma {:induction false} AllocateAllKeeps<T>(s: ShelfSubstitution<T>, rs: seq<nat>, r: nat)
    requires forall i :: 0 <= i < |rs| ==> rs[i] < |s.items|
    requires forall i, j :: 0 <= i < j < |rs| ==> rs[i] != rs[j]
    requires forall i :: 0 <= i < |rs| ==> s.items[rs[i]].Some?
    requires r in s.refs && r !in rs
    ensures r in AllocateAll(s, rs).refs && AllocateAll(s, rs).refs[r] == s.refs[r]
    ensures |AllocateAll(s, rs).newItems| == |s.newItems| + |rs|
    ensures AllocateAll(s, rs).newItems[..|s.newItems|] == s.newItems
    decreases |rs|
  {
    AllocateAllPrefix(s, rs);
    if |rs| > 0 {
      var next := Allocate(s, rs[0]).0;
      var rest := rs[1..];
      AllocateNextValid(s, rs);
      assert r !in rest;
      AllocateAllKeeps(next, rest, r);
    }
  }

  // Renaming blank nodes.

  /** `assign_ids`: each class of equivalent blank nodes gets the
    * identifier the generator gives its class. */
  function AssignIds(e: UnionFinds.UnionFind, generated: nat -> Id): (ids: map<nat, Id>)
    ensures ids.Keys == e.classOf.Keys
  {
    map b | b in e.classOf :: generated(e.classOf[b])
  }

  /** The renaming of `apply_equivalences`: a blank node with an assigned
    * identifier takes it, and everything else keeps its identifier. */
  function RemapId(ids: map<nat, Id>, id: Id): (r: Id)
    ensures id.Iri? ==> r == id
    ensures id.Blank? && id.blank !in ids ==> r == id
    ensures id.Blank? && id.blank in ids ==> r == ids[id.blank]
  {
    match id
    case Blank(b) => if b in ids then ids[b] else id
    case Iri(_) => id
  }

  /** Renaming merges exactly the equivalent blank nodes, provided the
    * generator gives distinct classes distinct identifiers. */
  lemma RemapMerges(e: UnionFinds.UnionFind, generated: nat -> Id, a: nat, b: nat)
    requires a in e.classOf && b in e.classOf
    requires forall c, d :: c != d ==> generated(c) != generated(d)
    ensures RemapId(AssignIds(e, generated), Blank(a)) == RemapId(AssignIds(e, generated), Blank(b)) <==> UnionFinds.Eq(e, a, b)
  {
  }
}
