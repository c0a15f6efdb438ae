/**
 * The union-find structure the unification passes use to record blank node
 * equivalences (`core/src/utils/union_find.rs`), with its classes abstracted
 * to a map from each key to the index of its class.  Class indices are
 * handed out in order, as `new_class` does.
 */
module UnionFinds {
  import opened Wrappers

  datatype UnionFind = UnionFind(classOf: map<nat, nat>, count: nat)

  /** Every class index in use was handed out. */
  predicate Valid(u: UnionFind) {
    forall k :: k in u.classOf ==> u.classOf[k] < u.count
  }

  function Empty(): (u: UnionFind)
    ensures Valid(u) && |u.classOf| == 0
  {
    UnionFind(map[], 0)
  }

  /** `class_of`. */
  function ClassOf(u: UnionFind, k: nat): (r: Option<nat>)
    ensures r.Some? <==> k in u.classOf
  {
    if k in u.classOf then Some(u.classOf[k]) else None
  }

  /** `Equivalences::eq`: both keys are known and in the same class. */
  predicate Eq(u: UnionFind, a: nat, b: nat) {
    match ClassOf(u, a)
    case Some(x) => (match ClassOf(u, b) case Some(y) => x == y case None => false)
    case None => false
  }

  /** `insert`: a key not yet known gets a class of its own. */
  function Insert(u: UnionFind, k: nat): (r: UnionFind)
    requires k !in u.classOf
    ensures r.classOf.Keys == u.classOf.Keys + {k}
  {
    UnionFind(u.classOf[k := u.count], u.count + 1)
  }

  /** `merge`: when `a` and `b` are in different classes, the members of
    * `a`'s class join `b`'s. */
  function Merge(u: UnionFind, a: nat, b: nat): (r: UnionFind)
    requires a in u.classOf && b in u.classOf
    ensures r.classOf.Keys == u.classOf.Keys && r.count == u.count
  {
    if u.classOf[a] == u.classOf[b] then u
    else
      var ca := u.classOf[a];
      var cb := u.classOf[b];
      UnionFind(map k | k in u.classOf :: if u.classOf[k] == ca then cb else u.classOf[k], u.count)
  }

  /** Equivalence only relates known keys, and is an equivalence relation
    * on them. */
  lemma EqLaws(u: UnionFind, a: nat, b: nat, c: nat)
    ensures Eq(u, a, b) ==> a in u.classOf && b in u.classOf
    ensures a !in u.classOf || b !in u.classOf ==> !Eq(u, a, b)
    ensures Eq(u, a, a) <==> a in u.classOf
    ensures Eq(u, a, b) <==> Eq(u, b, a)
    ensures Eq(u, a, b) && Eq(u, b, c) ==> Eq(u, a, c)
  {
  }

  /** A new key is equivalent to itself only, and every other equivalence
    * stays as it was. */
  lemma InsertMeaning(u: UnionFind, k: nat, x: nat, y: nat)
    requires Valid(u) && k !in u.classOf
    ensures Valid(Insert(u, k))
    ensures Eq(Insert(u, k), x, y) <==> Eq(u, x, y) || (x == k && y == k)
  {
    var r := Insert(u, k);
    if x == k && y != k && y in u.classOf {
      assert r.classOf[y] == u.classOf[y] < u.count == r.classOf[k];
    }
    if y == k && x != k && x in u.classOf {
      assert r.classOf[x] == u.classOf[x] < u.count == r.classOf[k];
    }
  }

  /** After a merge two keys are equivalent exactly when they were, or each
    * was equivalent to `a` or to `b`. */
  lemma MergeMeaning(u: UnionFind, a: nat, b: nat, x: nat, y: nat)
    requires Valid(u) && a in u.classOf && b in u.classOf
    ensures Valid(Merge(u, a, b))
    ensures Eq(Merge(u, a, b), a, b)
    ensures Eq(Merge(u, a, b), x, y) <==>
      Eq(u, x, y) || ((Eq(u, x, a) || Eq(u, x, b)) && (Eq(u, y, a) || Eq(u, y, b)))
  {
  }
}
