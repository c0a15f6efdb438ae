/**
 * Single values with several representatives (`build/src/single.rs`): a
 * map from representatives to their metadata, all of which are expected to
 * collapse to one value once the model is simplified.  Representatives are
 * node identifiers, ordered as the map orders them.
 */
module Singles {
  import opened Wrappers
  import opened Ids

  datatype Single<M> = Single(reps: map<Id, M>)

  /** Two representatives that disagree about a value that must be single. */
  datatype Conflict<M> = Conflict(first: (Id, M), second: (Id, M))

  function Empty<M>(): Single<M> {
    Single(map[])
  }

  /** A default single has no representative. */
  lemma EmptyHasNoRepresentative<M>()
    ensures |Empty<M>().reps| == 0
  {
  }

  /** Adds a representative; a representative already there keeps its place
    * and merges the new metadata into its own. */
  function Insert<M>(s: Single<M>, v: Id, meta: M, merge: (M, M) -> M): (r: Single<M>)
    ensures r.reps.Keys == s.reps.Keys + {v}
    ensures v in s.reps ==> |r.reps| == |s.reps| && r.reps[v] == merge(s.reps[v], meta)
    ensures v !in s.reps ==> |r.reps| == |s.reps| + 1 && r.reps[v] == meta
    ensures forall k :: k in s.reps && k != v ==> r.reps[k] == s.reps[k]
  {
    if v in s.reps then
      assert s.reps.Keys + {v} == s.reps.Keys;
      Single(s.reps[v := merge(s.reps[v], meta)])
    else
      Single(s.reps[v := meta])
  }

  /** Forgets every representative and keeps the given one only. */
  function Replace<M>(s: Single<M>, v: Id, meta: M): (r: Single<M>)
    ensures r.reps.Keys == {v} && |r.reps| == 1 && r.reps[v] == meta
  {
    Single(map[v := meta])
  }

  /** The first representative, in map order. */
  function First<M>(s: Single<M>): (r: Option<Id>)
    ensures r.None? <==> |s.reps| == 0
    ensures r.Some? ==> r.value in s.reps && forall k :: k in s.reps ==> IdLe(r.value, k)
  {
    if |s.reps| == 0 then None else
      assert s.reps.Keys != {} by {
        var k :| k in s.reps;
      }
      Some(Least(s.reps.Keys))
  }

  /** The value if there is at most one representative, and a conflict
    * between the first two otherwise. */
  function TryUnwrap<M>(s: Single<M>): Result<Option<(Id, M)>, Conflict<M>> {
    if |s.reps| == 0 then Success(None)
    else
      var a := First(s).value;
      var rest := Single(s.reps - {a});
      if |rest.reps| == 0 then Success(Some((a, s.reps[a])))
      else
        var b := First(rest).value;
        Failure(Conflict((a, s.reps[a]), (b, s.reps[b])))
  }

  /** `try_unwrap` succeeds with nothing on no representative, with the one
    * representative when there is one, and reports the two smallest when
    * there are more. */
  lemma TryUnwrapMeaning<M>(s: Single<M>)
    ensures TryUnwrap(s) == Success(None) <==> |s.reps| == 0
    ensures TryUnwrap(s).Success? && TryUnwrap(s).value.Some? <==> |s.reps| == 1
    ensures |s.reps| == 1 ==> exists v :: s.reps.Keys == {v} && TryUnwrap(s) == Success(Some((v, s.reps[v])))
    ensures TryUnwrap(s).Failure? <==> |s.reps| >= 2
    ensures TryUnwrap(s).Failure? ==>
      var c := TryUnwrap(s).error;
      c.first.0 in s.reps && c.second.0 in s.reps && c.first.0 != c.second.0
      && c.first.1 == s.reps[c.first.0] && c.second.1 == s.reps[c.second.0]
      && (forall k :: k in s.reps ==> IdLe(c.first.0, k))
      && (forall k :: k in s.reps && k != c.first.0 ==> IdLe(c.second.0, k))
  {
    if |s.reps| > 0 {
      var a := First(s).value;
      var rest := s.reps - {a};
      assert rest.Keys == s.reps.Keys - {a};
      assert |rest.Keys| == |s.reps.Keys| - 1;
      if |rest| == 0 {
        assert rest.Keys == {};
        forall k | k in s.reps ensures k == a {
          assert k !in rest.Keys;
        }
        assert s.reps.Keys == {a};
      }
    }
  }

  /** Two singles are equal when they share a representative: every
    * representative stands for the same value. */
  predicate SingleEq<M, N>(a: Single<M>, b: Single<N>) {
    exists k :: k in a.reps && k in b.reps
  }

  /** This equality is symmetric and holds of a single with itself exactly
    * when it has a representative; an empty single equals nothing. */
  lemma SingleEqLaws<M>(a: Single<M>, b: Single<M>)
    ensures SingleEq(a, b) <==> SingleEq(b, a)
    ensures SingleEq(a, a) <==> |a.reps| > 0
    ensures |a.reps| == 0 ==> !SingleEq(a, b)
  {
    if |a.reps| > 0 {
      var k :| k in a.reps;
      assert k in a.reps && k in a.reps;
    }
  }

  /** Sharing a representative is not transitive: there is no total
    * equality. */
  lemma SingleEqNotTransitive()
    ensures exists a: Single<int>, b: Single<int>, c: Single<int> ::
      SingleEq(a, b) && SingleEq(b, c) && !SingleEq(a, c)
  {
    var a := Single(map[Iri(0) := 0]);
    var b := Single(map[Iri(0) := 0, Iri(1) := 0]);
    var c := Single(map[Iri(1) := 0]);
    assert Iri(0) in a.reps && Iri(0) in b.reps;
    assert Iri(1) in b.reps && Iri(1) in c.reps;
    assert SingleEq(a, b) && SingleEq(b, c) && !SingleEq(a, c);
  }

  /** Identifiers in map order. */
  function CmpId(a: Id, b: Id): (r: Ordering)
    ensures r == Equal <==> a == b
    ensures r == Less <==> IdLe(a, b) && a != b
    ensures r == Greater <==> IdLe(b, a) && a != b
  {
    IdLeTotal(a, b);
    if a == b then Equal else if IdLe(a, b) then Less else Greater
  }

  /** The order of optional values, absence first. */
  function CmpOption(a: Option<Id>, b: Option<Id>): Ordering {
    match (a, b)
    case (None, None) => Equal
    case (None, Some(_)) => Less
    case (Some(_), None) => Greater
    case (Some(x), Some(y)) => CmpId(x, y)
  }

  /** Singles ordered by their first representatives. */
  function StrippedCmp<M>(a: Single<M>, b: Single<M>): Ordering {
    CmpOption(First(a), First(b))
  }

  /** The order compares first representatives only: it is antisymmetric,
    * equal exactly when the first representatives agree, and two non-empty
    * singles it finds equal are equal singles. */
  lemma StrippedCmpMeaning<M>(a: Single<M>, b: Single<M>)
    ensures StrippedCmp(a, b) == Equal <==> First(a) == First(b)
    ensures StrippedCmp(a, b) == Less <==> StrippedCmp(b, a) == Greater
    ensures StrippedCmp(a, b) == Equal && |a.reps| > 0 ==> SingleEq(a, b)
    ensures |a.reps| == 0 && |b.reps| > 0 ==> StrippedCmp(a, b) == Less
  {
    if First(a).Some? && First(b).Some? {
      IdLeTotal(First(a).value, First(b).value);
    }
    if StrippedCmp(a, b) == Equal && |a.reps| > 0 {
      var k := First(a).value;
      assert k in a.reps && k in b.reps;
    }
  }
}
