/**
 * Restrictions on primitive layouts as the build crate collects them
 * (`build/src/layout/restriction/primitive.rs` and its later copy
 * `build/src/layout/primitive/restriction.rs`): a map from restrictions to
 * metadata, kept in restriction order, then checked against the primitive
 * it restricts.  Only integers take numeric bounds here and only strings
 * take patterns; booleans, dates, times and IRIs take none.
 *
 * Numeric values are integers; a pattern is named by an index standing for
 * its regular expression, ordered as the regular expressions are.
 */
module PrimitiveRestrictions {
  import opened Wrappers

  datatype Restriction =
    | InclusiveMinimum(value: int)
    | ExclusiveMinimum(value: int)
    | InclusiveMaximum(value: int)
    | ExclusiveMaximum(value: int)
    | Pattern(regexp: nat)

  /** Restrictions are ordered by variant, numeric ones first, then by
    * value. */
  function Tag(r: Restriction): nat {
    match r
    case InclusiveMinimum(_) => 0
    case ExclusiveMinimum(_) => 1
    case InclusiveMaximum(_) => 2
    case ExclusiveMaximum(_) => 3
    case Pattern(_) => 4
  }

  function Value(r: Restriction): int {
    if r.Pattern? then r.regexp else r.value
  }

  predicate Le(a: Restriction, b: Restriction) {
    Tag(a) < Tag(b) || (Tag(a) == Tag(b) && Value(a) <= Value(b))
  }

  lemma LeTotal(a: Restriction, b: Restriction)
    ensures Le(a, b) || Le(b, a)
    ensures Le(a, b) && Le(b, a) ==> a == b
  {
  }

  /** A non-empty set of restrictions has a least one. */
  lemma {:induction false} HasLeast(s: set<Restriction>)
    requires s != {}
    ensures exists m :: m in s && forall x :: x in s ==> Le(m, x)
    decreases |s|
  {
    var a :| a in s;
    var rest := s - {a};
    if rest == {} {
      forall x | x in s ensures Le(a, x) {
        assert x !in rest;
      }
    } else {
      HasLeast(rest);
      var m :| m in rest && forall x :: x in rest ==> Le(m, x);
      LeTotal(m, a);
      if Le(m, a) {
        assert forall x :: x in s ==> Le(m, x);
      } else {
        assert forall x :: x in s ==> Le(a, x) by {
          forall x | x in s ensures Le(a, x) {
            if x != a {
              assert Le(m, x);
            }
          }
        }
      }
    }
  }

  /** The first restriction of a set, in map order. */
  function Least(s: set<Restriction>): (m: Restriction)
    requires s != {}
    ensures m in s && forall x :: x in s ==> Le(m, x)
  {
    HasLeast(s);
    var m :| m in s && forall x :: x in s ==> Le(m, x);
    assert forall n :: n in s && (forall x :: x in s ==> Le(n, x)) ==> n == m by {
      forall n | n in s && (forall x :: x in s ==> Le(n, x)) ensures n == m {
        LeTotal(n, m);
      }
    }
    m
  }

  /** The restrictions of a set in map order. */
  function InOrder(s: set<Restriction>): (r: seq<Restriction>)
    ensures |r| == |s|
    ensures forall i :: 0 <= i < |r| ==> r[i] in s
    ensures forall x :: x in s ==> x in r
    decreases |s|
  {
    if s == {} then []
    else
      var m := Least(s);
      var others := s - {m};
      assert |others| == |s| - 1;
      var rest := InOrder(others);
      var r := [m] + rest;
      assert forall x :: x in s ==> x in r by {
        forall x | x in s ensures x in r {
          if x != m {
            assert x in others;
            assert x in rest;
          }
        }
      }
      r
  }

  /** Restrictions collected for a primitive layout, with metadata. */
  datatype Restrictions<M> = Restrictions(entries: map<Restriction, M>)

  /** Adds a restriction; a duplicate merges its metadata into the one
    * already there. */
  function Insert<M>(rs: Restrictions<M>, r: Restriction, meta: M, merge: (M, M) -> M): (res: Restrictions<M>)
    ensures res.entries.Keys == rs.entries.Keys + {r}
    ensures r in rs.entries ==> |res.entries| == |rs.entries| && res.entries[r] == merge(rs.entries[r], meta)
    ensures r !in rs.entries ==> res.entries[r] == meta
    ensures forall k :: k in rs.entries && k != r ==> res.entries[k] == rs.entries[k]
  {
    if r in rs.entries then
      assert rs.entries.Keys + {r} == rs.entries.Keys;
      Restrictions(rs.entries[r := merge(rs.entries[r], meta)])
    else
      Restrictions(rs.entries[r := meta])
  }

  /** Restriction sets are equal when they hold the same restrictions, in
    * the same order, whatever their metadata. */
  predicate Eq<M, N>(a: Restrictions<M>, b: Restrictions<N>) {
    |a.entries| == |b.entries| && InOrder(a.entries.Keys) == InOrder(b.entries.Keys)
  }

  /** Every restriction of `a` is one of `b`. */
  predicate IncludedIn<M, N>(a: Restrictions<M>, b: Restrictions<N>) {
    forall r :: r in a.entries ==> r in b.entries
  }

  /** Equality is mutual inclusion: both compare the restrictions and
    * ignore the metadata. */
  lemma EqIsMutualInclusion<M, N>(a: Restrictions<M>, b: Restrictions<N>)
    ensures Eq(a, b) <==> IncludedIn(a, b) && IncludedIn(b, a)
  {
    if Eq(a, b) {
      forall r | r in a.entries ensures r in b.entries { assert r in InOrder(b.entries.Keys); }
      forall r | r in b.entries ensures r in a.entries { assert r in InOrder(a.entries.Keys); }
    }
    if IncludedIn(a, b) && IncludedIn(b, a) {
      assert a.entries.Keys == b.entries.Keys;
    }
  }

  /** `unify`: every restriction of `b` inserted into `a`. */
  function Unify<M>(a: Restrictions<M>, b: Restrictions<M>, merge: (M, M) -> M): Restrictions<M> {
    Restrictions(map k | k in a.entries.Keys + b.entries.Keys ::
      if k in a.entries && k in b.entries then merge(a.entries[k], b.entries[k])
      else if k in a.entries then a.entries[k] else b.entries[k])
  }

  /** The unified set includes both sides and nothing else, agrees with
    * inserting `b`'s restrictions one at a time, and keeps the metadata of
    * the restrictions only one side has. */
  lemma UnifyMeaning<M>(a: Restrictions<M>, b: Restrictions<M>, merge: (M, M) -> M)
    ensures IncludedIn(a, Unify(a, b, merge)) && IncludedIn(b, Unify(a, b, merge))
    ensures forall r :: r in Unify(a, b, merge).entries ==> r in a.entries || r in b.entries
    ensures forall k :: k in b.entries ==>
      Unify(a, b, merge).entries[k] == Insert(a, k, b.entries[k], merge).entries[k]
    ensures forall k :: k in a.entries && k !in b.entries ==> Unify(a, b, merge).entries[k] == a.entries[k]
    ensures Eq(Unify(a, b, merge), Unify(b, a, merge))
  {
    var u := Unify(a, b, merge);
    var v := Unify(b, a, merge);
    assert u.entries.Keys == v.entries.Keys;
  }

  /** The primitives restrictions are checked against. */
  datatype Primitive = Boolean | Integer | String | Time | Date | DateTime | Iri | Uri | Url

  /** A bound the integer restrictions keep. */
  datatype Bound = Min(min: int) | Max(max: int)

  datatype Error =
    | Invalid(primitive: Primitive, restriction: Restriction)
    | IntegerConflict(added: Bound, existing: Bound)

  /** `build_boolean`, `build_time`, `build_date`, `build_date_time`,
    * `build_iri`, `build_uri` and `build_url`: a primitive that takes no
    * restriction rejects the first one it is given. */
  function BuildUnrestricted<M>(p: Primitive, rs: Restrictions<M>): (r: Result<(), Error>)
    ensures r.Success? <==> |rs.entries| == 0
    ensures r.Failure? ==>
      r.error.Invalid? && r.error.primitive == p && r.error.restriction in rs.entries
      && forall k :: k in rs.entries ==> Le(r.error.restriction, k)
  {
    if |rs.entries| == 0 then Success(())
    else
      assert rs.entries.Keys != {} by { var k :| k in rs.entries; }
      Failure(Invalid(p, Least(rs.entries.Keys)))
  }

  /** Integer bounds, both inclusive. */
  datatype IntegerBounds = IntegerBounds(min: Option<int>, max: Option<int>)

  predicate Admits(b: IntegerBounds, x: int) {
    (b.min.Some? ==> b.min.value <= x) && (b.max.Some? ==> x <= b.max.value)
  }

  /** Adding a minimum: a minimum above the maximum conflicts with it;
    * otherwise the larger minimum is kept. */
  function InsertMin(b: IntegerBounds, min: int): (r: Result<IntegerBounds, Error>)
    ensures r.Success? ==> forall x :: Admits(r.value, x) <==> Admits(b, x) && min <= x
    ensures r.Failure? ==> forall x :: !(Admits(b, x) && min <= x)
  {
    if b.max.Some? && min > b.max.value then Failure(IntegerConflict(Min(min), Max(b.max.value)))
    else if b.min.Some? && min < b.min.value then Success(b)
    else Success(b.(min := Some(min)))
  }

  /** Adding a maximum: a maximum below the minimum conflicts with it;
    * otherwise the smaller maximum is kept. */
  function InsertMax(b: IntegerBounds, max: int): (r: Result<IntegerBounds, Error>)
    ensures r.Success? ==> forall x :: Admits(r.value, x) <==> Admits(b, x) && x <= max
    ensures r.Failure? ==> forall x :: !(Admits(b, x) && x <= max)
  {
    if b.min.Some? && max < b.min.value then Failure(IntegerConflict(Max(max), Min(b.min.value)))
    else if b.max.Some? && max > b.max.value then Success(b)
    else Success(b.(max := Some(max)))
  }

  /** What a restriction demands of an integer. */
  predicate Satisfies(x: int, r: Restriction) {
    match r
    case InclusiveMinimum(v) => v <= x
    case ExclusiveMinimum(v) => v < x
    case InclusiveMaximum(v) => x <= v
    case ExclusiveMaximum(v) => x < v
    case Pattern(_) => false
  }

  /** One restriction of `build_integer`: an exclusive minimum `n` is the
    * minimum `n + 1`, an exclusive maximum `n` the maximum `n - 1`, and a
    * pattern is invalid. */
  function IntegerStep(b: IntegerBounds, r: Restriction): Result<IntegerBounds, Error> {
    match r
    case InclusiveMinimum(v) => InsertMin(b, v)
    case ExclusiveMinimum(v) => InsertMin(b, v + 1)
    case InclusiveMaximum(v) => InsertMax(b, v)
    case ExclusiveMaximum(v) => InsertMax(b, v - 1)
    case Pattern(_) => Failure(Invalid(Integer, r))
  }

  function IntegerFold(b: IntegerBounds, rs: seq<Restriction>): Result<IntegerBounds, Error>
    decreases |rs|
  {
    if |rs| == 0 then Success(b)
    else
      var next :- IntegerStep(b, rs[0]);
      IntegerFold(next, rs[1..])
  }

  /** An integer meets every restriction of a list. */
  predicate MeetsAll(x: int, rs: seq<Restriction>) {
    forall i :: 0 <= i < |rs| ==> Satisfies(x, rs[i])
  }

  /** An integer meets every restriction of a set. */
  predicate MeetsEvery(x: int, s: set<Restriction>) {
    forall k :: k in s ==> Satisfies(x, k)
  }

  predicate NoPattern(rs: seq<Restriction>) {
    forall i :: 0 <= i < |rs| ==> !rs[i].Pattern?
  }

  lemma MeetsAllCons(x: int, rs: seq<Restriction>)
    requires |rs| > 0
    ensures MeetsAll(x, rs) <==> Satisfies(x, rs[0]) && MeetsAll(x, rs[1..])
    ensures NoPattern(rs) <==> !rs[0].Pattern? && NoPattern(rs[1..])
  {
    assert forall i :: 1 <= i < |rs| ==> rs[i] == rs[1..][i - 1];
  }

  /** Folding the restrictions: on success the bounds admit exactly the
    * integers the starting bounds and every restriction admit; an invalid
    * restriction is a pattern of the list; a conflict means no integer
    * meets them all. */
  lemma {:induction false} IntegerFoldMeaning(b: IntegerBounds, rs: seq<Restriction>)
    ensures var r := IntegerFold(b, rs);
      (r.Success? ==> NoPattern(rs) && forall x :: Admits(r.value, x) <==> Admits(b, x) && MeetsAll(x, rs))
      && (r.Failure? && r.error.Invalid? ==> r.error.restriction in rs && r.error.restriction.Pattern?)
      && (r.Failure? && r.error.IntegerConflict? ==> forall x :: !(Admits(b, x) && MeetsAll(x, rs)))
    decreases |rs|
  {
    if |rs| > 0 {
      var step := IntegerStep(b, rs[0]);
      forall x ensures MeetsAll(x, rs) <==> Satisfies(x, rs[0]) && MeetsAll(x, rs[1..]) {
        MeetsAllCons(x, rs);
      }
      MeetsAllCons(0, rs);
      if step.Success? {
        IntegerFoldMeaning(step.value, rs[1..]);
        var r := IntegerFold(b, rs);
        if r.Failure? && r.error.Invalid? {
          assert r.error.restriction in rs[1..];
        }
      }
    }
  }

  /** A set's restrictions listed in map order are met exactly when each of
    * them is. */
  lemma InOrderMeets(x: int, s: set<Restriction>)
    ensures MeetsAll(x, InOrder(s)) <==> MeetsEvery(x, s)
  {
    var t := InOrder(s);
    if MeetsAll(x, t) {
      forall k | k in s ensures Satisfies(x, k) {
        var i :| 0 <= i < |t| && t[i] == k;
      }
    }
  }

  /** `build_integer`: the restrictions in map order. */
  function BuildInteger<M>(rs: Restrictions<M>): Result<IntegerBounds, Error> {
    IntegerFold(IntegerBounds(None, None), InOrder(rs.entries.Keys))
  }

  /** The integer restrictions admit exactly the integers every
    * restriction admits; they are rejected for a pattern, or for bounds
    * no integer meets; and an integer meeting every restriction of a set
    * with no pattern means the set builds. */
  lemma BuildIntegerMeaning<M>(rs: Restrictions<M>, w: int)
    ensures var r := BuildInteger(rs);
      (r.Success? ==> forall x :: Admits(r.value, x) <==> MeetsEvery(x, rs.entries.Keys))
      && (r.Failure? && r.error.Invalid? ==> r.error.restriction in rs.entries && r.error.restriction.Pattern?)
      && (r.Failure? && r.error.IntegerConflict? ==> forall x :: !MeetsEvery(x, rs.entries.Keys))
      && (MeetsEvery(w, rs.entries.Keys) ==> r.Success?)
  {
    var s := InOrder(rs.entries.Keys);
    IntegerFoldMeaning(IntegerBounds(None, None), s);
    forall x ensures MeetsAll(x, s) <==> MeetsEvery(x, rs.entries.Keys) {
      InOrderMeets(x, rs.entries.Keys);
    }
  }

  /** Exclusive bounds shift by one: an exclusive minimum `n` is the
    * inclusive minimum `n + 1`, an exclusive maximum `n` the inclusive
    * maximum `n - 1`. */
  lemma ExclusiveBoundsShift(n: int)
    ensures BuildInteger(Restrictions(map[ExclusiveMinimum(n) := ()])) == Success(IntegerBounds(Some(n + 1), None))
    ensures BuildInteger(Restrictions(map[ExclusiveMaximum(n) := ()])) == Success(IntegerBounds(None, Some(n - 1)))
  {
    OneRestriction(ExclusiveMinimum(n));
    OneRestriction(ExclusiveMaximum(n));
  }

  lemma OneRestriction(r: Restriction)
    ensures BuildInteger(Restrictions(map[r := ()])) == IntegerStep(IntegerBounds(None, None), r)
  {
    var m := map[r := ()];
    assert m.Keys == {r};
    SingletonInOrder(r);
    var step := IntegerStep(IntegerBounds(None, None), r);
    if step.Success? {
      assert IntegerFold(step.value, []) == Success(step.value);
      assert [r][1..] == [];
    }
  }

  lemma SingletonInOrder(r: Restriction)
    ensures InOrder({r}) == [r]
  {
    assert Least({r}) == r;
    assert {r} - {r} == {};
  }

  /** `build_string`: patterns are collected, and the first numeric
    * restriction, if any, is rejected. */
  function BuildString<M>(rs: Restrictions<M>): Result<set<nat>, Error> {
    StringFold({}, InOrder(rs.entries.Keys))
  }

  function StringFold(acc: set<nat>, rs: seq<Restriction>): Result<set<nat>, Error>
    decreases |rs|
  {
    if |rs| == 0 then Success(acc)
    else if rs[0].Pattern? then StringFold(acc + {rs[0].regexp}, rs[1..])
    else Failure(Invalid(String, rs[0]))
  }

  lemma {:induction false} StringFoldMeaning(acc: set<nat>, rs: seq<Restriction>)
    ensures var r := StringFold(acc, rs);
      (r.Success? <==> forall i :: 0 <= i < |rs| ==> rs[i].Pattern?)
      && (r.Success? ==> r.value == acc + set i | 0 <= i < |rs| :: rs[i].regexp)
      && (r.Failure? ==>
        exists i :: 0 <= i < |rs| && r.error == Invalid(String, rs[i]) && !rs[i].Pattern?
          && forall j :: 0 <= j < i ==> rs[j].Pattern?)
    decreases |rs|
  {
    if |rs| > 0 {
      if rs[0].Pattern? {
        var tail := rs[1..];
        StringFoldMeaning(acc + {rs[0].regexp}, tail);
        assert forall i :: 1 <= i < |rs| ==> rs[i] == tail[i - 1];
        var r := StringFold(acc, rs);
        if r.Success? {
          var all := set i | 0 <= i < |rs| :: rs[i].regexp;
          var later := set i | 0 <= i < |tail| :: tail[i].regexp;
          assert all == {rs[0].regexp} + later by {
            forall p | p in all ensures p in {rs[0].regexp} + later {
              var i :| 0 <= i < |rs| && rs[i].regexp == p;
              if i > 0 { assert tail[i - 1].regexp == p; }
            }
            forall p | p in later ensures p in all {
              var i :| 0 <= i < |tail| && tail[i].regexp == p;
              assert rs[i + 1].regexp == p;
            }
          }
        } else {
          var i :| 0 <= i < |tail| && r.error == Invalid(String, tail[i]) && !tail[i].Pattern?
            && forall j :: 0 <= j < i ==> tail[j].Pattern?;
          assert rs[i + 1] == tail[i];
          assert forall j :: 0 <= j < i + 1 ==> rs[j].Pattern? by {
            forall j | 0 <= j < i + 1 ensures rs[j].Pattern? {
              if j > 0 { assert rs[j] == tail[j - 1]; }
            }
          }
        }
      }
    }
  }

  /** The string restrictions are the patterns when there is nothing
    * else. */
  lemma BuildStringAccepts<M>(rs: Restrictions<M>)
    ensures BuildString(rs).Success? <==> forall k :: k in rs.entries ==> k.Pattern?
    ensures BuildString(rs).Success? ==> BuildString(rs).value == set k | k in rs.entries && k.Pattern? :: k.regexp
  {
    var s := InOrder(rs.entries.Keys);
    StringFoldMeaning({}, s);
    var r := BuildString(rs);
    if r.Success? {
      var got := set i | 0 <= i < |s| :: s[i].regexp;
      var want := set k | k in rs.entries && k.Pattern? :: k.regexp;
      forall p | p in want ensures p in got {
        var k :| k in rs.entries && k.Pattern? && k.regexp == p;
        var i :| 0 <= i < |s| && s[i] == k;
      }
      assert {} + got == got;
      assert got == want;
      forall k | k in rs.entries ensures k.Pattern? {
        var i :| 0 <= i < |s| && s[i] == k;
      }
    }
  }

  /** Otherwise the error names a numeric restriction, and since numeric
    * restrictions come first in map order, the least one of the set. */
  lemma BuildStringRejects<M>(rs: Restrictions<M>)
    ensures var r := BuildString(rs);
      r.Failure? ==>
        r.error.Invalid? && r.error.primitive == String && r.error.restriction in rs.entries
        && !r.error.restriction.Pattern? && forall k :: k in rs.entries ==> Le(r.error.restriction, k)
  {
    var s := InOrder(rs.entries.Keys);
    if |s| > 0 {
      assert s[0] == Least(rs.entries.Keys);
      if s[0].Pattern? {
        InOrderSorted(rs.entries.Keys);
        forall i | 0 <= i < |s| ensures s[i].Pattern? {
          assert Le(s[0], s[i]);
        }
        StringFoldSucceeds({}, s);
      }
    }
  }

  lemma {:induction false} StringFoldSucceeds(acc: set<nat>, rs: seq<Restriction>)
    requires forall i :: 0 <= i < |rs| ==> rs[i].Pattern?
    ensures StringFold(acc, rs).Success?
    decreases |rs|
  {
    if |rs| > 0 {
      StringFoldSucceeds(acc + {rs[0].regexp}, rs[1..]);
    }
  }

  /** The list is in map order. */
  lemma {:induction false} InOrderSorted(s: set<Restriction>)
    ensures forall i, j :: 0 <= i <= j < |InOrder(s)| ==> Le(InOrder(s)[i], InOrder(s)[j])
    decreases |s|
  {
    if s != {} {
      var m := Least(s);
      var others := s - {m};
      InOrderSorted(others);
      var rest := InOrder(others);
      var t := InOrder(s);
      assert t == [m] + rest;
      forall i, j | 0 <= i <= j < |t| ensures Le(t[i], t[j]) {
        if i == 0 {
          assert t[j] in s;
        } else {
          assert t[i] == rest[i - 1] && t[j] == rest[j - 1];
        }
      }
    }
  }
}
