/**
 * Blank node unification in the build crate
 * (`build/src/context/build/unify.rs`): binding values with their blank
 * nodes erased or replaced by colours, the colours themselves, the
 * equivalences between blank nodes, the colour check that discards a
 * candidate bijection, and the odometer that enumerates bijections.
 * Blank node identifiers are their indices.
 */
module Unify {
  import opened Wrappers
  import UnionFinds

  // Binding values.

  /** A value that is not a blank node; interned terms are indices. */
  datatype PlainValue =
    | IriValue(iri: nat)
    | BooleanValue(boolean: bool)
    | U64Value(u64: nat)
    | IntegerValue(integer: int)
    | NumericValue(numerator: int, denominator: nat)
    | StringValue(text: string)
    | LangStringValue(langText: string, tag: string)
    | TypedStringValue(typedText: string, ty: nat)
    | NameValue(name: string)
    | RegExpValue(regexp: nat)

  /** A binding value whose blank nodes are of type `B`: the identifier,
    * nothing (`()`), or a colour. */
  datatype ValueRef<B> = Blank(blank: B) | Plain(plain: PlainValue)

  /** A property binding. */
  datatype BindingRef<B> = BindingRef(property: nat, value: ValueRef<B>)

  /** `ValueRef::strip_blank`: every blank node becomes `Blank(())`. */
  function StripBlank<B>(v: ValueRef<B>): (r: ValueRef<()>)
    ensures r.Blank? <==> v.Blank?
    ensures v.Plain? ==> r == Plain(v.plain)
  {
    match v
    case Blank(_) => Blank(())
    case Plain(p) => Plain(p)
  }

  /** `ValueRef::color`: a blank node is replaced by its colour, and fails
    * when it has none; other values pass through. */
  function ColorValue<B>(v: ValueRef<B>, color: B -> Option<nat>): (r: Option<ValueRef<nat>>)
    ensures r.None? <==> v.Blank? && color(v.blank).None?
    ensures r.Some? && v.Blank? ==> r.value == Blank(color(v.blank).value)
    ensures v.Plain? ==> r == Some(Plain(v.plain))
  {
    match v
    case Blank(b) => (match color(b) case Some(c) => Some(Blank(c)) case None => None)
    case Plain(p) => Some(Plain(p))
  }

  /** Colouring keeps the shape of a value: erasing the blank nodes of the
    * coloured value gives the value with its blank nodes erased. */
  lemma ColorThenStrip<B>(v: ValueRef<B>, color: B -> Option<nat>)
    requires ColorValue(v, color).Some?
    ensures StripBlank(ColorValue(v, color).value) == StripBlank(v)
  {
  }

  /** `BindingRef::strip_blank`. */
  function StripBinding<B>(b: BindingRef<B>): (r: BindingRef<()>)
    ensures r.property == b.property && r.value == StripBlank(b.value)
  {
    BindingRef(b.property, StripBlank(b.value))
  }

  /** `BindingRef::color`. */
  function ColorBinding<B>(b: BindingRef<B>, color: B -> Option<nat>): (r: Option<BindingRef<nat>>)
    ensures r.Some? <==> ColorValue(b.value, color).Some?
    ensures r.Some? ==> r.value.property == b.property && r.value.value == ColorValue(b.value, color).value
  {
    var v :- ColorValue(b.value, color);
    Some(BindingRef(b.property, v))
  }

  /** Two bindings that agree once their blank nodes are erased differ at
    * most in the blank node they bind. */
  lemma StripBindingMeaning<B>(a: BindingRef<B>, b: BindingRef<B>)
    ensures StripBinding(a) == StripBinding(b) <==>
      a.property == b.property && (a.value == b.value || (a.value.Blank? && b.value.Blank?))
  {
  }

  // Colours.

  /** A blank node colour: whether its members can be merged without
    * further checks, and its members. */
  datatype Color = Color(exact: bool, members: seq<nat>)

  /** `Color::property`: a property blank node has an exact colour of its
    * own. */
  function PropertyColor(member: nat): (c: Color)
    ensures c.exact && c.members == [member]
  {
    Color(true, [member])
  }

  /** `Color::exact`: a new colour for non-recursive blank nodes. */
  function ExactColor(): (c: Color)
    ensures c.exact && |c.members| == 0
  {
    Color(true, [])
  }

  /** `Color::recursive`: a new colour for recursive blank nodes. */
  function RecursiveColor(): (c: Color)
    ensures !c.exact && |c.members| == 0
  {
    Color(false, [])
  }

  // Equivalences.

  /** `Equivalences::eq`: blank nodes never inserted are equivalent to
    * nothing. */
  predicate EquivalencesEq(e: UnionFinds.UnionFind, a: nat, b: nat) {
    UnionFinds.Eq(e, a, b)
  }

  lemma EquivalencesEqUnknown(e: UnionFinds.UnionFind, a: nat, b: nat)
    ensures a !in e.classOf ==> !EquivalencesEq(e, a, b)
    ensures b !in e.classOf ==> !EquivalencesEq(e, a, b)
  {
  }

  // Bijection candidates.

  /** A solver goal: two blank nodes to prove equivalent, or two lists of
    * blank nodes to pair up. */
  datatype Item = Equivalence(left: nat, right: nat) | Bijection(lefts: seq<nat>, rights: seq<nat>)

  /** The candidate pairs `a[i]`, `b[indexes[i]]`. */
  predicate WellIndexed(a: seq<nat>, b: seq<nat>, indexes: seq<nat>) {
    |indexes| == |a| && forall i :: 0 <= i < |indexes| ==> indexes[i] < |b|
  }

  /** Some candidate pair has blank nodes of different colours. */
  predicate ColorClash(colorOf: map<nat, nat>, a: seq<nat>, b: seq<nat>, indexes: seq<nat>)
    requires WellIndexed(a, b, indexes)
    requires forall x :: x in a ==> x in colorOf
    requires forall x :: x in b ==> x in colorOf
  {
    exists i :: 0 <= i < |a| && colorOf[a[i]] != colorOf[b[indexes[i]]]
  }

  /** `child_environment`, from the pair at index `i` on: fails on the
    * first pair of different colours, and otherwise pushes a goal for every
    * pair not already equivalent. */
  function ChildFrom(colorOf: map<nat, nat>, stack: seq<Item>, indexes: seq<nat>, e: UnionFinds.UnionFind,
                     a: seq<nat>, b: seq<nat>, i: nat): (r: Option<seq<Item>>)
    requires WellIndexed(a, b, indexes) && i <= |a|
    requires forall x :: x in a ==> x in colorOf
    requires forall x :: x in b ==> x in colorOf
    ensures r.Some? ==> |stack| <= |r.value| && r.value[..|stack|] == stack
    decreases |a| - i
  {
    if i == |a| then Some(stack)
    else
      var x := a[i];
      var y := b[indexes[i]];
      if colorOf[x] != colorOf[y] then None
      else
        var next := if EquivalencesEq(e, x, y) then stack else stack + [Equivalence(x, y)];
        var r := ChildFrom(colorOf, next, indexes, e, a, b, i + 1);
        assert r.Some? ==> r.value[..|stack|] == stack by {
          if r.Some? { assert r.value[..|next|][..|stack|] == stack; }
        }
        r
  }

  function ChildEnvironment(colorOf: map<nat, nat>, stack: seq<Item>, indexes: seq<nat>, e: UnionFinds.UnionFind,
                            a: seq<nat>, b: seq<nat>): Option<seq<Item>>
    requires WellIndexed(a, b, indexes)
    requires forall x :: x in a ==> x in colorOf
    requires forall x :: x in b ==> x in colorOf
  {
    ChildFrom(colorOf, stack, indexes, e, a, b, 0)
  }

  /** A goal the environment pushes is a candidate pair not yet known
    * equivalent. */
  predicate Pending(e: UnionFinds.UnionFind, a: seq<nat>, b: seq<nat>, indexes: seq<nat>, it: Item)
    requires WellIndexed(a, b, indexes)
  {
    exists i :: 0 <= i < |a| && it == Equivalence(a[i], b[indexes[i]]) && !EquivalencesEq(e, a[i], b[indexes[i]])
  }

  lemma {:induction false} ChildFromMeaning(colorOf: map<nat, nat>, stack: seq<Item>, indexes: seq<nat>, e: UnionFinds.UnionFind,
                                            a: seq<nat>, b: seq<nat>, i: nat)
    requires WellIndexed(a, b, indexes) && i <= |a|
    requires forall x :: x in a ==> x in colorOf
    requires forall x :: x in b ==> x in colorOf
    ensures ChildFrom(colorOf, stack, indexes, e, a, b, i).None? <==>
      exists j :: i <= j < |a| && colorOf[a[j]] != colorOf[b[indexes[j]]]
    ensures ChildFrom(colorOf, stack, indexes, e, a, b, i).Some? ==>
      var r := ChildFrom(colorOf, stack, indexes, e, a, b, i).value;
      (forall k :: |stack| <= k < |r| ==> Pending(e, a, b, indexes, r[k]))
      && forall j :: i <= j < |a| && !EquivalencesEq(e, a[j], b[indexes[j]]) ==> Equivalence(a[j], b[indexes[j]]) in r
    decreases |a| - i
  {
    if i < |a| {
      var x := a[i];
      var y := b[indexes[i]];
      if colorOf[x] == colorOf[y] {
        var next := if EquivalencesEq(e, x, y) then stack else stack + [Equivalence(x, y)];
        ChildFromMeaning(colorOf, next, indexes, e, a, b, i + 1);
        var r := ChildFrom(colorOf, stack, indexes, e, a, b, i);
        if r.Some? {
          var rv := r.value;
          assert rv[..|next|] == next;
          forall k | |stack| <= k < |rv| ensures Pending(e, a, b, indexes, rv[k]) {
            if k < |next| {
              assert rv[k] == next[k] == Equivalence(x, y);
            }
          }
          if !EquivalencesEq(e, x, y) {
            assert rv[|stack|] == next[|stack|];
          }
        }
      }
    }
  }

  /** `child_environment` discards the candidate exactly when a pair of
    * blank nodes has different colours; otherwise it keeps the stack and
    * adds a goal for exactly the pairs not yet known equivalent. */
  lemma ChildEnvironmentMeaning(colorOf: map<nat, nat>, stack: seq<Item>, indexes: seq<nat>, e: UnionFinds.UnionFind,
                                a: seq<nat>, b: seq<nat>)
    requires WellIndexed(a, b, indexes)
    requires forall x :: x in a ==> x in colorOf
    requires forall x :: x in b ==> x in colorOf
    ensures ChildEnvironment(colorOf, stack, indexes, e, a, b).None? <==> ColorClash(colorOf, a, b, indexes)
    ensures ChildEnvironment(colorOf, stack, indexes, e, a, b).Some? ==>
      var r := ChildEnvironment(colorOf, stack, indexes, e, a, b).value;
      r[..|stack|] == stack
      && (forall k :: |stack| <= k < |r| ==> Pending(e, a, b, indexes, r[k]))
      && forall j :: 0 <= j < |a| && !EquivalencesEq(e, a[j], b[indexes[j]]) ==> Equivalence(a[j], b[indexes[j]]) in r
  {
    ChildFromMeaning(colorOf, stack, indexes, e, a, b, 0);
  }

  // The odometer.

  /** `incr`: adds one to the last digit, carrying into the previous ones;
    * false when every digit wrapped around to 0. */
  function Incr(digits: seq<nat>, base: nat): (r: (seq<nat>, bool))
    ensures |r.0| == |digits|
    decreases |digits|
  {
    if |digits| == 0 then ([], false)
    else
      var n := |digits| - 1;
      if digits[n] + 1 == base then
        var carried := Incr(digits[..n], base);
        (carried.0 + [0], carried.1)
      else (digits[..n] + [digits[n] + 1], true)
  }

  /** The number the digits write in `base`, most significant first. */
  function Value(digits: seq<nat>, base: nat): nat
    decreases |digits|
  {
    if |digits| == 0 then 0 else Value(digits[..|digits| - 1], base) * base + digits[|digits| - 1]
  }

  function Pow(base: nat, n: nat): nat {
    if n == 0 then 1 else base * Pow(base, n - 1)
  }

  /** Digits of a base. */
  predicate Digits(digits: seq<nat>, base: nat) {
    forall i :: 0 <= i < |digits| ==> digits[i] < base
  }

  /** The odometer keeps digits of the base, and goes on exactly when
    * some digit is below its maximum; when it stops every digit has
    * wrapped to 0. */
  lemma {:induction false} IncrMeaning(digits: seq<nat>, base: nat)
    requires Digits(digits, base)
    ensures Digits(Incr(digits, base).0, base)
    ensures Incr(digits, base).1 <==> exists i :: 0 <= i < |digits| && digits[i] != base - 1
    ensures !Incr(digits, base).1 ==> forall i :: 0 <= i < |digits| ==> Incr(digits, base).0[i] == 0
    decreases |digits|
  {
    if |digits| > 0 {
      var n := |digits| - 1;
      var init := digits[..n];
      var r := Incr(digits, base);
      if digits[n] + 1 == base {
        IncrMeaning(init, base);
        var carried := Incr(init, base);
        assert r.0 == carried.0 + [0];
        if carried.1 {
          var i :| 0 <= i < |init| && init[i] != base - 1;
          assert digits[i] == init[i];
        } else {
          forall i | 0 <= i < |digits| ensures digits[i] == base - 1 {
            if i < n { assert digits[i] == init[i]; }
          }
          forall i | 0 <= i < |digits| ensures r.0[i] == 0 {
            if i < n { assert r.0[i] == carried.0[i]; }
          }
        }
      } else {
        assert r.0 == init + [digits[n] + 1];
        assert digits[n] != base - 1;
      }
    }
  }

  /** The odometer adds one to the number the digits write; when it stops,
    * the digits wrote the largest number of their length. */
  lemma {:induction false} IncrValue(digits: seq<nat>, base: nat)
    requires Digits(digits, base)
    ensures Incr(digits, base).1 ==> Value(Incr(digits, base).0, base) == Value(digits, base) + 1
    ensures !Incr(digits, base).1 ==> Value(digits, base) + 1 == Pow(base, |digits|)
    decreases |digits|
  {
    if |digits| > 0 {
      var n := |digits| - 1;
      var init := digits[..n];
      var r := Incr(digits, base);
      if digits[n] + 1 == base {
        IncrValue(init, base);
        var carried := Incr(init, base);
        assert r.0 == carried.0 + [0];
        assert r.0[..n] == carried.0;
        assert Value(r.0, base) == Value(carried.0, base) * base;
        assert Value(digits, base) == Value(init, base) * base + base - 1;
        if carried.1 {
          assert Value(carried.0, base) * base == (Value(init, base) + 1) * base;
        } else {
          assert Pow(base, |digits|) == base * Pow(base, n);
          assert (Value(init, base) + 1) * base == Pow(base, n) * base;
        }
      } else {
        assert r.0 == init + [digits[n] + 1];
        assert r.0[..n] == init;
      }
    }
  }
}
