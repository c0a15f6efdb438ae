/**
 * Hydration (`layouts/src/distill/hy/mod.rs`, and the older
 * `layouts/src/distill/hy.rs`): reading a tree value back from an RDF
 * dataset through a layout.  Pattern matching against the dataset is
 * reduced to the list of substitutions it yields; what the model keeps is
 * how a substitution is extended and read, how matches are required to be
 * unique, the checks that reject a dataset, and the walk along an ordered
 * list's nodes.
 */
module Hydrate {
  import opened Wrappers
  import Dehydrate

  /** Which part of the layout the dataset failed to provide (the older
    * crate's errors carry no fragment: `Unspecified`). */
  datatype Fragment = Unspecified | Discriminant | Key(key: string) | OrderedListNode | SizedListItem(index: nat)

  datatype Error =
    | IncompatibleLayout
    | InvalidInputCount(expected: nat, found: nat)
    | DataAmbiguity(fragment: Fragment)
    | MissingData(fragment: Fragment)
    | LayoutNotFound
    | CyclicList

  /** The two ways matching a pattern dataset can fail to give one answer. */
  datatype MatchError = Ambiguity | Empty

  /** At most one substitution: none is fine, a second one is an ambiguity. */
  function IntoOptional<S>(matches: seq<S>): (r: Result<Option<S>, MatchError>)
    ensures r == Success(None) <==> |matches| == 0
    ensures r.Success? && r.value.Some? <==> |matches| == 1
    ensures r.Success? && r.value.Some? ==> r.value.value == matches[0]
    ensures r == Failure(Ambiguity) <==> |matches| >= 2
  {
    if |matches| == 0 then Success(None)
    else if |matches| >= 2 then Failure(Ambiguity)
    else Success(Some(matches[0]))
  }

  /** Exactly one substitution; none is `Empty`. */
  function IntoRequired<S>(matches: seq<S>): (r: Result<S, MatchError>)
    ensures r.Success? <==> |matches| == 1
    ensures r.Success? ==> r.value == matches[0]
    ensures r == Failure(Empty) <==> |matches| == 0
    ensures r == Failure(Ambiguity) <==> |matches| >= 2
  {
    match IntoOptional(matches)
    case Failure(e) => Failure(e)
    case Success(None) => Failure(Empty)
    case Success(Some(s)) => Success(s)
  }

  /** A matching error, reported against the fragment being read. */
  function FromMatchingError(e: MatchError, f: Fragment): (r: Error)
    ensures r.DataAmbiguity? <==> e == Ambiguity
    ensures r.MissingData? <==> e == Empty
    ensures (r.DataAmbiguity? || r.MissingData?) && r.fragment == f
  {
    match e
    case Ambiguity => DataAmbiguity(f)
    case Empty => MissingData(f)
  }

  /** A substitution: variable `i` is bound to `s[i]`, or still unknown. */
  type Substitution<R> = seq<Option<R>>

  /** The substitution a layout starts from: its inputs, all bound. */
  function FromInputs<R(==)>(inputs: seq<R>): (r: Substitution<R>)
    ensures |r| == |inputs|
    ensures forall i :: 0 <= i < |inputs| ==> r[i] == Some(inputs[i])
  {
    if inputs == [] then [] else [Some(inputs[0])] + FromInputs(inputs[1..])
  }

  /** Introduces `n` unknown variables; the first of them is the returned
    * index. */
  function IntroVars<R(==)>(s: Substitution<R>, n: nat): (r: (Substitution<R>, nat))
    ensures |r.0| == |s| + n && r.1 == |s|
    ensures r.0[..|s|] == s
    ensures forall i :: |s| <= i < |r.0| ==> r.0[i].None?
    decreases n
  {
    if n == 0 then (s, |s|)
    else
      var (t, _) := IntroVars(s + [None], n - 1);
      assert t[..|s| + 1][..|s|] == t[..|s|];
      (t, |s|)
  }

  /** A pattern the substitution can turn into a resource. */
  predicate Bound<R(==)>(s: Substitution<R>, p: Dehydrate.Pattern<R>) {
    p.Var? ==> p.x < |s| && s[p.x].Some?
  }

  function Apply<R(==)>(s: Substitution<R>, p: Dehydrate.Pattern<R>): (r: R)
    requires Bound(s, p)
    ensures p.Resource? ==> r == p.r
    ensures p.Var? ==> Some(r) == s[p.x]
  {
    match p
    case Var(x) => s[x].value
    case Resource(v) => v
  }

  /** The inputs of a sub-layout, one per input pattern and in order; every
    * pattern must be bound (the source unwraps). */
  function SelectInputs<R(==)>(ps: seq<Dehydrate.Pattern<R>>, s: Substitution<R>): (r: seq<R>)
    requires forall i :: 0 <= i < |ps| ==> Bound(s, ps[i])
    ensures |r| == |ps|
    ensures forall i :: 0 <= i < |ps| ==> r[i] == Apply(s, ps[i])
  {
    if ps == [] then []
    else
      assert forall i :: 1 <= i < |ps| ==> ps[1..][i - 1] == ps[i];
      [Apply(s, ps[0])] + SelectInputs(ps[1..], s)
  }

  /** The graph a sub-layout is read from: the current one when the format
    * names none, no graph for an explicit default graph, the substituted
    * pattern otherwise. */
  function SelectGraph<R(==)>(current: Option<R>, graph: Option<Option<Dehydrate.Pattern<R>>>, s: Substitution<R>): (r: Option<R>)
    requires graph.Some? && graph.value.Some? ==> Bound(s, graph.value.value)
    ensures graph.None? ==> r == current
    ensures graph == Some(None) ==> r.None?
    ensures graph.Some? && graph.value.Some? ==> r == Some(Apply(s, graph.value.value))
  {
    match graph
    case Some(g) => (match g case Some(p) => Some(Apply(s, p)) case None => None)
    case None => current
  }

  /** A substitution that binds every variable of the environment to its
    * resource, as matching does for the variables dehydration bound. */
  predicate Agrees<R(==)>(s: Substitution<R>, env: Dehydrate.Environment<R>) {
    |s| == |Dehydrate.Resources(env)|
    && forall i :: 0 <= i < |s| ==> s[i] == Some(Dehydrate.Resources(env)[i])
  }

  /** Reading inputs back from a substitution that agrees with the
    * environment gives exactly what dehydration instantiated. */
  lemma {:induction false} SelectInputsAgrees<R>(ps: seq<Dehydrate.Pattern<R>>, s: Substitution<R>, env: Dehydrate.Environment<R>)
    requires Agrees(s, env)
    requires forall i :: 0 <= i < |ps| ==> ps[i].Var? ==> ps[i].x < |s|
    ensures forall i :: 0 <= i < |ps| ==> Bound(s, ps[i])
    ensures forall i :: 0 <= i < |ps| ==>
      Dehydrate.InstantiatePattern(env, ps[i]) == Success(SelectInputs(ps, s)[i])
  {
    assert forall i :: 0 <= i < |ps| ==> Bound(s, ps[i]) by {
      forall i | 0 <= i < |ps| ensures Bound(s, ps[i]) {
        if ps[i].Var? {
          assert s[ps[i].x] == Some(Dehydrate.Resources(env)[ps[i].x]);
        }
      }
    }
    forall i | 0 <= i < |ps|
      ensures Dehydrate.InstantiatePattern(env, ps[i]) == Success(SelectInputs(ps, s)[i])
    {
      if ps[i].Var? {
        assert s[ps[i].x] == Some(Dehydrate.Resources(env)[ps[i].x]);
      }
    }
  }

  /** The same for the graph of a sub-layout. */
  lemma SelectGraphAgrees<R>(current: Option<R>, graph: Option<Option<Dehydrate.Pattern<R>>>, s: Substitution<R>, env: Dehydrate.Environment<R>)
    requires Agrees(s, env)
    requires graph.Some? && graph.value.Some? && graph.value.value.Var? ==> graph.value.value.x < |s|
    ensures graph.Some? && graph.value.Some? ==> Bound(s, graph.value.value)
    ensures Dehydrate.SubGraph(env, current, graph) == Success(SelectGraph(current, graph, s))
  {
    if graph.Some? && graph.value.Some? && graph.value.value.Var? {
      var x := graph.value.value.x;
      assert s[x] == Some(Dehydrate.Resources(env)[x]);
    }
  }

  /** Both directions start from the inputs. */
  lemma FromInputsAgrees<R>(inputs: seq<R>)
    ensures Agrees(FromInputs(inputs), Dehydrate.Root(inputs))
  {
  }

  /** The substitution for ordered-list node matching: the list's own
    * substitution, the node's head, then unknowns for the rest and the
    * node's introduced variables; the index of the rest comes back. */
  function NodeSubstitution<R(==)>(s: Substitution<R>, head: R, intro: nat): (r: (Substitution<R>, nat))
    ensures |r.0| == |s| + 2 + intro
    ensures r.0[..|s|] == s && r.0[|s|] == Some(head)
    ensures r.1 == |s| + 1
  {
    var (t, rest) := IntroVars(s + [Some(head)], 1 + intro);
    assert t[..|s| + 1][..|s|] == t[..|s|];
    (t, rest)
  }

  /** Hydration reads an ordered-list node's head and rest at the same
    * variables dehydration bound them to. */
  lemma {:induction false} NodeVariablesAgree<R>(s: Substitution<R>, env: Dehydrate.Environment<R>, head: R, rest: R, intros: seq<R>)
    requires Agrees(s, env)
    ensures var (t, restIndex) := NodeSubstitution(s, head, |intros|);
      var nodeEnv := Dehydrate.NodeEnvironment(env, head, rest, intros);
      Dehydrate.Get(nodeEnv, |s|) == Success(head) && t[|s|] == Some(head)
      && Dehydrate.Get(nodeEnv, restIndex) == Success(rest)
      && |t| == |Dehydrate.Resources(nodeEnv)|
  {
    var nodeEnv := Dehydrate.NodeEnvironment(env, head, rest, intros);
    assert Dehydrate.Resources(nodeEnv) == Dehydrate.Resources(env) + [head, rest] + intros;
  }

  /** Looking up the layout and checking the number of inputs, as in
    * dehydration. */
  function CheckLayout(layout: Option<Option<nat>>, found: nat): (r: Option<Error>)
    ensures r.None? <==> layout.Some? && (layout.value.Some? ==> layout.value.value == found)
    ensures r == Some(LayoutNotFound) <==> layout.None?
    ensures r.Some? && layout.Some? ==> r.value == InvalidInputCount(layout.value.value, found)
  {
    match layout
    case None => Some(LayoutNotFound)
    case Some(count) =>
      if count.Some? && count.value != found then Some(InvalidInputCount(count.value, found)) else None
  }

  /** Hydration and dehydration accept the same layouts and input counts. */
  lemma CheckLayoutAgrees(layout: Option<Option<nat>>, found: nat)
    ensures CheckLayout(layout, found).None? <==> Dehydrate.CheckLayout(layout, found).None?
  {
  }

  /** The value of a `Never` or `Always` layout: `Never` has none, `Always`
    * has the unit value. */
  datatype Unit = Unit

  function HydrateConstant(c: Dehydrate.Constant): (r: Result<Unit, Error>)
    ensures r.Success? <==> c == Dehydrate.Always
    ensures r.Failure? ==> r.error == IncompatibleLayout
  {
    match c
    case Never => Failure(IncompatibleLayout)
    case Always => Success(Unit)
  }

  /** Both directions reject `Never` and accept `Always`. */
  lemma ConstantAgrees(c: Dehydrate.Constant)
    ensures HydrateConstant(c).Success? <==> Dehydrate.DehydrateConstant(c).None?
  {
  }

  /** Names of a product layout's fields, distinct as map keys are. */
  predicate DistinctNames(fields: seq<Dehydrate.Field>) {
    forall i, j :: 0 <= i < j < |fields| ==> fields[i].name != fields[j].name
  }

  /** Reading a record through a product layout, field by field in name
    * order.  `found(key)` is what reading the field gives: a failure (an
    * ambiguous match, or the field's value failing to hydrate), no match,
    * or the field's value.  A required field with no match is missing
    * data. */
  function HydrateRecord<V>(fields: seq<Dehydrate.Field>, found: string -> Result<Option<V>, Error>): (r: Result<map<string, V>, Error>)
    requires DistinctNames(fields)
    ensures r.Success? <==> forall i :: 0 <= i < |fields| ==>
      found(fields[i].name).Success? && (fields[i].required ==> found(fields[i].name).value.Some?)
    ensures r.Success? ==> forall i :: 0 <= i < |fields| ==>
      (fields[i].name in r.value <==> found(fields[i].name).value.Some?)
    ensures r.Success? ==> forall i :: 0 <= i < |fields| && fields[i].name in r.value ==>
      r.value[fields[i].name] == found(fields[i].name).value.value
    ensures r.Success? ==> forall k :: k in r.value ==> Dehydrate.HasField(fields, k)
    decreases |fields|
  {
    if fields == [] then Success(map[])
    else
      var f := fields[0];
      assert forall i :: 1 <= i < |fields| ==> fields[1..][i - 1] == fields[i];
      match found(f.name)
      case Failure(e) => Failure(e)
      case Success(None) =>
        if f.required then Failure(MissingData(Key(f.name))) else HydrateRecord(fields[1..], found)
      case Success(Some(v)) =>
        match HydrateRecord(fields[1..], found)
        case Failure(e) => Failure(e)
        case Success(m) => Success(m[f.name := v])
  }

  /** A field is read: its lookup succeeds, with a match when required. */
  predicate FieldReads<V>(f: Dehydrate.Field, found: string -> Result<Option<V>, Error>) {
    found(f.name).Success? && (f.required ==> found(f.name).value.Some?)
  }

  /** A field fails with `e`: its own lookup error, or missing data when it
    * is required and has no match. */
  predicate FieldFails<V>(f: Dehydrate.Field, found: string -> Result<Option<V>, Error>, e: Error) {
    found(f.name) == Failure(e) || (found(f.name) == Success(None) && f.required && e == MissingData(Key(f.name)))
  }

  /** A failure is the first field that fails to read. */
  lemma {:induction false} HydrateRecordFailure<V>(fields: seq<Dehydrate.Field>, found: string -> Result<Option<V>, Error>)
    requires DistinctNames(fields)
    requires HydrateRecord(fields, found).Failure?
    ensures exists i :: (0 <= i < |fields|
      && (forall j :: 0 <= j < i ==> FieldReads(fields[j], found))
      && FieldFails(fields[i], found, HydrateRecord(fields, found).error))
    decreases |fields|
  {
    var e := HydrateRecord(fields, found).error;
    if !FieldReads(fields[0], found) {
      assert FieldFails(fields[0], found, e);
    } else {
      var tail := fields[1..];
      assert HydrateRecord(tail, found) == Failure(e);
      HydrateRecordFailure(tail, found);
      var i :| 0 <= i < |tail| && (forall j :: 0 <= j < i ==> FieldReads(tail[j], found)) && FieldFails(tail[i], found, e);
      assert forall j :: 1 <= j < i + 1 ==> fields[j] == tail[j - 1];
      assert fields[i + 1] == tail[i];
      assert forall j :: 0 <= j < i + 1 ==> FieldReads(fields[j], found);
    }
  }

  /** A required field the dataset does not provide, with every earlier
    * field read, is reported as missing data for its key. */
  lemma {:induction false} RequiredFieldMissing<V>(fields: seq<Dehydrate.Field>, found: string -> Result<Option<V>, Error>, n: nat)
    requires DistinctNames(fields)
    requires n < |fields| && fields[n].required && found(fields[n].name) == Success(None)
    requires forall j :: 0 <= j < n ==> found(fields[j].name).Success? && (fields[j].required ==> found(fields[j].name).value.Some?)
    ensures HydrateRecord(fields, found) == Failure(MissingData(Key(fields[n].name)))
    decreases n
  {
    if n > 0 {
      var tail := fields[1..];
      assert forall j :: 0 <= j < n - 1 ==> tail[j] == fields[j + 1];
      assert tail[n - 1] == fields[n];
      RequiredFieldMissing(tail, found, n - 1);
    }
  }

  /** Values of an unordered list are compared through their rank in the
    * values' total order. */
  predicate Sorted(xs: seq<int>) {
    forall i, j :: 0 <= i < j < |xs| ==> xs[i] <= xs[j]
  }

  function Insert(x: int, xs: seq<int>): (r: seq<int>)
    requires Sorted(xs)
    ensures Sorted(r)
    ensures multiset(r) == multiset(xs) + multiset{x}
    ensures |r| == |xs| + 1
  {
    if xs == [] || x <= xs[0] then [x] + xs
    else
      var rest := Insert(x, xs[1..]);
      InsertStep(x, xs, rest);
      [xs[0]] + rest
  }

  /** Putting back the head of a sorted list in front of the insertion
    * into its tail gives a sorted permutation. */
  lemma InsertStep(x: int, xs: seq<int>, rest: seq<int>)
    requires Sorted(xs) && xs != [] && xs[0] < x
    requires multiset(rest) == multiset(xs[1..]) + multiset{x}
    requires Sorted(rest)
    ensures Sorted([xs[0]] + rest)
    ensures multiset([xs[0]] + rest) == multiset(xs) + multiset{x}
  {
    assert xs == [xs[0]] + xs[1..];
    BelowAll(xs[0], x, xs[1..], rest);
    ConsSorted(xs[0], rest);
  }

  /** An item no greater than any item of a sorted list extends it sorted. */
  lemma ConsSorted(h: int, rest: seq<int>)
    requires Sorted(rest) && forall k :: 0 <= k < |rest| ==> h <= rest[k]
    ensures Sorted([h] + rest)
  {
  }

  /** A lower bound of `x` and of every item of `xs` bounds every item of a
    * permutation of both. */
  lemma BelowAll(lo: int, x: int, xs: seq<int>, rest: seq<int>)
    requires lo <= x && forall k :: 0 <= k < |xs| ==> lo <= xs[k]
    requires multiset(rest) == multiset(xs) + multiset{x}
    ensures forall k :: 0 <= k < |rest| ==> lo <= rest[k]
  {
    forall k | 0 <= k < |rest| ensures lo <= rest[k] {
      assert rest[k] in multiset(rest);
      assert rest[k] == x || rest[k] in xs;
    }
  }

  /** The items of an unordered list, hydrated in matching order, are
    * returned sorted: a sorted permutation of what matching produced. */
  function SortItems(items: seq<int>): (r: seq<int>)
    ensures Sorted(r)
    ensures multiset(r) == multiset(items)
    decreases |items|
  {
    if items == [] then []
    else
      assert items == [items[0]] + items[1..];
      Insert(items[0], SortItems(items[1..]))
  }

  /** A sorted list has one sorted order: sorting is insensitive to the
    * order matching produced the items in. */
  /** Two sorted orders of the same items start with the same item. */
  lemma SortedSameHead(a: seq<int>, b: seq<int>)
    requires Sorted(a) && Sorted(b) && multiset(a) == multiset(b) && a != []
    ensures b != [] && a[0] == b[0]
  {
    assert a[0] in multiset(b);
    assert b != [] && b[0] in multiset(a);
    assert a[0] in b && b[0] in a;
  }

  /** A sorted list has one sorted order: sorting is insensitive to the
    * order matching produced the items in. */
  lemma {:induction false} SortedUnique(a: seq<int>, b: seq<int>)
    requires Sorted(a) && Sorted(b) && multiset(a) == multiset(b)
    ensures a == b
    decreases |a|
  {
    if a == [] {
      assert |b| == |multiset(b)| == 0;
    } else {
      SortedSameHead(a, b);
      assert a == [a[0]] + a[1..];
      assert b == [b[0]] + b[1..];
      assert multiset(a) == multiset{a[0]} + multiset(a[1..]);
      assert multiset(b) == multiset{b[0]} + multiset(b[1..]);
      assert multiset(a[1..]) == multiset(a) - multiset{a[0]};
      assert multiset(b[1..]) == multiset(b) - multiset{b[0]};
      SortedUnique(a[1..], b[1..]);
    }
  }

  lemma SortPermutationInvariant(a: seq<int>, b: seq<int>)
    requires multiset(a) == multiset(b)
    ensures SortItems(a) == SortItems(b)
  {
    SortedUnique(SortItems(a), SortItems(b));
  }

  /** An ordered list's nodes as the dataset provides them: each head
    * resource with a node maps to the node's hydrated item and its rest. */
  type Nodes<V, R> = map<R, (V, R)>

  /** The ordered-list walk as written: follow `rest` links from the head
    * until the tail is reached, one item per node.  Nothing stops a walk
    * that comes back to a node it has visited, so `fuel` bounds it; `None`
    * means the fuel ran out. */
  function WalkAsWritten<V, R(==)>(nodes: Nodes<V, R>, head: R, tail: R, fuel: nat): (r: Option<Result<seq<V>, Error>>)
    ensures r.Some? && r.value.Success? && head != tail ==> head in nodes && |r.value.value| >= 1
    ensures r.Some? && r.value.Success? && head != tail ==> r.value.value[0] == nodes[head].0
    decreases fuel
  {
    if head == tail then Some(Success([]))
    else if fuel == 0 then None
    else if head !in nodes then Some(Failure(MissingData(OrderedListNode)))
    else
      match WalkAsWritten(nodes, nodes[head].1, tail, fuel - 1)
      case None => None
      case Some(Failure(e)) => Some(Failure(e))
      case Some(Success(items)) => Some(Success([nodes[head].0] + items))
  }

  /** A node whose rest is itself, short of the tail, keeps the walk going
    * for ever: no amount of fuel is enough. */
  lemma {:induction false} SelfLoopNeverEnds<V, R>(nodes: Nodes<V, R>, a: R, tail: R, fuel: nat)
    requires a != tail && a in nodes && nodes[a].1 == a
    ensures WalkAsWritten(nodes, a, tail, fuel) == None
    decreases fuel
  {
    if fuel > 0 {
      SelfLoopNeverEnds(nodes, a, tail, fuel - 1);
    }
  }

  /** The walk with the visited nodes remembered: coming back to a node is a
    * cyclic list.  It always terminates, since each step visits a new node
    * of the finite dataset. */
  function Walk<V, R(==)>(nodes: Nodes<V, R>, head: R, tail: R, visited: set<R>): (r: Result<seq<V>, Error>)
    ensures r.Success? && head != tail ==> head in nodes && head !in visited && |r.value| >= 1
    ensures r.Success? && head != tail ==> r.value[0] == nodes[head].0
    decreases nodes.Keys - visited
  {
    if head == tail then Success([])
    else if head !in nodes then Failure(MissingData(OrderedListNode))
    else if head in visited then Failure(CyclicList)
    else
      match Walk(nodes, nodes[head].1, tail, visited + {head})
      case Failure(e) => Failure(e)
      case Success(items) => Success([nodes[head].0] + items)
  }

  /** The self-looping node is reported as a cyclic list. */
  lemma SelfLoopIsCyclic<V, R>(nodes: Nodes<V, R>, a: R, tail: R)
    requires a != tail && a in nodes && nodes[a].1 == a
    ensures Walk(nodes, a, tail, {}) == Failure(CyclicList)
  {
    assert Walk(nodes, a, tail, {a}) == Failure(CyclicList);
  }

  /** Wherever the walk as written ends without returning to a node, it ends
    * with what the corrected walk gives: the two differ only on cyclic
    * lists. */
  lemma {:induction false} WalkAgrees<V, R>(nodes: Nodes<V, R>, head: R, tail: R, visited: set<R>, fuel: nat)
    requires Walk(nodes, head, tail, visited) != Failure(CyclicList)
    requires fuel > |nodes.Keys - visited|
    ensures WalkAsWritten(nodes, head, tail, fuel) == Some(Walk(nodes, head, tail, visited))
    decreases fuel
  {
    if head != tail && head in nodes && head !in visited {
      var next := visited + {head};
      WalkStep(nodes, head, tail, visited);
      OneFewerUnvisited(nodes.Keys, visited, head);
      WalkAgrees(nodes, nodes[head].1, tail, next, fuel - 1);
      WalkAsWrittenStep(nodes, head, tail, visited, fuel);
    } else {
      WalkEnds(nodes, head, tail, visited, fuel);
    }
  }

  /** Where the corrected walk stops at once, short of a cycle, the walk as
    * written stops the same way. */
  lemma WalkEnds<V, R>(nodes: Nodes<V, R>, head: R, tail: R, visited: set<R>, fuel: nat)
    requires head == tail || head !in nodes || head in visited
    requires Walk(nodes, head, tail, visited) != Failure(CyclicList)
    requires fuel > 0
    ensures WalkAsWritten(nodes, head, tail, fuel) == Some(Walk(nodes, head, tail, visited))
  {
  }

  /** One step of the corrected walk from an unvisited node. */
  lemma WalkStep<V, R>(nodes: Nodes<V, R>, head: R, tail: R, visited: set<R>)
    requires head != tail && head in nodes && head !in visited
    ensures var w := Walk(nodes, nodes[head].1, tail, visited + {head});
      Walk(nodes, head, tail, visited) == if w.Failure? then w else Success([nodes[head].0] + w.value)
  {
  }

  /** When the rest of the walk as written agrees with the corrected walk,
    * so does the walk from the node before it. */
  lemma WalkAsWrittenStep<V, R>(nodes: Nodes<V, R>, head: R, tail: R, visited: set<R>, fuel: nat)
    requires head != tail && head in nodes && head !in visited && fuel > 0
    requires WalkAsWritten(nodes, nodes[head].1, tail, fuel - 1) == Some(Walk(nodes, nodes[head].1, tail, visited + {head}))
    ensures WalkAsWritten(nodes, head, tail, fuel) == Some(Walk(nodes, head, tail, visited))
  {
    WalkStep(nodes, head, tail, visited);
  }

  /** Visiting a new node leaves one fewer unvisited. */
  lemma OneFewerUnvisited<R>(keys: set<R>, visited: set<R>, head: R)
    requires head in keys && head !in visited
    ensures |keys - (visited + {head})| == |keys - visited| - 1
  {
    assert keys - (visited + {head}) == (keys - visited) - {head};
  }

  /** The nodes dehydration writes for an ordered list, as the dataset then
    * provides them: node `i` is keyed by its head. */
  ghost predicate Chain<V, R>(nodes: Nodes<V, R>, items: seq<V>, heads: seq<R>, tail: R) {
    |heads| == |items|
    && (forall i :: 0 <= i < |heads| ==> heads[i] in nodes && nodes[heads[i]].0 == items[i])
    && (forall i :: 0 <= i < |heads| - 1 ==> nodes[heads[i]].1 == heads[i + 1])
    && (|heads| > 0 ==> nodes[heads[|heads| - 1]].1 == tail)
    && (forall i, j :: 0 <= i < j < |heads| ==> heads[i] != heads[j])
    && (forall i :: 0 <= i < |heads| ==> heads[i] != tail)
  }

  /** Hydrating the chain of nodes dehydration wrote gives back the items,
    * in order, when the node heads are distinct and differ from the tail. */
  lemma {:induction false} ChainRoundTrip<V, R>(nodes: Nodes<V, R>, items: seq<V>, heads: seq<R>, tail: R, visited: set<R>)
    requires Chain(nodes, items, heads, tail)
    requires forall i :: 0 <= i < |heads| ==> heads[i] !in visited
    ensures Walk(nodes, if heads == [] then tail else heads[0], tail, visited) == Success(items)
    decreases |heads|
  {
    if heads != [] {
      var rest := heads[1..];
      var restItems := items[1..];
      assert Chain(nodes, restItems, rest, tail) by {
        assert forall i :: 0 <= i < |rest| ==> rest[i] == heads[i + 1];
      }
      var next := visited + {heads[0]};
      assert forall i :: 0 <= i < |rest| ==> rest[i] !in next by {
        forall i | 0 <= i < |rest| ensures rest[i] !in next {
          assert rest[i] == heads[i + 1];
        }
      }
      ChainRoundTrip(nodes, restItems, rest, tail, next);
      assert nodes[heads[0]].1 == (if rest == [] then tail else rest[0]);
      assert items == [items[0]] + restItems;
    }
  }
}
