/**
 * Dehydration (`layouts/src/distill/de/mod.rs`, and the older
 * `layouts/src/distill/de.rs`): writing a tree value as RDF quads through a
 * layout.  The model keeps the bookkeeping the crate does around the
 * recursion: the environment of resources that variables index, pattern
 * instantiation, the checks that reject a value, and how an ordered list
 * is chained into nodes.  Fresh resources handed out by the RDF
 * interpretation are parameters.
 */
module Dehydrate {
  import opened Wrappers

  datatype Error =
    | IncompatibleLayout
    | InvalidInputCount(expected: nat, found: nat)
    | UndeclaredVariable(x: nat)
    | DataAmbiguity
    | LayoutNotFound
    | MissingRequiredField(fieldName: string)

  /** A pattern: a variable (an index into the environment) or a resource. */
  datatype Pattern<R> = Var(x: nat) | Resource(r: R)

  /** An RDF quad over patterns or resources (subject, predicate, object,
    * optional graph). */
  datatype Quad<T> = Quad(subject: T, property: T, target: T, graph: Option<T>)

  /** The resources variables refer to: the inputs, then the resources each
    * nested scope introduced. */
  datatype Environment<R> = Root(inputs: seq<R>) | Child(parent: Environment<R>, resources: seq<R>)

  /** Everything in scope, outermost first: variable `i` is entry `i`. */
  function Resources<R>(env: Environment<R>): seq<R> {
    match env
    case Root(inputs) => inputs
    case Child(parent, resources) => Resources(parent) + resources
  }

  /** Looks up variable `i`; on failure, reports how far past the end of the
    * environment `i` lies. */
  function Get<R>(env: Environment<R>, i: nat): (r: Result<R, nat>)
    ensures i < |Resources(env)| ==> r == Success(Resources(env)[i])
    ensures i >= |Resources(env)| ==> r == Failure(i - |Resources(env)|)
  {
    match env
    case Root(inputs) =>
      if i < |inputs| then Success(inputs[i]) else Failure(i - |inputs|)
    case Child(parent, resources) =>
      match Get(parent, i)
      case Success(r) => Success(r)
      case Failure(j) =>
        if j < |resources| then Success(resources[j]) else Failure(j - |resources|)
  }

  /** Binds the two given resources as the next two variables. */
  function Bind<R>(env: Environment<R>, first: R, second: R): (r: Environment<R>)
    ensures Resources(r) == Resources(env) + [first, second]
  {
    Child(env, [first, second])
  }

  /** Introduces the fresh resources the interpretation generated as the
    * next variables, in order. */
  function Intro<R>(env: Environment<R>, links: seq<R>): (r: Environment<R>)
    ensures Resources(r) == Resources(env) + links
  {
    Child(env, links)
  }

  /** A variable becomes the resource it is bound to; an unbound one is an
    * undeclared variable. */
  function InstantiatePattern<R>(env: Environment<R>, p: Pattern<R>): (r: Result<R, Error>)
    ensures r.Success? <==> p.Resource? || p.x < |Resources(env)|
    ensures p.Resource? ==> r == Success(p.r)
    ensures p.Var? && r.Success? ==> r.value == Resources(env)[p.x]
    ensures r.Failure? ==> r.error == UndeclaredVariable(p.x)
  {
    match p
    case Var(x) =>
      (match Get(env, x)
       case Success(v) => Success(v)
       case Failure(_) => Failure(UndeclaredVariable(x)))
    case Resource(v) => Success(v)
  }

  /** Instantiates each pattern in order, stopping at the first failure. */
  method InstantiatePatterns<R>(env: Environment<R>, ps: seq<Pattern<R>>) returns (r: Result<seq<R>, Error>)
    ensures r.Success? <==> forall i :: 0 <= i < |ps| ==> InstantiatePattern(env, ps[i]).Success?
    ensures r.Success? ==> |r.value| == |ps|
    ensures r.Success? ==> forall i :: 0 <= i < |ps| ==> r.value[i] == InstantiatePattern(env, ps[i]).value
    ensures r.Failure? ==> exists i :: 0 <= i < |ps| && InstantiatePattern(env, ps[i]) == Failure(r.error)
                                       && forall j :: 0 <= j < i ==> InstantiatePattern(env, ps[j]).Success?
  {
    var result: seq<R> := [];
    var k := 0;
    while k < |ps|
      invariant 0 <= k <= |ps|
      invariant |result| == k
      invariant forall i :: 0 <= i < k ==> InstantiatePattern(env, ps[i]).Success?
      invariant forall i :: 0 <= i < k ==> result[i] == InstantiatePattern(env, ps[i]).value
    {
      var x := InstantiatePattern(env, ps[k]);
      if x.Failure? {
        return Failure(x.error);
      }
      result := result + [x.value];
      k := k + 1;
    }
    return Success(result);
  }

  /** Instantiates subject, predicate, object and graph, in that order. */
  function InstantiateQuad<R>(env: Environment<R>, q: Quad<Pattern<R>>): (r: Result<Quad<R>, Error>)
    ensures r.Success? <==>
      (InstantiatePattern(env, q.subject).Success? && InstantiatePattern(env, q.property).Success?
       && InstantiatePattern(env, q.target).Success?
       && (q.graph.Some? ==> InstantiatePattern(env, q.graph.value).Success?))
    ensures r.Success? ==>
      r.value.subject == InstantiatePattern(env, q.subject).value
      && r.value.property == InstantiatePattern(env, q.property).value
      && r.value.target == InstantiatePattern(env, q.target).value
      && r.value.graph.Some? == q.graph.Some?
      && (q.graph.Some? ==> r.value.graph.value == InstantiatePattern(env, q.graph.value).value)
  {
    var s :- InstantiatePattern(env, q.subject);
    var p :- InstantiatePattern(env, q.property);
    var o :- InstantiatePattern(env, q.target);
    match q.graph
    case None => Success(Quad(s, p, o, None))
    case Some(g) =>
      var gr :- InstantiatePattern(env, g);
      Success(Quad(s, p, o, Some(gr)))
  }

  /** The graph a sub-value is written into: the enclosing graph when the
    * format names none, no graph for an explicit default graph, and the
    * instantiated pattern otherwise. */
  function SubGraph<R>(env: Environment<R>, current: Option<R>, graph: Option<Option<Pattern<R>>>): (r: Result<Option<R>, Error>)
    ensures graph.None? ==> r == Success(current)
    ensures graph == Some(None) ==> r == Success(None)
    ensures graph.Some? && graph.value.Some? ==>
      r == InstantiatePattern(env, graph.value.value).Map((v: R) => Some(v))
  {
    match graph
    case Some(None) => Success(None)
    case Some(Some(g)) =>
      var v :- InstantiatePattern(env, g);
      Success(Some(v))
    case None => Success(current)
  }

  /** Looking up the layout and checking the number of inputs, before any
    * dehydration: `layout` is `None` when the layout is not defined, and
    * otherwise holds its declared input count, if it has one. */
  function CheckLayout(layout: Option<Option<nat>>, found: nat): (r: Option<Error>)
    ensures r.None? <==> layout.Some? && (layout.value.Some? ==> layout.value.value == found)
    ensures r == Some(LayoutNotFound) <==> layout.None?
    ensures r.Some? && layout.Some? ==> r.value == InvalidInputCount(layout.value.value, found)
  {
    match layout
    case None => Some(LayoutNotFound)
    case Some(count) =>
      if count.Some? && count.value != found then Some(InvalidInputCount(count.value, found)) else None
  }

  /** What trying one variant of a sum layout gives: instantiating the
    * variant's dataset failed on an undeclared variable, or the value was
    * (or was not) dehydrated through the variant. */
  datatype VariantOutcome = DatasetFailed(x: nat) | Tried(ok: bool)

  /** How many variants accepted the value. */
  function Accepting(outcomes: seq<VariantOutcome>): nat {
    if outcomes == [] then 0
    else Accepting(outcomes[..|outcomes| - 1]) + (if outcomes[|outcomes| - 1] == Tried(true) then 1 else 0)
  }

  lemma {:induction false} AcceptingPrefix(outcomes: seq<VariantOutcome>, k: nat)
    requires k <= |outcomes|
    ensures Accepting(outcomes[..k]) <= Accepting(outcomes)
    decreases |outcomes| - k
  {
    if k < |outcomes| {
      AcceptingPrefix(outcomes, k + 1);
      assert outcomes[..k + 1][..k] == outcomes[..k];
    } else {
      assert outcomes[..k] == outcomes;
    }
  }

  /** Selects the one variant of a sum layout that accepts the value.  A
    * second accepting variant stops the search with an ambiguity; none is an
    * incompatible layout; a variant whose dataset cannot be instantiated
    * fails the whole sum. */
  method SelectVariant(outcomes: seq<VariantOutcome>) returns (r: Result<nat, Error>)
    ensures r.Success? ==>
      r.value < |outcomes| && outcomes[r.value] == Tried(true) && Accepting(outcomes) == 1
      && forall j :: 0 <= j < |outcomes| ==> outcomes[j].Tried?
    ensures (forall j :: 0 <= j < |outcomes| ==> outcomes[j].Tried?) ==>
      (r.Success? <==> Accepting(outcomes) == 1)
      && (r == Failure(DataAmbiguity) <==> Accepting(outcomes) >= 2)
      && (r == Failure(IncompatibleLayout) <==> Accepting(outcomes) == 0)
    ensures r.Failure? && r.error.UndeclaredVariable? ==>
      exists j :: 0 <= j < |outcomes| && outcomes[j] == DatasetFailed(r.error.x)
  {
    var selection: Option<nat> := None;
    var k := 0;
    while k < |outcomes|
      invariant 0 <= k <= |outcomes|
      invariant forall j :: 0 <= j < k ==> outcomes[j].Tried?
      invariant selection.None? <==> Accepting(outcomes[..k]) == 0
      invariant selection.Some? ==>
        selection.value < k && outcomes[selection.value] == Tried(true) && Accepting(outcomes[..k]) == 1
    {
      assert outcomes[..k + 1][..k] == outcomes[..k];
      match outcomes[k]
      case DatasetFailed(x) =>
        return Failure(UndeclaredVariable(x));
      case Tried(ok) =>
        if ok {
          if selection.Some? {
            AcceptingPrefix(outcomes, k + 1);
            return Failure(DataAmbiguity);
          }
          selection := Some(k);
        }
      k := k + 1;
    }
    assert outcomes[..k] == outcomes;
    match selection
    case Some(i) => return Success(i);
    case None => return Failure(IncompatibleLayout);
  }

  /** A field of a product layout. */
  datatype Field = Field(name: string, required: bool)

  predicate HasField(fields: seq<Field>, name: string) {
    exists i :: 0 <= i < |fields| && fields[i].name == name
  }

  /** The pass over a record's entries, in key order: a key the layout does
    * not declare is an incompatible layout, and the first entry whose field
    * dataset or value cannot be dehydrated (`sub`) fails the record. */
  function RecordEntries(fields: seq<Field>, keys: seq<string>, sub: string -> Option<Error>): (r: Option<Error>)
    ensures r.None? <==> forall i :: 0 <= i < |keys| ==> HasField(fields, keys[i]) && sub(keys[i]).None?
    ensures r.Some? ==> exists i :: (0 <= i < |keys|
      && (forall j :: 0 <= j < i ==> HasField(fields, keys[j]) && sub(keys[j]).None?)
      && r == (if HasField(fields, keys[i]) then sub(keys[i]) else Some(IncompatibleLayout)))
    decreases |keys|
  {
    if keys == [] then None
    else if !HasField(fields, keys[0]) then Some(IncompatibleLayout)
    else if sub(keys[0]).Some? then sub(keys[0])
    else
      var rest := RecordEntries(fields, keys[1..], sub);
      assert forall i :: 1 <= i < |keys| ==> keys[i] == keys[1..][i - 1];
      rest
  }

  /** The pass over the layout's fields, in name order: the first required
    * field the record lacks is reported. */
  function RequiredFields(fields: seq<Field>, keys: seq<string>): (r: Option<Error>)
    ensures r.None? <==> forall i :: 0 <= i < |fields| && fields[i].required ==> fields[i].name in keys
    ensures r.Some? ==> exists i :: (0 <= i < |fields| && fields[i].required && fields[i].name !in keys
      && r == Some(MissingRequiredField(fields[i].name))
      && forall j :: 0 <= j < i && fields[j].required ==> fields[j].name in keys)
    decreases |fields|
  {
    if fields == [] then None
    else if fields[0].required && fields[0].name !in keys then Some(MissingRequiredField(fields[0].name))
    else
      var rest := RequiredFields(fields[1..], keys);
      assert forall i :: 1 <= i < |fields| ==> fields[i] == fields[1..][i - 1];
      rest
  }

  /** Dehydrating a record through a product layout: the entries, then the
    * required fields. */
  function DehydrateRecord(fields: seq<Field>, keys: seq<string>, sub: string -> Option<Error>): (r: Option<Error>)
    ensures r.None? <==>
      (forall i :: 0 <= i < |keys| ==> HasField(fields, keys[i]) && sub(keys[i]).None?)
      && (forall i :: 0 <= i < |fields| && fields[i].required ==> fields[i].name in keys)
    ensures (exists i :: 0 <= i < |keys| && !HasField(fields, keys[i])) ==> r.Some?
    ensures (forall i :: 0 <= i < |keys| ==> HasField(fields, keys[i]) && sub(keys[i]).None?) ==>
      r == RequiredFields(fields, keys)
  {
    match RecordEntries(fields, keys, sub)
    case Some(e) => Some(e)
    case None => RequiredFields(fields, keys)
  }

  /** A record whose every key is a field and whose every required field is
    * present is accepted exactly when each entry is; a record that lacks a
    * required field but is otherwise fine reports that field. */
  lemma {:induction false} RecordMissingField(fields: seq<Field>, keys: seq<string>, sub: string -> Option<Error>, n: nat)
    requires forall i :: 0 <= i < |keys| ==> HasField(fields, keys[i]) && sub(keys[i]).None?
    requires n < |fields| && fields[n].required && fields[n].name !in keys
    requires forall j :: 0 <= j < n && fields[j].required ==> fields[j].name in keys
    ensures DehydrateRecord(fields, keys, sub) == Some(MissingRequiredField(fields[n].name))
  {
    var r := RequiredFields(fields, keys);
    assert r.Some?;
    var i :| 0 <= i < |fields| && fields[i].required && fields[i].name !in keys
      && r == Some(MissingRequiredField(fields[i].name))
      && forall j :: 0 <= j < i && fields[j].required ==> fields[j].name in keys;
    assert !(i < n) && !(n < i);
  }

  /** Dehydrating a fixed-size list, pairing value `i` with item layout `i`
    * from position `from`: the first item that fails fails the list, and
    * running out of values or of item layouts before the other is an
    * incompatible layout. */
  function DehydrateTuple(values: nat, items: nat, sub: nat -> Option<Error>, from: nat): (r: Option<Error>)
    requires from <= values && from <= items
    ensures r.None? <==> values == items && forall i :: from <= i < values ==> sub(i).None?
    ensures (forall i :: from <= i < values && i < items ==> sub(i).None?) && values != items ==>
      r == Some(IncompatibleLayout)
    ensures r.Some? && r != Some(IncompatibleLayout) ==>
      exists i :: from <= i < values && i < items && r == sub(i)
    decreases values - from
  {
    if from < values && from < items then
      if sub(from).Some? then sub(from) else DehydrateTuple(values, items, sub, from + 1)
    else if from == values && from == items then None
    else Some(IncompatibleLayout)
  }

  /** Dehydrating an ordered list of `n` items chains `n` nodes: node `i`
    * binds a head and a rest, the first head is the layout's head, each rest
    * is the next node's head, and the last rest is the layout's tail.  The
    * intermediate heads are the fresh resources, in order. */
  method OrderedNodes<R>(n: nat, head: R, tail: R, links: seq<R>) returns (nodes: seq<(R, R)>)
    requires |links| + 1 >= n
    ensures |nodes| == n
    ensures n > 0 ==> nodes[0].0 == head && nodes[n - 1].1 == tail
    ensures forall i :: 0 <= i < n - 1 ==> nodes[i].1 == links[i] && nodes[i + 1].0 == links[i]
  {
    nodes := [];
    var current := head;
    var i := 0;
    while i < n
      invariant 0 <= i <= n
      invariant |nodes| == i
      invariant i == 0 ==> current == head
      invariant i > 0 ==> nodes[0].0 == head
      invariant 0 < i < n ==> current == links[i - 1]
      invariant forall j :: 0 <= j < i - 1 ==> nodes[j].1 == links[j] && nodes[j + 1].0 == links[j]
      invariant i > 0 ==> nodes[i - 1].1 == current
      invariant i == n && n > 0 ==> nodes[n - 1].1 == tail
    {
      var rest := if i == n - 1 then tail else links[i];
      nodes := nodes + [(current, rest)];
      current := rest;
      i := i + 1;
    }
  }

  /** The environment of ordered-list node `i`: the list's own environment,
    * then the node's head and rest, then the node's introduced resources. */
  function NodeEnvironment<R>(env: Environment<R>, head: R, rest: R, intros: seq<R>): (r: Environment<R>)
    ensures Resources(r) == Resources(env) + [head, rest] + intros
    ensures Get(r, |Resources(env)|) == Success(head)
    ensures Get(r, |Resources(env)| + 1) == Success(rest)
  {
    Intro(Bind(env, head, rest), intros)
  }

  /** Variable `i` of a node's environment: the list's own variable below
    * the list's length, then the head, the rest and the introduced
    * resources, and nothing past them. */
  lemma NodeEnvironmentGet<R>(env: Environment<R>, head: R, rest: R, intros: seq<R>, i: nat)
    ensures var n := |Resources(env)|;
      Get(NodeEnvironment(env, head, rest, intros), i)
        == if i < n then Get(env, i)
           else if i == n then Success(head)
           else if i == n + 1 then Success(rest)
           else if i < n + 2 + |intros| then Success(intros[i - n - 2])
           else Failure(i - n - 2 - |intros|)
  {
  }

  /** `Never` rejects every value; `Always` accepts every value and writes
    * nothing. */
  datatype Constant = Never | Always

  function DehydrateConstant(c: Constant): (r: Option<Error>)
    ensures r.None? <==> c == Always
    ensures r.Some? ==> r.value == IncompatibleLayout
  {
    match c
    case Never => Some(IncompatibleLayout)
    case Always => None
  }
}
