/**
 * Finite automata over characters, as used to compile layout regular
 * expressions: a non-deterministic automaton with epsilon transitions,
 * its determinization, the synchronous products of two automata, and the
 * deterministic automaton's transition table.
 *
 * A label is a set of characters (`Some`) or the epsilon label (`None`).
 * Ranges of characters are represented by the sets they denote.
 */
module Automata {
  import opened Wrappers
  import opened Exploration

  type Label = Option<set<char>>

  /** Non-deterministic automaton: per state, per label, the target states. */
  datatype Automaton<Q> = Automaton(
    transitions: map<Q, map<Label, set<Q>>>,
    initial: set<Q>,
    final: set<Q>)

  /** Deterministic automaton: per state, per label, the one target state. */
  datatype DetAutomaton<Q, L> = DetAutomaton(
    initial: Q,
    final: set<Q>,
    transitions: map<Q, map<L, Q>>)

  /*** Non-deterministic automata ***/

  predicate HasEdge<Q(!new)>(a: Automaton<Q>, source: Q, via: Label, target: Q) {
    source in a.transitions && via in a.transitions[source]
    && target in a.transitions[source][via]
  }

  /** Every target of a transition is a declared state. */
  predicate Declared<Q(!new)>(a: Automaton<Q>) {
    forall q, l, t :: q in a.transitions && l in a.transitions[q] && t in a.transitions[q][l] ==> t in a.transitions
  }

  /** The outgoing transitions of `q` (none when `q` is undeclared). */
  function Out<Q(!new)>(a: Automaton<Q>, q: Q): map<Label, set<Q>> {
    if q in a.transitions then a.transitions[q] else map[]
  }

  function Targets<Q(!new)>(a: Automaton<Q>): set<Q> {
    set q, l, t | q in a.transitions && l in a.transitions[q] && t in a.transitions[q][l] :: t
  }

  /** Every state the automaton mentions. */
  function States<Q(!new)>(a: Automaton<Q>): set<Q> {
    a.transitions.Keys + a.initial + Targets(a)
  }

  lemma TargetInStates<Q(!new)>(a: Automaton<Q>, q: Q, l: Label, t: Q)
    requires HasEdge(a, q, l, t)
    ensures t in Targets(a) && t in States(a)
  {
  }

  /** Makes sure `q` has an entry in the transition table. */
  function DeclareState<Q(!new)>(a: Automaton<Q>, q: Q): (r: Automaton<Q>)
    ensures r.transitions.Keys == a.transitions.Keys + {q}
    ensures forall p :: p in a.transitions ==> r.transitions[p] == a.transitions[p]
    ensures q !in a.transitions ==> r.transitions[q] == map[]
    ensures r.initial == a.initial && r.final == a.final
  {
    if q in a.transitions then a else a.(transitions := a.transitions[q := map[]])
  }

  /**
   * Adds the transition `source --via--> target`, declaring `target`
   * first so that every target of a transition is itself a state.
   */
  function Add<Q(!new)>(a: Automaton<Q>, source: Q, via: Label, target: Q): (r: Automaton<Q>)
    ensures r.initial == a.initial && r.final == a.final
    ensures r.transitions.Keys == a.transitions.Keys + {source, target}
    ensures forall q, l, t :: HasEdge(r, q, l, t) <==> HasEdge(a, q, l, t) || (q, l, t) == (source, via, target)
    ensures Declared(a) ==> Declared(r)
  {
    var a1 := DeclareState(a, target);
    var out := Out(a1, source);
    var targets := if via in out then out[via] else {};
    a1.(transitions := a1.transitions[source := out[via := targets + {target}]])
  }

  /** The states one epsilon transition away from `q`. */
  function EpsilonSuccessors<Q(!new)>(a: Automaton<Q>, q: Q): set<Q> {
    if q in a.transitions && None in a.transitions[q] then a.transitions[q][None] else {}
  }

  function EpsilonStep<Q(!new)>(a: Automaton<Q>): Q -> set<Q> {
    q => EpsilonSuccessors(a, q)
  }

  lemma EpsilonStepMapsInto<Q(!new)>(a: Automaton<Q>, x: set<Q>)
    ensures MapsInto(EpsilonStep(a), States(a) + x)
  {
    forall q | q in States(a) + x
      ensures EpsilonStep(a)(q) <= States(a) + x
    {
      forall t | t in EpsilonSuccessors(a, q) ensures t in States(a) {
        TargetInStates(a, q, None, t);
      }
    }
  }

  /** The epsilon closure of `x`: `x` and every state epsilon-reachable from it. */
  function Closure<Q(!new)>(a: Automaton<Q>, x: set<Q>): (r: set<Q>)
    ensures x <= r <= States(a) + x
    ensures ClosedUnder(EpsilonStep(a), r)
  {
    EpsilonStepMapsInto(a, x);
    Reach(EpsilonStep(a), States(a) + x, x)
  }

  /** The epsilon closure lies inside every epsilon-closed superset of `x`. */
  lemma ClosureLeast<Q(!new)>(a: Automaton<Q>, x: set<Q>, y: set<Q>)
    requires x <= y && ClosedUnder(EpsilonStep(a), y)
    ensures Closure(a, x) <= y
  {
    EpsilonStepMapsInto(a, x);
    ReachLeast(EpsilonStep(a), States(a) + x, x, y);
  }

  /**
   * The worklist computation of the epsilon closure: pops a state, and if
   * it is new, records it and pushes its epsilon successors.
   */
  method ModuloEpsilonState<Q(==,!new)>(a: Automaton<Q>, qs: seq<Q>) returns (states: set<Q>)
    ensures Elems(qs) <= states
    ensures ClosedUnder(EpsilonStep(a), states)
    ensures forall y :: Elems(qs) <= y && ClosedUnder(EpsilonStep(a), y) ==> states <= y
  {
    EpsilonStepMapsInto(a, Elems(qs));
    var order := DepthFirst(EpsilonStep(a), States(a) + Elems(qs), qs);
    states := Elems(order);
    forall y | Elems(qs) <= y && ClosedUnder(EpsilonStep(a), y) ensures states <= y {
      ClosureLeast(a, Elems(qs), y);
    }
  }

  /*** Determinization ***/

  /** Some character label leaving a state of `s` contains `c`. */
  predicate Covered<Q(!new)>(a: Automaton<Q>, s: set<Q>, c: char) {
    exists q, l :: q in s && q in a.transitions && l in a.transitions[q] && l.Some? && c in l.value
  }

  /** The epsilon closures of the targets of `c`-transitions leaving `s`. */
  function Next<Q(!new)>(a: Automaton<Q>, s: set<Q>, c: char): set<Q> {
    set q, l, t, u | q in s && q in a.transitions && l in a.transitions[q] && l.Some? && c in l.value
                     && t in a.transitions[q][l] && u in Closure(a, {t}) :: u
  }

  /** The deterministic transitions of the state set `s`, one per character. */
  function DetTransitionsFor<Q(!new)>(a: Automaton<Q>, s: set<Q>): map<char, set<Q>> {
    map c: char | Covered(a, s, c) :: Next(a, s, c)
  }

  function DetStep<Q(!new)>(a: Automaton<Q>): set<Q> -> set<set<Q>> {
    s => DetTransitionsFor(a, s).Values
  }

  lemma NextInStates<Q(!new)>(a: Automaton<Q>, s: set<Q>, c: char)
    ensures Next(a, s, c) <= States(a)
  {
    forall u | u in Next(a, s, c) ensures u in States(a) {
      var q, l, t :| q in s && q in a.transitions && l in a.transitions[q] && l.Some? && c in l.value
                     && t in a.transitions[q][l] && u in Closure(a, {t});
      TargetInStates(a, q, l, t);
    }
  }

  /** A union of epsilon closures is epsilon-closed. */
  lemma NextClosed<Q(!new)>(a: Automaton<Q>, s: set<Q>, c: char)
    ensures ClosedUnder(EpsilonStep(a), Next(a, s, c))
  {
    forall u | u in Next(a, s, c) ensures EpsilonStep(a)(u) <= Next(a, s, c) {
      var q, l, t :| q in s && q in a.transitions && l in a.transitions[q] && l.Some? && c in l.value
                     && t in a.transitions[q][l] && u in Closure(a, {t});
      assert EpsilonStep(a)(u) <= Closure(a, {t});
    }
  }

  lemma DetStepMapsInto<Q(!new)>(a: Automaton<Q>)
    ensures MapsInto(DetStep(a), PowerSet(States(a)))
  {
    forall s | s in PowerSet(States(a)) ensures DetStep(a)(s) <= PowerSet(States(a)) {
      forall n | n in DetStep(a)(s) ensures n in PowerSet(States(a)) {
        var c :| c in DetTransitionsFor(a, s) && DetTransitionsFor(a, s)[c] == n;
        NextInStates(a, s, c);
        PowerSetContains(States(a), n);
      }
    }
  }

  /** A state set is final when it holds a final state of `a`. */
  predicate DetFinal<Q(!new)>(a: Automaton<Q>, s: set<Q>) {
    exists q :: q in s && q in a.final
  }

  /**
   * Subset construction: the initial state is the epsilon closure of the
   * initial states, the states are the state sets reachable from it, and
   * each character leads to the epsilon closure of its targets.
   */
  ghost function Determinize<Q(!new)>(a: Automaton<Q>): (d: DetAutomaton<set<Q>, char>)
    ensures d.initial == Closure(a, a.initial)
    ensures d.initial in d.transitions
    ensures d.final <= d.transitions.Keys
    ensures forall s :: s in d.transitions ==> (s in d.final <==> DetFinal(a, s))
    ensures forall s, c :: s in d.transitions && c in d.transitions[s] ==> d.transitions[s][c] in d.transitions
    ensures forall s :: s in d.transitions ==> ClosedUnder(EpsilonStep(a), s)
  {
    var init := Closure(a, a.initial);
    assert init in PowerSet(States(a)) by { PowerSetContains(States(a), init); }
    DetStepMapsInto(a);
    var states := Reach(DetStep(a), PowerSet(States(a)), {init});
    DeterminizedStatesClosed(a, init, states);
    DetAutomaton(init,
      set s | s in states && DetFinal(a, s),
      map s | s in states :: DetTransitionsFor(a, s))
  }

  lemma DeterminizedStatesClosed<Q(!new)>(a: Automaton<Q>, init: set<Q>, states: set<set<Q>>)
    requires ClosedUnder(EpsilonStep(a), init)
    requires init in PowerSet(States(a)) && MapsInto(DetStep(a), PowerSet(States(a)))
    requires states == Reach(DetStep(a), PowerSet(States(a)), {init})
    ensures forall s :: s in states ==> ClosedUnder(EpsilonStep(a), s)
  {
    var closed := set s | s in states && ClosedUnder(EpsilonStep(a), s);
    forall s | s in closed ensures DetStep(a)(s) <= closed {
      forall n | n in DetStep(a)(s) ensures n in closed {
        var c :| c in DetTransitionsFor(a, s) && DetTransitionsFor(a, s)[c] == n;
        NextClosed(a, s, c);
      }
    }
    ReachLeast(DetStep(a), PowerSet(States(a)), {init}, closed);
  }

  /*** Product of non-deterministic automata ***/

  /**
   * The transitions of the product state `p`: a pair of character
   * transitions whose labels intersect gives one transition labelled with
   * the intersection, and two epsilon transitions give an epsilon
   * transition.
   */
  function ProductTransitions<Q(!new), R(!new)>(a: Automaton<Q>, b: Automaton<R>, p: (Q, R)): map<Label, set<(Q, R)>> {
    var outA := Out(a, p.0);
    var outB := Out(b, p.1);
    var labels :=
      (set la, lb | la in outA && lb in outB && la.Some? && lb.Some? && la.value * lb.value != {}
         :: Some(la.value * lb.value))
      + (if None in outA && None in outB then {None} else {});
    map l | l in labels ::
      if l == None then
        set sa, sb | sa in outA[None] && sb in outB[None] :: (sa, sb)
      else
        set la, lb, sa, sb | la in outA && lb in outB && la.Some? && lb.Some?
                             && la.value * lb.value != {} && Some(la.value * lb.value) == l
                             && sa in outA[la] && sb in outB[lb] :: (sa, sb)
  }

  function ProductStep<Q(!new), R(!new)>(a: Automaton<Q>, b: Automaton<R>): ((Q, R)) -> set<(Q, R)> {
    (p: (Q, R)) => set l, s | l in ProductTransitions(a, b, p) && s in ProductTransitions(a, b, p)[l] :: s
  }

  function Pairs<Q(!new), R(!new)>(x: set<Q>, y: set<R>): set<(Q, R)> {
    set qa, qb | qa in x && qb in y :: (qa, qb)
  }

  lemma ProductStepMapsInto<Q(!new), R(!new)>(a: Automaton<Q>, b: Automaton<R>)
    ensures MapsInto(ProductStep(a, b), Pairs(States(a), States(b)))
  {
    forall p | p in Pairs(States(a), States(b))
      ensures ProductStep(a, b)(p) <= Pairs(States(a), States(b))
    {
      forall s | s in ProductStep(a, b)(p) ensures s in Pairs(States(a), States(b)) {
        var pt := ProductTransitions(a, b, p);
        var l :| l in pt && s in pt[l];
        var outA := Out(a, p.0);
        var outB := Out(b, p.1);
        if l == None {
          TargetInStates(a, p.0, None, s.0);
          TargetInStates(b, p.1, None, s.1);
        } else {
          var la, lb :| la in outA && lb in outB && la.Some? && lb.Some?
                        && Some(la.value * lb.value) == l && s.0 in outA[la] && s.1 in outB[lb];
          TargetInStates(a, p.0, la, s.0);
          TargetInStates(b, p.1, lb, s.1);
        }
      }
    }
  }

  /**
   * `p --l--> s` pairs a transition of each component: two epsilon
   * transitions, or two character transitions whose labels intersect,
   * labelled with the intersection.
   */
  ghost predicate ProductEdge<Q(!new), R(!new)>(a: Automaton<Q>, b: Automaton<R>, p: (Q, R), l: Label, s: (Q, R)) {
    (l == None && HasEdge(a, p.0, None, s.0) && HasEdge(b, p.1, None, s.1))
    || exists la, lb :: HasEdge(a, p.0, Some(la), s.0) && HasEdge(b, p.1, Some(lb), s.1)
                        && la * lb != {} && l == Some(la * lb)
  }

  lemma ProductEdgeOfLabels<Q(!new), R(!new)>(a: Automaton<Q>, b: Automaton<R>, p: (Q, R), la: set<char>, lb: set<char>, s: (Q, R))
    requires HasEdge(a, p.0, Some(la), s.0) && HasEdge(b, p.1, Some(lb), s.1) && la * lb != {}
    ensures ProductEdge(a, b, p, Some(la * lb), s)
  {
  }

  lemma ProductTransitionsSound<Q(!new), R(!new)>(a: Automaton<Q>, b: Automaton<R>, p: (Q, R), l: Label, s: (Q, R))
    requires l in ProductTransitions(a, b, p) && s in ProductTransitions(a, b, p)[l]
    ensures ProductEdge(a, b, p, l, s)
  {
    var outA := Out(a, p.0);
    var outB := Out(b, p.1);
    var pt := ProductTransitions(a, b, p);
    if l == None {
      assert None in outA && None in outB;
      assert s in (set sa, sb | sa in outA[None] && sb in outB[None] :: (sa, sb));
      assert HasEdge(a, p.0, None, s.0) && HasEdge(b, p.1, None, s.1);
    } else {
      var la, lb :| la in outA && lb in outB && la.Some? && lb.Some? && la.value * lb.value != {}
                    && Some(la.value * lb.value) == l && s.0 in outA[la] && s.1 in outB[lb];
      ProductEdgeOfLabels(a, b, p, la.value, lb.value, s);
    }
  }

  lemma ProductTransitionsComplete<Q(!new), R(!new)>(a: Automaton<Q>, b: Automaton<R>, p: (Q, R), l: Label, s: (Q, R))
    requires ProductEdge(a, b, p, l, s)
    ensures l in ProductTransitions(a, b, p) && s in ProductTransitions(a, b, p)[l]
  {
    var outA := Out(a, p.0);
    var outB := Out(b, p.1);
    if !(l == None && HasEdge(a, p.0, None, s.0) && HasEdge(b, p.1, None, s.1)) {
      var la, lb :| HasEdge(a, p.0, Some(la), s.0) && HasEdge(b, p.1, Some(lb), s.1)
                    && la * lb != {} && l == Some(la * lb);
      assert Some(la) in outA && Some(lb) in outB;
    }
  }

  /**
   * Synchronous product: its states are the pairs reachable from pairs of
   * initial states, its transitions pair transitions of the components,
   * and a pair is final exactly when both components are.
   */
  function Product<Q(!new), R(!new)>(a: Automaton<Q>, b: Automaton<R>): (r: Automaton<(Q, R)>)
    ensures r.initial == Pairs(a.initial, b.initial)
    ensures r.initial <= r.transitions.Keys
    ensures r.final <= r.transitions.Keys
    ensures forall p :: p in r.transitions ==> (p in r.final <==> p.0 in a.final && p.1 in b.final)
    ensures forall p, l, s :: p in r.transitions ==> (HasEdge(r, p, l, s) <==> ProductEdge(a, b, p, l, s))
    ensures Declared(r)
  {
    var init := Pairs(a.initial, b.initial);
    ProductStepMapsInto(a, b);
    var states := Reach(ProductStep(a, b), Pairs(States(a), States(b)), init);
    var r := Automaton(
      map p | p in states :: ProductTransitions(a, b, p),
      init,
      set p | p in states && p.0 in a.final && p.1 in b.final);
    assert Declared(r) by {
      forall p, l, s | p in r.transitions && l in r.transitions[p] && s in r.transitions[p][l]
        ensures s in r.transitions
      {
        assert s in ProductStep(a, b)(p);
      }
    }
    assert forall p, l, s :: p in r.transitions ==> (HasEdge(r, p, l, s) <==> ProductEdge(a, b, p, l, s)) by {
      forall p, l, s | p in r.transitions
        ensures HasEdge(r, p, l, s) <==> ProductEdge(a, b, p, l, s)
      {
        if HasEdge(r, p, l, s) { ProductTransitionsSound(a, b, p, l, s); }
        if ProductEdge(a, b, p, l, s) { ProductTransitionsComplete(a, b, p, l, s); }
      }
    }
    r
  }

  /*** Deterministic automata ***/

  function DetTargets<Q(!new), L(!new)>(d: DetAutomaton<Q, L>): set<Q> {
    set q, l | q in d.transitions && l in d.transitions[q] :: d.transitions[q][l]
  }

  lemma TargetIn<Q(!new), L(!new)>(d: DetAutomaton<Q, L>, q: Q, l: L)
    requires q in d.transitions && l in d.transitions[q]
    ensures d.transitions[q][l] in DetTargets(d)
  {
  }

  /** Every state the deterministic automaton mentions. */
  function DetStates<Q(!new), L(!new)>(d: DetAutomaton<Q, L>): set<Q> {
    d.transitions.Keys + {d.initial} + DetTargets(d)
  }

  /** The targets of the transitions leaving `q`. */
  function Successors<Q(!new), L(!new)>(d: DetAutomaton<Q, L>, q: Q): set<Q> {
    if q in d.transitions then d.transitions[q].Values else {}
  }

  function SuccessorStep<Q(!new), L(!new)>(d: DetAutomaton<Q, L>): Q -> set<Q> {
    q => Successors(d, q)
  }

  lemma SuccessorStepMapsInto<Q(!new), L(!new)>(d: DetAutomaton<Q, L>, x: set<Q>)
    ensures MapsInto(SuccessorStep(d), DetStates(d) + x)
  {
    forall q | q in DetStates(d) + x ensures SuccessorStep(d)(q) <= DetStates(d) + x {
      forall t | t in Successors(d, q) ensures t in DetTargets(d) {
        var l :| l in d.transitions[q] && d.transitions[q][l] == t;
      }
    }
  }

  /**
   * The states reachable from `q`, in the order a depth-first walk first
   * meets them: `q` first, and no state twice.
   */
  method ReachableStates<Q(==,!new), L(!new)>(d: DetAutomaton<Q, L>, q: Q) returns (order: seq<Q>)
    ensures |order| > 0 && order[0] == q
    ensures Distinct(order)
    ensures Elems(order) == Reach(SuccessorStep(d), DetStates(d) + {q}, {q})
  {
    SuccessorStepMapsInto(d, {q});
    assert Elems([q]) == {q};
    order := DepthFirst(SuccessorStep(d), DetStates(d) + {q}, [q]);
  }

  /** The one transition leaving `q`, if it has exactly one. */
  function SingleTransitionOf<Q(!new), L(!new)>(d: DetAutomaton<Q, L>, q: Q): (r: Option<(L, Q)>)
    ensures r.Some? <==> q in d.transitions && |d.transitions[q]| == 1
    ensures r.Some? ==> d.transitions[q] == map[r.value.0 := r.value.1]
  {
    if q in d.transitions && |d.transitions[q]| == 1 then
      var out := d.transitions[q];
      SingletonKeys(out);
      var l :| out.Keys == {l};
      assert out == map[l := out[l]];
      Some((l, out[l]))
    else
      None
  }

  lemma SingletonKeys<K(!new), V(!new)>(m: map<K, V>)
    requires |m| == 1
    ensures exists k :: m.Keys == {k}
  {
    var k :| k in m.Keys;
    assert m.Keys - {k} == {} by {
      assert |m.Keys - {k}| == |m.Keys| - 1;
    }
  }

  /** The outgoing transitions of `q` (none when `q` is undeclared). */
  function DetOut<Q(!new), L(!new)>(d: DetAutomaton<Q, L>, q: Q): map<L, Q> {
    if q in d.transitions then d.transitions[q] else map[]
  }

  /** Pairs of transitions leaving `p` whose labels `g` combines into `n`. */
  predicate Combines<Q(!new), R(!new), L(!new), M(!new), N(==,!new)>(d: DetAutomaton<Q, L>, e: DetAutomaton<R, M>, g: (L, M) -> Option<N>,
                                    p: (Q, R), la: L, lb: M, n: N) {
    la in DetOut(d, p.0) && lb in DetOut(e, p.1) && g(la, lb) == Some(n)
  }

  function DetProductStep<Q(!new), R(!new), L(!new), M(!new), N(!new)>(d: DetAutomaton<Q, L>, e: DetAutomaton<R, M>, g: (L, M) -> Option<N>)
    : ((Q, R)) -> set<(Q, R)>
  {
    (p: (Q, R)) => set la, lb | la in DetOut(d, p.0) && lb in DetOut(e, p.1) && g(la, lb).Some?
                    :: (DetOut(d, p.0)[la], DetOut(e, p.1)[lb])
  }

  lemma DetProductStepMapsInto<Q(!new), R(!new), L(!new), M(!new), N(!new)>(d: DetAutomaton<Q, L>, e: DetAutomaton<R, M>, g: (L, M) -> Option<N>)
    ensures MapsInto(DetProductStep(d, e, g), Pairs(DetStates(d), DetStates(e)))
  {
    forall p | p in Pairs(DetStates(d), DetStates(e))
      ensures DetProductStep(d, e, g)(p) <= Pairs(DetStates(d), DetStates(e))
    {
      forall s | s in DetProductStep(d, e, g)(p) ensures s in Pairs(DetStates(d), DetStates(e)) {
        var la, lb :| la in DetOut(d, p.0) && lb in DetOut(e, p.1) && g(la, lb).Some?
                      && s == (DetOut(d, p.0)[la], DetOut(e, p.1)[lb]);
        assert p.0 in d.transitions && p.1 in e.transitions;
        TargetIn(d, p.0, la);
        TargetIn(e, p.1, lb);
      }
    }
  }

  /**
   * The transitions of the product state `p`, one per label `g` produces.
   * When several pairs of transitions produce the same label, the one kept
   * is left unspecified.
   */
  ghost function DetProductTransitions<Q(!new), R(!new), L(!new), M(!new), N(!new)>(d: DetAutomaton<Q, L>, e: DetAutomaton<R, M>,
                                                     g: (L, M) -> Option<N>, p: (Q, R)): (m: map<N, (Q, R)>)
    ensures forall n :: n in m ==> exists la, lb :: Combines(d, e, g, p, la, lb, n)
                                                    && m[n] == (DetOut(d, p.0)[la], DetOut(e, p.1)[lb])
    ensures forall la, lb, n :: Combines(d, e, g, p, la, lb, n) ==> n in m
  {
    var labels := set la, lb | la in DetOut(d, p.0) && lb in DetOut(e, p.1) && g(la, lb).Some? :: g(la, lb).value;
    map n | n in labels ::
      var la, lb :| la in DetOut(d, p.0) && lb in DetOut(e, p.1) && g(la, lb).Some? && g(la, lb).value == n;
      (DetOut(d, p.0)[la], DetOut(e, p.1)[lb])
  }

  /**
   * Synchronous product of deterministic automata: the pairs reachable
   * from the pair of initial states, following pairs of transitions whose
   * labels `g` combines. A pair is final exactly when both of its
   * components are.
   */
  ghost function DetProduct<Q(!new), R(!new), L(!new), M(!new), N(!new)>(d: DetAutomaton<Q, L>, e: DetAutomaton<R, M>, g: (L, M) -> Option<N>)
    : (r: DetAutomaton<(Q, R), N>)
    ensures r.initial == (d.initial, e.initial)
    ensures r.initial in r.transitions && r.final <= r.transitions.Keys
    ensures forall p :: p in r.transitions ==> (p in r.final <==> p.0 in d.final && p.1 in e.final)
    ensures forall p, n :: p in r.transitions && n in r.transitions[p] ==> r.transitions[p][n] in r.transitions
  {
    var init := (d.initial, e.initial);
    DetProductStepMapsInto(d, e, g);
    var states := Reach(DetProductStep(d, e, g), Pairs(DetStates(d), DetStates(e)), {init});
    var r := DetAutomaton(init,
      set p | p in states && p.0 in d.final && p.1 in e.final,
      map p | p in states :: DetProductTransitions(d, e, g, p));
    assert forall p, n :: p in r.transitions && n in r.transitions[p] ==> r.transitions[p][n] in r.transitions by {
      forall p, n | p in r.transitions && n in r.transitions[p] ensures r.transitions[p][n] in r.transitions {
        var la, lb :| Combines(d, e, g, p, la, lb, n)
                      && r.transitions[p][n] == (DetOut(d, p.0)[la], DetOut(e, p.1)[lb]);
        assert r.transitions[p][n] in DetProductStep(d, e, g)(p);
      }
    }
    r
  }

  /*** Transition table size ***/

  /** The (source, label) pairs of a transition table: one per transition. */
  function Edges<Q(!new), L(!new)>(t: map<Q, map<L, Q>>): set<(Q, L)> {
    set q, l | q in t && l in t[q] :: (q, l)
  }

  /** The number of transitions. */
  function Len<Q(!new), L(!new)>(t: map<Q, map<L, Q>>): nat {
    |Edges(t)|
  }

  function IsEmpty<Q(!new), L(!new)>(t: map<Q, map<L, Q>>): (b: bool)
    ensures b <==> forall q :: q in t ==> t[q] == map[]
  {
    LenZero(t);
    Len(t) == 0
  }

  /** The per-state transition counts, summed. */
  ghost function SumOfCounts<Q(!new), L(!new)>(t: map<Q, map<L, Q>>): nat
    decreases |t|
  {
    if t == map[] then 0
    else
      var q :| q in t;
      |t[q]| + SumOfCounts(t - {q})
  }

  lemma {:induction false} LenIsSumOfCounts<Q(!new), L(!new)>(t: map<Q, map<L, Q>>)
    ensures Len(t) == SumOfCounts(t)
    decreases |t|
  {
    if t != map[] {
      var q :| q in t && SumOfCounts(t) == |t[q]| + SumOfCounts(t - {q});
      var row := set l | l in t[q] :: (q, l);
      assert Edges(t) == Edges(t - {q}) + row;
      assert Edges(t - {q}) !! row;
      RowCount(q, t[q].Keys);
      assert |t[q]| == |t[q].Keys|;
      LenIsSumOfCounts(t - {q});
    }
  }

  lemma {:induction false} RowCount<Q(!new), L(!new)>(q: Q, ls: set<L>)
    ensures |set l | l in ls :: (q, l)| == |ls|
    decreases |ls|
  {
    if ls != {} {
      var l :| l in ls;
      var smaller := set k | k in ls - {l} :: (q, k);
      assert (set k | k in ls :: (q, k)) == smaller + {(q, l)};
      RowCount(q, ls - {l});
    }
  }

  lemma LenZero<Q(!new), L(!new)>(t: map<Q, map<L, Q>>)
    ensures Len(t) == 0 <==> forall q :: q in t ==> t[q] == map[]
  {
    if exists q :: q in t && t[q] != map[] {
      var q :| q in t && t[q] != map[];
      assert t[q].Keys != {};
      var l :| l in t[q];
      assert (q, l) in Edges(t);
    }
    if Len(t) != 0 {
      var e :| e in Edges(t);
      assert e.1 in t[e.0];
    }
  }
}
