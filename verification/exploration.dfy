/**
 * Graph exploration over a finite universe of states: the least set closed
 * under a successor function, and a depth-first search that computes it.
 *
 * The automaton algorithms (epsilon closure, determinization, products,
 * reachable states) are all instances of a worklist exploration; they share
 * this one definition.
 */
module Exploration {

  /** The elements of a sequence, as a set. */
  function Elems<S(==)>(s: seq<S>): set<S> {
    set x | x in s
  }

  /** No element occurs twice. */
  predicate Distinct<S(==)>(s: seq<S>) {
    forall i, j :: 0 <= i < j < |s| ==> s[i] != s[j]
  }

  /** Every successor of a state in `u` is in `u`. */
  predicate MapsInto<S(==)>(succ: S -> set<S>, u: set<S>) {
    forall x :: x in u ==> succ(x) <= u
  }

  /** `x` contains the successors of its members. */
  predicate ClosedUnder<S(==)>(succ: S -> set<S>, x: set<S>) {
    forall y :: y in x ==> succ(y) <= x
  }

  /** All successors of members of `x`. */
  function Post<S(==)>(succ: S -> set<S>, x: set<S>): (r: set<S>)
    ensures forall y :: y in x ==> succ(y) <= r
  {
    set y, z | y in x && z in succ(y) :: z
  }

  /**
   * The states reachable from `x`: the least superset of `x` closed under
   * `succ`, inside the finite universe `u`.
   */
  function Reach<S(==)>(succ: S -> set<S>, u: set<S>, x: set<S>): (r: set<S>)
    requires x <= u && MapsInto(succ, u)
    ensures x <= r <= u
    ensures ClosedUnder(succ, r)
    decreases |u - x|
  {
    var next := x + Post(succ, x);
    if next == x then x
    else
      assert |u - next| < |u - x| by { Shrinks(u, x, next); }
      Reach(succ, u, next)
  }

  /** Growing a subset of `u` leaves fewer states of `u` outside it. */
  lemma Shrinks<S>(u: set<S>, x: set<S>, y: set<S>)
    requires x < y <= u
    ensures |u - y| < |u - x|
  {
    var z :| z in y && z !in x;
    assert u - x == (u - y) + (y - x);
    assert (u - y) !! (y - x);
    assert z in y - x;
  }

  /** `Reach` is the least closed superset: it lies inside every other one. */
  lemma {:induction false} ReachLeast<S>(succ: S -> set<S>, u: set<S>, x: set<S>, y: set<S>)
    requires x <= u && MapsInto(succ, u)
    requires x <= y && ClosedUnder(succ, y)
    ensures Reach(succ, u, x) <= y
    decreases |u - x|
  {
    var next := x + Post(succ, x);
    if next != x {
      assert next <= y;
      assert |u - next| < |u - x| by { Shrinks(u, x, next); }
      ReachLeast(succ, u, next, y);
    }
  }

  /** All subsets of `u`. */
  ghost function PowerSet<S>(u: set<S>): set<set<S>>
    decreases |u|
  {
    if u == {} then {{}}
    else
      var x :| x in u;
      var smaller := PowerSet(u - {x});
      smaller + set y | y in smaller :: y + {x}
  }

  lemma {:induction false} PowerSetContains<S>(u: set<S>, y: set<S>)
    requires y <= u
    ensures y in PowerSet(u)
    decreases |u|
  {
    if u == {} {
      assert y == {};
    } else {
      var x :| x in u && PowerSet(u) == PowerSet(u - {x}) + set z | z in PowerSet(u - {x}) :: z + {x};
      if x in y {
        PowerSetContains(u - {x}, y - {x});
        assert y == (y - {x}) + {x};
      } else {
        PowerSetContains(u - {x}, y);
      }
    }
  }

  /** The elements of a set, in some order, each once. */
  method SeqOfSet<S(==)>(x: set<S>) returns (s: seq<S>)
    ensures Elems(s) == x
    ensures Distinct(s)
  {
    s := [];
    var rest := x;
    while rest != {}
      invariant Elems(s) + rest == x
      invariant Elems(s) !! rest
      invariant Distinct(s)
      decreases |rest|
    {
      var y :| y in rest;
      s := s + [y];
      rest := rest - {y};
    }
  }

  lemma ElemsConcat<S>(a: seq<S>, b: seq<S>)
    ensures Elems(a + b) == Elems(a) + Elems(b)
  {
    assert forall x :: x in a + b <==> x in a || x in b;
  }

  lemma ElemsPop<S>(s: seq<S>)
    requires |s| > 0
    ensures Elems(s) == Elems(s[..|s| - 1]) + {s[|s| - 1]}
  {
    assert s == s[..|s| - 1] + [s[|s| - 1]];
    ElemsConcat(s[..|s| - 1], [s[|s| - 1]]);
  }

  lemma DistinctAppend<S>(s: seq<S>, x: S)
    requires Distinct(s) && x !in Elems(s)
    ensures Distinct(s + [x]) && Elems(s + [x]) == Elems(s) + {x}
  {
    ElemsConcat(s, [x]);
  }

  /** The successors of visited states are visited or still pending. */
  predicate Frontier<S(==)>(succ: S -> set<S>, visited: set<S>, pending: set<S>) {
    forall y :: y in visited ==> succ(y) <= visited + pending
  }

  /** Popping a state already visited keeps the frontier. */
  lemma FrontierSkip<S>(succ: S -> set<S>, visited: set<S>, rest: set<S>, q: S)
    requires Frontier(succ, visited, rest + {q}) && q in visited
    ensures Frontier(succ, visited, rest)
  {
  }

  /** Visiting a popped state and pushing its successors keeps the frontier. */
  lemma FrontierVisit<S>(succ: S -> set<S>, visited: set<S>, rest: seq<S>, q: S, next: seq<S>)
    requires Frontier(succ, visited, Elems(rest) + {q})
    requires Elems(next) == succ(q)
    ensures Frontier(succ, visited + {q}, Elems(rest + next))
  {
    ElemsConcat(rest, next);
  }

  /** The loop invariant of the depth-first exploration. */
  ghost predicate DfsInvariant<S>(succ: S -> set<S>, reach: set<S>, roots: seq<S>,
                                  visited: set<S>, order: seq<S>, stack: seq<S>) {
    && visited == Elems(order)
    && Distinct(order)
    && visited <= reach
    && Elems(stack) <= reach
    && Elems(roots) <= visited + Elems(stack)
    && Frontier(succ, visited, Elems(stack))
    && (|order| == 0 ==> stack == roots)
    && (|roots| > 0 && |order| > 0 ==> order[0] == roots[|roots| - 1])
  }

  lemma DfsSkip<S>(succ: S -> set<S>, reach: set<S>, roots: seq<S>, visited: set<S>, order: seq<S>, stack: seq<S>)
    requires DfsInvariant(succ, reach, roots, visited, order, stack)
    requires |stack| > 0 && stack[|stack| - 1] in visited
    ensures DfsInvariant(succ, reach, roots, visited, order, stack[..|stack| - 1])
  {
    ElemsPop(stack);
    FrontierSkip(succ, visited, Elems(stack[..|stack| - 1]), stack[|stack| - 1]);
  }

  lemma DfsVisit<S>(succ: S -> set<S>, reach: set<S>, roots: seq<S>, visited: set<S>, order: seq<S>, stack: seq<S>,
                    next: seq<S>)
    requires DfsInvariant(succ, reach, roots, visited, order, stack)
    requires ClosedUnder(succ, reach)
    requires |stack| > 0 && stack[|stack| - 1] !in visited
    requires Elems(next) == succ(stack[|stack| - 1])
    ensures var q := stack[|stack| - 1];
            DfsInvariant(succ, reach, roots, visited + {q}, order + [q], stack[..|stack| - 1] + next)
  {
    var q := stack[|stack| - 1];
    var rest := stack[..|stack| - 1];
    ElemsPop(stack);
    DistinctAppend(order, q);
    FrontierVisit(succ, visited, rest, q, next);
    ElemsConcat(rest, next);
  }

  /**
   * Depth-first exploration with an explicit stack and a visited set:
   * a state is emitted when it is first visited, and its successors are
   * pushed. Returns the states in the order they are emitted.
   */
  method DepthFirst<S(==)>(succ: S -> set<S>, u: set<S>, roots: seq<S>) returns (order: seq<S>)
    requires Elems(roots) <= u && MapsInto(succ, u)
    ensures |roots| > 0 ==> |order| > 0 && order[0] == roots[|roots| - 1]
    ensures Distinct(order)
    ensures Elems(order) == Reach(succ, u, Elems(roots))
  {
    ghost var reach := Reach(succ, u, Elems(roots));
    var stack := roots;
    var visited: set<S> := {};
    order := [];
    while |stack| > 0
      invariant DfsInvariant(succ, reach, roots, visited, order, stack)
      decreases |u - visited|, |stack|
    {
      var q := stack[|stack| - 1];
      if q in visited {
        DfsSkip(succ, reach, roots, visited, order, stack);
        stack := stack[..|stack| - 1];
      } else {
        Shrinks(u, visited, visited + {q});
        var next := SeqOfSet(succ(q));
        DfsVisit(succ, reach, roots, visited, order, stack, next);
        visited := visited + {q};
        order := order + [q];
        stack := stack[..|stack| - 1] + next;
      }
    }
    ReachLeast(succ, u, Elems(roots), visited);
  }
}
