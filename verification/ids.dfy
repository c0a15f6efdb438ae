/**
 * Node identifiers of the build contexts: an interned IRI or a blank node
 * label, both as indices.  Identifier maps are ordered: every IRI comes
 * before every blank node, and indices order each kind.
 */
module Ids {

  datatype Id = Iri(iri: nat) | Blank(blank: nat)

  predicate IdLe(a: Id, b: Id) {
    match (a, b)
    case (Iri(x), Iri(y)) => x <= y
    case (Iri(_), Blank(_)) => true
    case (Blank(_), Iri(_)) => false
    case (Blank(x), Blank(y)) => x <= y
  }

  lemma IdLeTotal(a: Id, b: Id)
    ensures IdLe(a, b) || IdLe(b, a)
    ensures IdLe(a, b) && IdLe(b, a) ==> a == b
  {
  }

  /** A non-empty set of identifiers has a least one. */
  lemma {:induction false} HasLeast(s: set<Id>)
    requires s != {}
    ensures exists m :: m in s && forall x :: x in s ==> IdLe(m, x)
    decreases |s|
  {
    var a :| a in s;
    var rest := s - {a};
    if rest == {} {
      forall x | x in s ensures IdLe(a, x) {
        assert x !in rest;
      }
    } else {
      HasLeast(rest);
      var m :| m in rest && forall x :: x in rest ==> IdLe(m, x);
      if IdLe(m, a) {
        assert forall x :: x in s ==> IdLe(m, x);
      } else {
        IdLeTotal(m, a);
        assert forall x :: x in s ==> IdLe(a, x) by {
          forall x | x in s ensures IdLe(a, x) {
            if x != a {
              assert IdLe(m, x);
            }
          }
        }
      }
    }
  }

  /** The first identifier of a set, in map order. */
  function Least(s: set<Id>): (m: Id)
    requires s != {}
    ensures m in s && forall x :: x in s ==> IdLe(m, x)
  {
    HasLeast(s);
    var m :| m in s && forall x :: x in s ==> IdLe(m, x);
    assert forall n :: n in s && (forall x :: x in s ==> IdLe(n, x)) ==> n == m by {
      forall n | n in s && (forall x :: x in s ==> IdLe(n, x)) ensures n == m {
        IdLeTotal(n, m);
      }
    }
    m
  }
}
