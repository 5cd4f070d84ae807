/** Equivalence closure of a finite set of pairs, the meaning of "connected" everywhere in this project.

  `Linked` is the textbook reading: a walk along the pairs, in either direction. `LinkedIffLabelled`
  gives the characterisation the proofs use: two ids are linked exactly when no labelling that is
  constant along every pair can tell them apart. */
module Equivalence {

  type Edge = (nat, nat)

  ghost predicate Adjacent(E: set<Edge>, a: nat, b: nat) {
    (a, b) in E || (b, a) in E
  }

  ghost predicate IsPath(E: set<Edge>, p: seq<nat>) {
    |p| > 0 && forall i :: 0 <= i < |p| - 1 ==> Adjacent(E, p[i], p[i + 1])
  }

  ghost predicate Linked(E: set<Edge>, a: nat, b: nat) {
    exists p :: IsPath(E, p) && p[0] == a && p[|p| - 1] == b
  }

  ghost predicate Respects(f: nat -> int, E: set<Edge>) {
    forall e :: e in E ==> f(e.0) == f(e.1)
  }

  lemma LinkedRefl(E: set<Edge>, a: nat)
    ensures Linked(E, a, a)
  {
    assert IsPath(E, [a]);
  }

  lemma LinkedStep(E: set<Edge>, a: nat, b: nat, c: nat)
    requires Linked(E, a, b) && Adjacent(E, b, c)
    ensures Linked(E, a, c)
  {
    var p :| IsPath(E, p) && p[0] == a && p[|p| - 1] == b;
    assert IsPath(E, p + [c]);
  }

  lemma {:induction false} PathKeepsLabel(E: set<Edge>, f: nat -> int, p: seq<nat>)
    requires IsPath(E, p) && Respects(f, E)
    ensures f(p[0]) == f(p[|p| - 1])
  {
    if |p| > 1 {
      var q := p[..|p| - 1];
      assert Adjacent(E, p[|p| - 2], p[|p| - 2 + 1]);
      PathKeepsLabel(E, f, q);
    }
  }

  // The closure is the least equivalence: ids are linked iff every labelling that is constant on
  // each pair gives them the same label.
  lemma LinkedIffLabelled(E: set<Edge>, a: nat, b: nat)
    ensures Linked(E, a, b) <==> forall f: nat -> int :: Respects(f, E) ==> f(a) == f(b)
  {
    if Linked(E, a, b) {
      var p :| IsPath(E, p) && p[0] == a && p[|p| - 1] == b;
      forall f: nat -> int | Respects(f, E) ensures f(a) == f(b) {
        PathKeepsLabel(E, f, p);
      }
    } else {
      var f := (x: nat) => if Linked(E, a, x) then 1 else 0;
      forall e | e in E ensures f(e.0) == f(e.1) {
        if Linked(E, a, e.0) {
          LinkedStep(E, a, e.0, e.1);
        }
        if Linked(E, a, e.1) {
          LinkedStep(E, a, e.1, e.0);
        }
      }
      LinkedRefl(E, a);
      assert Respects(f, E) && f(a) != f(b);
    }
  }

  // Two pair sets that no labelling can tell apart have the same closure.
  lemma SameLabellingsSameClosure(E: set<Edge>, F: set<Edge>)
    requires forall f: nat -> int :: Respects(f, E) <==> Respects(f, F)
    ensures forall a: nat, b: nat :: Linked(E, a, b) <==> Linked(F, a, b)
  {
    forall a: nat, b: nat ensures Linked(E, a, b) <==> Linked(F, a, b) {
      LinkedIffLabelled(E, a, b);
      LinkedIffLabelled(F, a, b);
    }
  }
}
