/** Reachability in a finite graph, given as the map from each node to its successors. */
module Graphs {

  predicate Edge<K(==)>(g: map<K, set<K>>, a: K, b: K) {
    a in g && b in g[a]
  }

  ghost predicate IsPath<K>(g: map<K, set<K>>, p: seq<K>) {
    p != [] && forall i | 0 < i < |p| :: Edge(g, p[i - 1], p[i])
  }

  ghost predicate Reachable<K(!new)>(g: map<K, set<K>>, roots: set<K>, x: K) {
    exists p: seq<K> :: IsPath(g, p) && p[0] in roots && p[|p| - 1] == x
  }

  lemma ReachRoot<K(!new)>(g: map<K, set<K>>, roots: set<K>, x: K)
    requires x in roots
    ensures Reachable(g, roots, x)
  {
    assert IsPath(g, [x]);
  }

  lemma ReachStep<K(!new)>(g: map<K, set<K>>, roots: set<K>, x: K, y: K)
    requires Reachable(g, roots, x) && Edge(g, x, y)
    ensures Reachable(g, roots, y)
  {
    var p: seq<K> :| IsPath(g, p) && p[0] in roots && p[|p| - 1] == x;
    assert IsPath(g, p + [y]);
  }

  /** A set that holds the roots and is closed under edges holds everything reachable. */
  lemma {:induction false} PathStaysInside<K(!new)>(g: map<K, set<K>>, p: seq<K>, inside: set<K>)
    requires IsPath(g, p) && p[0] in inside
    requires forall a, b :: a in inside && Edge(g, a, b) ==> b in inside
    ensures p[|p| - 1] in inside
  {
    if |p| > 1 {
      var q := p[..|p| - 1];
      assert IsPath(g, q);
      PathStaysInside(g, q, inside);
      assert Edge(g, q[|q| - 1], p[|p| - 1]);
    }
  }

  lemma ReachStaysInside<K(!new)>(g: map<K, set<K>>, roots: set<K>, inside: set<K>)
    requires roots <= inside
    requires forall a, b :: a in inside && Edge(g, a, b) ==> b in inside
    ensures forall x :: Reachable(g, roots, x) ==> x in inside
  {
    forall x | Reachable(g, roots, x)
      ensures x in inside
    {
      var p: seq<K> :| IsPath(g, p) && p[0] in roots && p[|p| - 1] == x;
      PathStaysInside(g, p, inside);
    }
  }

  lemma ReachMonotone<K(!new)>(g: map<K, set<K>>, roots: set<K>, more: set<K>)
    requires roots <= more
    ensures forall x :: Reachable(g, roots, x) ==> Reachable(g, more, x)
  {
  }

  lemma ReachUnion<K(!new)>(g: map<K, set<K>>, a: set<K>, b: set<K>, x: K)
    ensures Reachable(g, a + b, x) <==> Reachable(g, a, x) || Reachable(g, b, x)
  {
  }

  lemma {:induction false} PathIsReachable<K(!new)>(g: map<K, set<K>>, roots: set<K>, p: seq<K>)
    requires IsPath(g, p) && Reachable(g, roots, p[0])
    ensures Reachable(g, roots, p[|p| - 1])
  {
    if |p| > 1 {
      var before := p[..|p| - 1];
      PathIsReachable(g, roots, before);
      ReachStep(g, roots, before[|before| - 1], p[|p| - 1]);
    }
  }

  /** What a reachable node leads to is reachable. */
  lemma ReachOn<K(!new)>(g: map<K, set<K>>, roots: set<K>, x: K, y: K)
    requires Reachable(g, roots, x) && Reachable(g, {x}, y)
    ensures Reachable(g, roots, y)
  {
    var p: seq<K> :| IsPath(g, p) && p[0] in {x} && p[|p| - 1] == y;
    PathIsReachable(g, roots, p);
  }

  /** A part is no larger than the whole. */
  lemma {:induction false} Smaller<T>(a: set<T>, b: set<T>)
    requires a <= b
    ensures |a| <= |b|
  {
    if a != {} {
      var x :| x in a;
      Smaller(a - {x}, b - {x});
    }
  }
}
