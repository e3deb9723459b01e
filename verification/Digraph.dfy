/** Finite directed graphs, given by their set of edges, and reachability in them. */
module Digraph {

  ghost predicate ReachesIn<T>(g: set<(T, T)>, x: T, y: T, n: nat) {
    if n == 0 then x == y else exists e {:trigger e in g} | e in g :: e.0 == x && ReachesIn(g, e.1, y, n - 1)
  }

  /** Some path of edges of `g`, possibly empty, leads from `x` to `y`. */
  ghost predicate Reaches<T>(g: set<(T, T)>, x: T, y: T) {
    exists n: nat :: ReachesIn(g, x, y, n)
  }

  ghost predicate ClosedUnder<T>(g: set<(T, T)>, s: set<T>) {
    forall e {:trigger e in g} | e in g :: e.0 in s ==> e.1 in s
  }

  lemma ReachesSelf<T>(g: set<(T, T)>, x: T)
    ensures Reaches(g, x, x)
  {
    assert ReachesIn(g, x, x, 0);
  }

  lemma Prepend<T>(g: set<(T, T)>, x: T, y: T, z: T)
    requires (x, y) in g && Reaches(g, y, z)
    ensures Reaches(g, x, z)
  {
    var n: nat :| ReachesIn(g, y, z, n);
    var e := (x, y);
    assert e in g && e.0 == x && ReachesIn(g, e.1, z, n);
    assert ReachesIn(g, x, z, n + 1);
  }

  lemma {:induction false} JoinIn<T>(g: set<(T, T)>, x: T, y: T, z: T, n: nat)
    requires ReachesIn(g, x, y, n) && Reaches(g, y, z)
    ensures Reaches(g, x, z)
    decreases n
  {
    if n > 0 {
      var e {:trigger e in g} :| e in g && e.0 == x && ReachesIn(g, e.1, y, n - 1);
      JoinIn(g, e.1, y, z, n - 1);
      Prepend(g, x, e.1, z);
    }
  }

  lemma Join<T>(g: set<(T, T)>, x: T, y: T, z: T)
    requires Reaches(g, x, y) && Reaches(g, y, z)
    ensures Reaches(g, x, z)
  {
    var n: nat :| ReachesIn(g, x, y, n);
    JoinIn(g, x, y, z, n);
  }

  lemma Append<T>(g: set<(T, T)>, x: T, y: T, z: T)
    requires Reaches(g, x, y) && (y, z) in g
    ensures Reaches(g, x, z)
  {
    ReachesSelf(g, z);
    Prepend(g, y, z, z);
    Join(g, x, y, z);
  }

  lemma {:induction false} StaysInsideIn<T>(g: set<(T, T)>, s: set<T>, x: T, y: T, n: nat)
    requires ClosedUnder(g, s) && x in s && ReachesIn(g, x, y, n)
    ensures y in s
    decreases n
  {
    if n > 0 {
      var e {:trigger e in g} :| e in g && e.0 == x && ReachesIn(g, e.1, y, n - 1);
      StaysInsideIn(g, s, e.1, y, n - 1);
    }
  }

  /** A closed set cannot be left: the way every absence of a path is shown. */
  lemma StaysInside<T>(g: set<(T, T)>, s: set<T>, x: T, y: T)
    requires ClosedUnder(g, s) && x in s && Reaches(g, x, y)
    ensures y in s
  {
    var n: nat :| ReachesIn(g, x, y, n);
    StaysInsideIn(g, s, x, y, n);
  }

  lemma {:induction false} SubgraphIn<T>(g: set<(T, T)>, h: set<(T, T)>, x: T, y: T, n: nat)
    requires g <= h && ReachesIn(g, x, y, n)
    ensures ReachesIn(h, x, y, n)
    decreases n
  {
    if n > 0 {
      var e {:trigger e in g} :| e in g && e.0 == x && ReachesIn(g, e.1, y, n - 1);
      SubgraphIn(g, h, e.1, y, n - 1);
    }
  }

  lemma Subgraph<T>(g: set<(T, T)>, h: set<(T, T)>, x: T, y: T)
    requires g <= h && Reaches(g, x, y)
    ensures Reaches(h, x, y)
  {
    var n: nat :| ReachesIn(g, x, y, n);
    SubgraphIn(g, h, x, y, n);
  }
}
