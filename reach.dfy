/** Paths, reachability and cycles over an adjacency map from an identifier to the set of
    identifiers it has an edge to. Every traversal of the decision graph is stated against
    these definitions. */
module Reach {

  type Adj = map<string, set<string>>

  predicate Edge(adj: Adj, u: string, v: string) {
    u in adj && v in adj[u]
  }

  /** A non-empty sequence in which each identifier has an edge to the next. */
  ghost predicate IsPath(adj: Adj, p: seq<string>) {
    |p| >= 1 && forall i :: 0 <= i < |p| - 1 ==> Edge(adj, p[i], p[i + 1])
  }

  /** `b` is reachable from `a` in zero or more steps. */
  ghost predicate Reaches(adj: Adj, a: string, b: string) {
    exists p :: IsPath(adj, p) && p[0] == a && p[|p| - 1] == b
  }

  /** `b` is reachable from `a` in one or more steps. */
  ghost predicate ReachesPlus(adj: Adj, a: string, b: string) {
    exists p :: IsPath(adj, p) && |p| >= 2 && p[0] == a && p[|p| - 1] == b
  }

  /** A path of at least one edge that ends where it starts. */
  ghost predicate IsCycle(adj: Adj, p: seq<string>) {
    IsPath(adj, p) && |p| >= 2 && p[0] == p[|p| - 1]
  }

  ghost predicate HasCycle(adj: Adj) {
    exists p :: IsCycle(adj, p)
  }

  /** Every edge out of `s` stays in `s`. */
  ghost predicate Closed(adj: Adj, s: set<string>) {
    forall u, v :: u in s && Edge(adj, u, v) ==> v in s
  }

  lemma ReachesRefl(adj: Adj, a: string)
    ensures Reaches(adj, a, a)
  {
    assert IsPath(adj, [a]);
  }

  lemma ReachesStep(adj: Adj, a: string, b: string, c: string)
    requires Reaches(adj, a, b) && Edge(adj, b, c)
    ensures Reaches(adj, a, c) && ReachesPlus(adj, a, c)
  {
    var p :| IsPath(adj, p) && p[0] == a && p[|p| - 1] == b;
    var q := p + [c];
    assert IsPath(adj, q);
  }

  lemma EdgeThenReaches(adj: Adj, a: string, b: string, c: string)
    requires Edge(adj, a, b) && Reaches(adj, b, c)
    ensures ReachesPlus(adj, a, c)
  {
    var p :| IsPath(adj, p) && p[0] == b && p[|p| - 1] == c;
    var q := [a] + p;
    assert IsPath(adj, q);
  }

  /** A path that starts in a closed set never leaves it. */
  lemma {:induction false} ClosedPath(adj: Adj, s: set<string>, p: seq<string>, k: nat)
    requires Closed(adj, s) && IsPath(adj, p) && p[0] in s && k < |p|
    ensures p[k] in s
  {
    if k > 0 {
      ClosedPath(adj, s, p, k - 1);
      assert Edge(adj, p[k - 1], p[k]);
    }
  }

  /** What a closed set holds, it holds with everything reachable from it. */
  lemma ClosedReaches(adj: Adj, s: set<string>, a: string, b: string)
    requires Closed(adj, s) && a in s && Reaches(adj, a, b)
    ensures b in s
  {
    var p :| IsPath(adj, p) && p[0] == a && p[|p| - 1] == b;
    ClosedPath(adj, s, p, |p| - 1);
  }

  /** One step followed by zero or more is one or more, and conversely. */
  lemma ReachesPlusSplit(adj: Adj, a: string, c: string)
    requires ReachesPlus(adj, a, c)
    ensures exists b :: Edge(adj, a, b) && Reaches(adj, b, c)
  {
    var p :| IsPath(adj, p) && |p| >= 2 && p[0] == a && p[|p| - 1] == c;
    assert IsPath(adj, p[1..]) && p[1..][0] == p[1];
    assert Edge(adj, a, p[1]);
  }

  /** A record none of whose successors can reach it back, all of them lying in a closed set
      without it, is on no cycle. */
  lemma NoCycleThrough(adj: Adj, s: set<string>, u: string)
    requires Closed(adj, s) && u !in s
    requires forall v :: Edge(adj, u, v) ==> v in s
    ensures !ReachesPlus(adj, u, u)
  {
    forall p | IsPath(adj, p) && |p| >= 2 && p[0] == u ensures p[|p| - 1] != u {
      assert Edge(adj, p[0], p[1]);
      assert IsPath(adj, p[1..]) && p[1..][0] == p[1];
      ClosedPath(adj, s, p[1..], |p| - 2);
    }
  }

  lemma ProperSubsetCard<T>(a: set<T>, b: set<T>)
    requires a < b
    ensures |a| < |b|
  {
    var x :| x in b && x !in a;
    assert b == a + (b - a) && a * (b - a) == {};
    assert x in b - a;
  }

  lemma SubsetCard<T>(a: set<T>, b: set<T>)
    requires a <= b
    ensures |a| <= |b|
  {
    if a != b {
      ProperSubsetCard(a, b);
    }
  }

  lemma SubsetMinusCard<T>(a: set<T>, b: set<T>, x: T)
    requires a <= b - {x} && x in b
    ensures |a| < |b|
  {
    assert a < b by {
      assert x in b && x !in a;
    }
    ProperSubsetCard(a, b);
  }

  /** A graph is acyclic when every identifier with out-edges is in a set none of whose members
      lies on a cycle. */
  lemma AcyclicFromCover(adj: Adj, s: set<string>)
    requires forall u :: u in adj ==> u in s
    requires forall b :: b in s ==> !ReachesPlus(adj, b, b)
    ensures !HasCycle(adj)
  {
    forall p | IsCycle(adj, p) ensures false {
      assert Edge(adj, p[0], p[1]);
      assert ReachesPlus(adj, p[0], p[0]);
    }
  }
}
