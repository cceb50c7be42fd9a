/** Finite directed graphs and the paths through them.

    A graph is a map from a node to the list of its successors, which is how a lowered
    function stores its blocks. A successor need not be a node of the graph: a frontend may
    name a block it never emitted. Such a successor can be arrived at and never left. */
module Paths {

  type Digraph<T> = map<T, seq<T>>

  predicate Edge<T(==)>(g: Digraph<T>, a: T, b: T) {
    a in g && b in g[a]
  }

  ghost predicate IsPath<T>(g: Digraph<T>, p: seq<T>) {
    && |p| > 0
    && forall i, j {:trigger p[i], p[j]} :: 0 <= i && j == i + 1 < |p| ==> Edge(g, p[i], p[j])
  }

  ghost predicate PathFromTo<T>(g: Digraph<T>, p: seq<T>, a: T, b: T) {
    IsPath(g, p) && p[0] == a && p[|p| - 1] == b
  }

  /** Control can get from a to b along zero or more edges. */
  ghost predicate Connected<T(!new)>(g: Digraph<T>, a: T, b: T) {
    exists p :: PathFromTo(g, p, a, b)
  }

  /** Control can get from a to b along one or more edges. */
  ghost predicate ConnectedByEdges<T(!new)>(g: Digraph<T>, a: T, b: T) {
    exists p :: PathFromTo(g, p, a, b) && |p| > 1
  }

  /** Control can get from a to b along zero or more edges without touching x. */
  ghost predicate ConnectedAvoiding<T(!new)>(g: Digraph<T>, a: T, b: T, x: T) {
    exists p :: PathFromTo(g, p, a, b) && x !in p
  }

  ghost predicate Closed<T(!new)>(g: Digraph<T>, s: set<T>) {
    forall a, b :: a in s && Edge(g, a, b) ==> b in s
  }

  lemma PathPrefix<T(!new)>(g: Digraph<T>, p: seq<T>, k: nat)
    requires IsPath(g, p) && k < |p|
    ensures PathFromTo(g, p[..k + 1], p[0], p[k])
    ensures forall x :: x in p[..k + 1] ==> x in p
  {
  }

  lemma PathSuffix<T(!new)>(g: Digraph<T>, p: seq<T>, k: nat)
    requires IsPath(g, p) && k < |p|
    ensures PathFromTo(g, p[k..], p[k], p[|p| - 1])
    ensures forall x :: x in p[k..] ==> x in p
  {
  }

  /** Two paths that meet end to start make one path, which touches nothing new. */
  lemma PathJoin<T(!new)>(g: Digraph<T>, p: seq<T>, q: seq<T>) returns (r: seq<T>)
    requires IsPath(g, p) && IsPath(g, q) && p[|p| - 1] == q[0]
    ensures r == p + q[1..]
    ensures PathFromTo(g, r, p[0], q[|q| - 1])
    ensures forall x :: x in r <==> x in p || x in q
  {
    r := p + q[1..];
    forall i, j {:trigger r[i], r[j]} | 0 <= i && j == i + 1 < |r| ensures Edge(g, r[i], r[j]) {
      if j < |p| {
        assert r[i] == p[i] && r[j] == p[j];
      } else {
        assert r[j] == q[j - |p| + 1] && r[i] == q[i - |p| + 1];
      }
    }
    forall x | x in q ensures x in r {
      var k :| 0 <= k < |q| && q[k] == x;
      assert r[|p| - 1 + k] == x;
    }
    forall x | x in p ensures x in r {
      var k :| 0 <= k < |p| && p[k] == x;
      assert r[k] == x;
    }
    assert r[|r| - 1] == q[|q| - 1];
  }

  lemma PathStep<T(!new)>(g: Digraph<T>, a: T, b: T)
    requires Edge(g, a, b)
    ensures PathFromTo(g, [a, b], a, b)
  {
  }

  lemma PathCons<T(!new)>(g: Digraph<T>, a: T, p: seq<T>)
    requires IsPath(g, p) && Edge(g, a, p[0])
    ensures PathFromTo(g, [a] + p, a, p[|p| - 1])
  {
    PathStep(g, a, p[0]);
    var r := PathJoin(g, [a, p[0]], p);
    assert r == [a] + p;
  }

  lemma PathSnoc<T(!new)>(g: Digraph<T>, p: seq<T>, b: T)
    requires IsPath(g, p) && Edge(g, p[|p| - 1], b)
    ensures PathFromTo(g, p + [b], p[0], b)
  {
    PathStep(g, p[|p| - 1], b);
    var r := PathJoin(g, p, [p[|p| - 1], b]);
    assert r == p + [b];
  }

  /** Every node a path leaves is a node of the graph. */
  lemma PathNodes<T(!new)>(g: Digraph<T>, p: seq<T>)
    requires IsPath(g, p)
    requires p[|p| - 1] in g
    ensures forall x :: x in p ==> x in g
  {
    forall x | x in p ensures x in g {
      var k :| 0 <= k < |p| && p[k] == x;
      if k + 1 < |p| { assert Edge(g, p[k], p[k + 1]); }
    }
  }

  /** The last place a path touches either of two nodes. */
  lemma LastOccurrence<T(!new)>(p: seq<T>, a: T, b: T) returns (k: nat)
    requires a in p || b in p
    ensures k < |p| && (p[k] == a || p[k] == b)
    ensures forall i :: k < i < |p| ==> p[i] != a && p[i] != b
  {
    k := |p| - 1;
    while p[k] != a && p[k] != b
      invariant k < |p|
      invariant forall i :: k < i < |p| ==> p[i] != a && p[i] != b
      decreases k
    {
      k := k - 1;
    }
  }

  /** A set that holds a path's start and is closed under edges holds the whole path. */
  lemma {:induction false} ClosedHoldsPath<T(!new)>(g: Digraph<T>, s: set<T>, p: seq<T>)
    requires Closed(g, s) && IsPath(g, p) && p[0] in s
    ensures forall x :: x in p ==> x in s
  {
    var k := 0;
    while k < |p| - 1
      invariant k < |p|
      invariant forall i :: 0 <= i <= k ==> p[i] in s
    {
      assert Edge(g, p[k], p[k + 1]);
      k := k + 1;
    }
  }

  /** One or more edges is one edge followed by zero or more. */
  lemma ConnectedByEdgesUnfold<T(!new)>(g: Digraph<T>, a: T, b: T)
    ensures ConnectedByEdges(g, a, b) <==> a in g && exists s :: s in g[a] && Connected(g, s, b)
  {
    if ConnectedByEdges(g, a, b) {
      var p :| PathFromTo(g, p, a, b) && |p| > 1;
      assert Edge(g, p[0], p[1]);
      PathSuffix(g, p, 1);
      assert Connected(g, p[1], b);
    }
    if a in g && exists s :: s in g[a] && Connected(g, s, b) {
      var s :| s in g[a] && Connected(g, s, b);
      var p :| PathFromTo(g, p, s, b);
      PathCons(g, a, p);
    }
  }

  lemma ConnectedTrans<T(!new)>(g: Digraph<T>, a: T, b: T, c: T)
    requires Connected(g, a, b) && Connected(g, b, c)
    ensures Connected(g, a, c)
  {
    var p :| PathFromTo(g, p, a, b);
    var q :| PathFromTo(g, q, b, c);
    var r := PathJoin(g, p, q);
  }

  lemma ConnectedSelf<T(!new)>(g: Digraph<T>, a: T)
    ensures Connected(g, a, a)
  {
    assert PathFromTo(g, [a], a, a);
  }

  lemma ConnectedEdge<T(!new)>(g: Digraph<T>, a: T, b: T, c: T)
    requires Connected(g, a, b) && Edge(g, b, c)
    ensures Connected(g, a, c)
  {
    PathStep(g, b, c);
    ConnectedTrans(g, a, b, c);
  }
}
