/** The worklist search every reachability question runs: take a node off the queue, skip it
    if it was seen, otherwise mark it and queue what it leads to. */
module Worklist {
  import opened Paths

  /** b lies zero or more edges past one of the roots. */
  ghost predicate FromAny<T(!new)>(g: Digraph<T>, roots: seq<T>, b: T) {
    exists r :: r in roots && Connected(g, r, b)
  }

  function Next<T(==)>(g: Digraph<T>, a: T): seq<T> {
    if a in g then g[a] else []
  }

  /** Appending to one node's list adds one edge. */
  lemma AppendAddsEdge<T(!new)>(g: Digraph<T>, a: T, b: T)
    ensures forall x, y :: Edge(g[a := Next(g, a) + [b]], x, y) <==> Edge(g, x, y) || (x == a && y == b)
  {
    var list := Next(g, a) + [b];
    var h := g[a := list];
    forall x, y ensures Edge(h, x, y) <==> Edge(g, x, y) || (x == a && y == b) {
      if x == a {
        assert h[x] == list;
        assert y in list <==> y in Next(g, a) || y == b;
      }
    }
  }

  /** The invariant of the search: each root, and each node one edge past a seen node, is
      seen or queued, and nothing else is. */
  ghost predicate Explored<T(!new)>(g: Digraph<T>, roots: seq<T>, seen: set<T>, queue: seq<T>) {
    && (forall r :: r in roots ==> r in seen || r in queue)
    && (forall a, b :: a in seen && b in Next(g, a) ==> b in seen || b in queue)
    && (forall b :: b in seen || b in queue ==> FromAny(g, roots, b))
  }

  /** Everything a search from the roots could see. */
  ghost function Nodes<T>(g: Digraph<T>, roots: seq<T>): set<T> {
    (set r | r in roots) + (set a, b | a in g && b in g[a] :: b)
  }

  lemma HeadAndRest<T>(q: seq<T>)
    requires q != []
    ensures q == [q[0]] + q[1..]
  {
  }

  lemma TakeNext<T>(s: seq<T>, i: nat)
    requires i < |s|
    ensures s[..i + 1] == s[..i] + [s[i]]
  {
  }

  lemma DropNext<T>(s: seq<T>, i: nat)
    requires i < |s|
    ensures s[i..] == [s[i]] + s[i + 1..]
  {
  }

  lemma RestAndLast<T>(q: seq<T>)
    requires q != []
    ensures q == q[..|q| - 1] + [q[|q| - 1]]
  {
  }

  lemma ExploreStart<T(!new)>(g: Digraph<T>, roots: seq<T>)
    ensures Explored(g, roots, {}, roots)
  {
    forall r | r in roots ensures FromAny(g, roots, r) {
      ConnectedSelf(g, r);
    }
  }

  lemma ExploreSkip<T(!new)>(g: Digraph<T>, roots: seq<T>, seen: set<T>, id: T, rest: seq<T>)
    requires Explored(g, roots, seen, [id] + rest) && id in seen
    ensures Explored(g, roots, seen, rest)
  {
    var before := [id] + rest;
    assert forall b :: b in before <==> b == id || b in rest;
  }

  lemma NextFromAny<T(!new)>(g: Digraph<T>, roots: seq<T>, id: T)
    requires FromAny(g, roots, id)
    ensures id in Nodes(g, roots)
    ensures forall b :: b in Next(g, id) ==> FromAny(g, roots, b)
  {
    var r :| r in roots && Connected(g, r, id);
    forall b | b in Next(g, id) ensures FromAny(g, roots, b) {
      ConnectedEdge(g, r, id, b);
    }
    var p :| PathFromTo(g, p, r, id);
    if |p| > 1 {
      assert Edge(g, p[|p| - 2], p[|p| - 1]);
    }
  }

  lemma ExploreStep<T(!new)>(g: Digraph<T>, roots: seq<T>, seen: set<T>, id: T, rest: seq<T>)
    requires Explored(g, roots, seen, [id] + rest) && id !in seen
    ensures Explored(g, roots, seen + {id}, rest + Next(g, id))
    ensures id in Nodes(g, roots)
  {
    var before := [id] + rest;
    assert forall b :: b in before <==> b == id || b in rest;
    assert id in before;
    NextFromAny(g, roots, id);
    var after := rest + Next(g, id);
    assert forall b :: b in after <==> b in rest || b in Next(g, id);
  }

  lemma ExploreDone<T(!new)>(g: Digraph<T>, roots: seq<T>, seen: set<T>)
    requires Explored(g, roots, seen, [])
    ensures forall b :: b in seen <==> FromAny(g, roots, b)
  {
    forall r, b | r in roots && Connected(g, r, b) ensures b in seen {
      var p :| PathFromTo(g, p, r, b);
      assert forall x, y :: x in seen && Edge(g, x, y) ==> y in Next(g, x);
      ClosedHoldsPath(g, seen, p);
    }
  }

  /** Exactly what control can arrive at from the root. */
  ghost predicate ReachSet<T(!new)>(g: Digraph<T>, root: T, seen: set<T>) {
    forall b :: b in seen <==> Connected(g, root, b)
  }

  lemma ExploreDoneFrom<T(!new)>(g: Digraph<T>, root: T, seen: set<T>)
    requires Explored(g, [root], seen, [])
    ensures ReachSet(g, root, seen)
  {
    ExploreDone(g, [root], seen);
    forall b ensures FromAny(g, [root], b) <==> Connected(g, root, b) {
      if Connected(g, root, b) {
        assert root in [root];
      }
    }
  }
}
