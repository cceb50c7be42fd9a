/** Natural loops: what it means for a block to repeat under a header, and why two loops
    are always nested or apart. */
module Loops {
  import opened Paths
  import opened Dominance

  /** An edge from s back to a header that dominates s. Any other edge into the header is
      the way in, not the way round. */
  ghost predicate BackEdge<T(!new)>(g: Digraph<T>, entry: T, h: T, s: T) {
    Edge(g, s, h) && Dom(g, entry, h, s)
  }

  ghost predicate IsLoop<T(!new)>(g: Digraph<T>, entry: T, h: T) {
    exists s :: BackEdge(g, entry, h, s)
  }

  /** x comes round to a back edge of h without going through h. */
  ghost predicate ComesRound<T(!new)>(g: Digraph<T>, entry: T, h: T, x: T) {
    exists s :: BackEdge(g, entry, h, s) && ConnectedAvoiding(g, x, s, h)
  }

  /** The natural loop of h: h itself, and every block control can arrive at which can come
      round to a back edge of h without going through h. Empty without a back edge. */
  ghost predicate InLoop<T(!new)>(g: Digraph<T>, entry: T, h: T, x: T) {
    && IsLoop(g, entry, h)
    && (x == h || (Connected(g, entry, x) && ComesRound(g, entry, h, x)))
  }

  /** Exactly the blocks of h's natural loop. */
  ghost predicate LoopSet<T(!new)>(g: Digraph<T>, entry: T, h: T, members: set<T>) {
    forall x :: x in members <==> InLoop(g, entry, h, x)
  }

  /** A header dominates every block of its loop: a loop has one way in. */
  lemma HeaderDominatesLoop<T(!new)>(g: Digraph<T>, entry: T, h: T, x: T)
    requires InLoop(g, entry, h, x)
    ensures Dom(g, entry, h, x)
  {
    var s0 :| BackEdge(g, entry, h, s0);
    DomReachable(g, entry, h, s0);
    if x != h {
      var s :| BackEdge(g, entry, h, s) && ConnectedAvoiding(g, x, s, h);
      var p :| PathFromTo(g, p, x, s) && h !in p;
      PathNodes(g, p);
      if !Dom(g, entry, h, x) {
        NotDomAvoids(g, entry, h, x);
        AvoidingThrough(g, entry, x, h, s);
      }
    }
  }

  /** One step backwards along an edge stays in the loop, short of the header. */
  lemma LoopStepBack<T(!new)>(g: Digraph<T>, entry: T, h: T, x: T, m: T)
    requires InLoop(g, entry, h, m) && m != h && Edge(g, x, m) && Connected(g, entry, x)
    ensures InLoop(g, entry, h, x)
  {
    if x != h {
      var s :| BackEdge(g, entry, h, s) && ConnectedAvoiding(g, m, s, h);
      var p :| PathFromTo(g, p, m, s) && h !in p;
      PathCons(g, x, p);
      assert h !in [x] + p;
    }
  }

  /** Control comes into a loop from outside only at its header. */
  lemma LoopEnteredAtHeader<T(!new)>(g: Digraph<T>, entry: T, h: T, x: T, m: T)
    requires InLoop(g, entry, h, m) && !InLoop(g, entry, h, x)
    requires Edge(g, x, m) && Connected(g, entry, x)
    ensures m == h
  {
    if m != h {
      LoopStepBack(g, entry, h, x, m);
    }
  }

  /** Every block on the way round is itself in the loop. */
  lemma OnTheWayRound<T(!new)>(g: Digraph<T>, entry: T, h: T, p: seq<T>, y: T)
    requires IsPath(g, p) && h !in p && Connected(g, entry, p[0])
    requires BackEdge(g, entry, h, p[|p| - 1])
    requires y in p
    ensures InLoop(g, entry, h, y)
  {
    var k :| 0 <= k < |p| && p[k] == y;
    PathPrefix(g, p, k);
    PathSuffix(g, p, k);
    ConnectedTrans(g, entry, p[0], y);
  }

  /** The header of an inner loop that shares a block with an outer one is in the outer
      loop, and so is the rest of the inner loop. */
  lemma InnerLoopInside<T(!new)>(g: Digraph<T>, entry: T, outer: T, inner: T, x: T, y: T)
    requires outer != inner && Dom(g, entry, outer, inner)
    requires InLoop(g, entry, outer, x) && InLoop(g, entry, inner, x)
    requires InLoop(g, entry, inner, y)
    ensures InLoop(g, entry, outer, y)
  {
    HeaderDominatesLoop(g, entry, inner, x);
    HeaderDominatesLoop(g, entry, inner, y);
    HeaderInside(g, entry, outer, inner, x);
    if y != inner {
      var s :| BackEdge(g, entry, inner, s) && ConnectedAvoiding(g, y, s, inner);
      var p :| PathFromTo(g, p, y, s) && inner !in p;
      if outer in p {
        OnTheWayRound(g, entry, inner, p, outer);
        HeaderDominatesLoop(g, entry, inner, outer);
        DomAntisymmetric(g, entry, outer, inner);
      }
      PathSnoc(g, p, inner);
      RoundThrough(g, entry, outer, inner, y, p + [inner]);
    }
  }

  lemma HeaderInside<T(!new)>(g: Digraph<T>, entry: T, outer: T, inner: T, x: T)
    requires outer != inner && Dom(g, entry, outer, inner)
    requires InLoop(g, entry, outer, x) && Dom(g, entry, inner, x)
    ensures InLoop(g, entry, outer, inner)
  {
    DomSuffixAvoids(g, entry, outer, inner, x);
    if x == outer {
      DomAntisymmetric(g, entry, outer, inner);
    } else {
      var p :| PathFromTo(g, p, inner, x) && outer !in p;
      RoundThrough(g, entry, outer, x, inner, p);
    }
  }

  /** A block that leads to a loop member without touching the header is a member. */
  lemma RoundThrough<T(!new)>(g: Digraph<T>, entry: T, h: T, m: T, y: T, p: seq<T>)
    requires InLoop(g, entry, h, m) && m != h
    requires PathFromTo(g, p, y, m) && h !in p && Connected(g, entry, y)
    ensures InLoop(g, entry, h, y)
  {
    var s :| BackEdge(g, entry, h, s) && ConnectedAvoiding(g, m, s, h);
    var q :| PathFromTo(g, q, m, s) && h !in q;
    var r := PathJoin(g, p, q);
  }

  ghost predicate LoopWithin<T(!new)>(g: Digraph<T>, entry: T, inner: T, outer: T) {
    forall y :: InLoop(g, entry, inner, y) ==> InLoop(g, entry, outer, y)
  }

  /** Two loops that share a block are one inside the other, and their headers are ordered
      by dominance the same way. */
  lemma LoopsNest<T(!new)>(g: Digraph<T>, entry: T, h1: T, h2: T, x: T)
    requires InLoop(g, entry, h1, x) && InLoop(g, entry, h2, x)
    ensures || (Dom(g, entry, h1, h2) && LoopWithin(g, entry, h2, h1))
            || (Dom(g, entry, h2, h1) && LoopWithin(g, entry, h1, h2))
  {
    HeaderDominatesLoop(g, entry, h1, x);
    HeaderDominatesLoop(g, entry, h2, x);
    DominatorsFormChain(g, entry, h1, h2, x);
    if h1 != h2 {
      if Dom(g, entry, h1, h2) {
        forall y | InLoop(g, entry, h2, y) ensures InLoop(g, entry, h1, y) {
          InnerLoopInside(g, entry, h1, h2, x, y);
        }
      } else {
        forall y | InLoop(g, entry, h1, y) ensures InLoop(g, entry, h2, y) {
          InnerLoopInside(g, entry, h2, h1, x, y);
        }
      }
    }
  }
}
