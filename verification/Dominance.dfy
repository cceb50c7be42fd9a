/** Dominance and post-dominance, stated over paths, and the order theory they obey.

    Nothing here mentions how the sets are computed: these are the meanings that the
    fixpoint loops of the control-flow graph are proved to compute. */
module Dominance {
  import opened Paths

  // --- dominance ---------------------------------------------------------

  /** Some entry path ends at b, and a is on each one that does. */
  ghost predicate Dom<T(!new)>(g: Digraph<T>, entry: T, a: T, b: T) {
    && b in g
    && Connected(g, entry, b)
    && forall p :: PathFromTo(g, p, entry, b) ==> a in p
  }

  lemma DomReachable<T(!new)>(g: Digraph<T>, entry: T, a: T, b: T)
    requires Dom(g, entry, a, b)
    ensures a in g && Connected(g, entry, a)
  {
    var p :| PathFromTo(g, p, entry, b);
    PathNodes(g, p);
    var k :| 0 <= k < |p| && p[k] == a;
    PathPrefix(g, p, k);
  }

  lemma DomTransitive<T(!new)>(g: Digraph<T>, entry: T, a: T, b: T, c: T)
    requires Dom(g, entry, a, b) && Dom(g, entry, b, c)
    ensures Dom(g, entry, a, c)
  {
    forall p | PathFromTo(g, p, entry, c) ensures a in p {
      var k :| 0 <= k < |p| && p[k] == b;
      PathPrefix(g, p, k);
    }
  }

  lemma {:induction false} NoMutualPath<T(!new)>(g: Digraph<T>, entry: T, a: T, b: T, p: seq<T>)
    requires Dom(g, entry, a, b) && Dom(g, entry, b, a) && a != b
    ensures !PathFromTo(g, p, entry, a)
    decreases |p|
  {
    if PathFromTo(g, p, entry, a) {
      var k :| 0 <= k < |p| && p[k] == b;
      PathPrefix(g, p, k);
      NoMutualPath(g, entry, b, a, p[..k + 1]);
    }
  }

  lemma DomAntisymmetric<T(!new)>(g: Digraph<T>, entry: T, a: T, b: T)
    requires Dom(g, entry, a, b) && Dom(g, entry, b, a)
    ensures a == b
  {
    if a != b {
      var p :| PathFromTo(g, p, entry, a);
      NoMutualPath(g, entry, a, b, p);
    }
  }

  /** A block a does not dominate can be arrived at without touching a. */
  lemma NotDomAvoids<T(!new)>(g: Digraph<T>, entry: T, a: T, b: T)
    requires b in g && Connected(g, entry, b) && !Dom(g, entry, a, b)
    ensures ConnectedAvoiding(g, entry, b, a)
  {
  }

  /** If a path arrives at a avoiding b, and a leads to c avoiding b, b does not dominate c. */
  lemma AvoidingThrough<T(!new)>(g: Digraph<T>, entry: T, a: T, b: T, c: T)
    requires ConnectedAvoiding(g, entry, a, b) && ConnectedAvoiding(g, a, c, b)
    ensures ConnectedAvoiding(g, entry, c, b)
    ensures !Dom(g, entry, b, c)
  {
    var p :| PathFromTo(g, p, entry, a) && b !in p;
    var q :| PathFromTo(g, q, a, c) && b !in q;
    var r := PathJoin(g, p, q);
  }

  /** The dominators of one block are totally ordered, which is what makes them a tree. */
  lemma DominatorsFormChain<T(!new)>(g: Digraph<T>, entry: T, a: T, b: T, c: T)
    requires Dom(g, entry, a, c) && Dom(g, entry, b, c)
    ensures Dom(g, entry, a, b) || Dom(g, entry, b, a)
  {
    if !Dom(g, entry, a, b) && !Dom(g, entry, b, a) {
      DomReachable(g, entry, a, c);
      DomReachable(g, entry, b, c);
      NotDomAvoids(g, entry, a, b);
      NotDomAvoids(g, entry, b, a);
      var p :| PathFromTo(g, p, entry, c);
      var k := LastOccurrence(p, a, b);
      PathSuffix(g, p, k);
      if p[k] == a {
        assert b !in p[k..];
        AvoidingThrough(g, entry, a, b, c);
      } else {
        assert a !in p[k..];
        AvoidingThrough(g, entry, b, a, c);
      }
    }
  }

  /** A block that control has left a for, for the last time, is reached from a without
      touching anything a's dominators hold back. */
  lemma DomSuffixAvoids<T(!new)>(g: Digraph<T>, entry: T, outer: T, inner: T, x: T)
    requires Dom(g, entry, outer, inner) && Dom(g, entry, inner, x) && outer != inner
    ensures ConnectedAvoiding(g, inner, x, outer)
  {
    var p :| PathFromTo(g, p, entry, x);
    var k := LastOccurrence(p, inner, inner);
    PathSuffix(g, p, k);
    if outer in p[k..] {
      var m :| 0 <= m < |p[k..]| && p[k..][m] == outer;
      PathSuffix(g, p, k + m);
      assert p[k + m] == outer;
      assert inner !in p[k + m..];
      DomReachable(g, entry, outer, inner);
      if Dom(g, entry, inner, outer) {
        DomAntisymmetric(g, entry, outer, inner);
      }
      NotDomAvoids(g, entry, inner, outer);
      AvoidingThrough(g, entry, outer, inner, x);
    }
  }

  // --- post-dominance ----------------------------------------------------

  /** A block no control leaves for another block of the function. */
  ghost predicate Terminal<T(!new)>(g: Digraph<T>, n: T) {
    n in g && forall s :: s in g[n] ==> s !in g
  }

  ghost predicate PathOut<T(!new)>(g: Digraph<T>, p: seq<T>, n: T) {
    IsPath(g, p) && p[0] == n && Terminal(g, p[|p| - 1])
  }

  /** Every path from n out of the function passes through a. Vacuous for a block from
      which control never leaves. */
  ghost predicate PostDom<T(!new)>(g: Digraph<T>, a: T, n: T) {
    && a in g && n in g
    && forall p :: PathOut(g, p, n) ==> a in p
  }

  lemma PostDomReflexive<T(!new)>(g: Digraph<T>, a: T)
    requires a in g
    ensures PostDom(g, a, a)
  {
  }

  /** Post-dominance one edge at a time: a post-dominates n exactly when it is n, or n has
      somewhere to go and a post-dominates everywhere n can go. */
  lemma PostDomUnfold<T(!new)>(g: Digraph<T>, a: T, n: T)
    requires a in g && n in g
    ensures PostDom(g, a, n) <==>
            a == n || (!Terminal(g, n) && forall s :: s in g[n] && s in g ==> PostDom(g, a, s))
  {
    assert Terminal(g, n) ==> PathOut(g, [n], n);
    if PostDom(g, a, n) && a != n {
      forall s | s in g[n] && s in g ensures PostDom(g, a, s) {
        forall p | PathOut(g, p, s) ensures a in p {
          PathCons(g, n, p);
          assert PathOut(g, [n] + p, n);
        }
      }
    }
    if a != n && !Terminal(g, n) && forall s :: s in g[n] && s in g ==> PostDom(g, a, s) {
      forall p | PathOut(g, p, n) ensures a in p {
        if |p| > 1 {
          PathNodes(g, p);
          assert Edge(g, p[0], p[1]);
          assert p[1] in p;
          PathSuffix(g, p, 1);
          assert PathOut(g, p[1..], p[1]);
        }
      }
    }
  }
}
