/** The iterative set intersection behind both dominator analyses.

    Each block holds the set of blocks that may still turn out to be unavoidable. A step
    replaces one block's set by itself plus what every neighbour agrees on. The sets only
    ever shrink, they never lose a block that really is unavoidable, and once no step
    changes anything they hold nothing else. */
module Dataflow {
  import opened Paths
  import opened Dominance

  type Sets<T> = map<T, set<T>>

  /** What one step puts in n's set. */
  ghost predicate InStep<T(!new)>(g: Digraph<T>, x: Sets<T>, n: T, a: T)
    requires n in g && x.Keys == g.Keys
  {
    a == n || (!Terminal(g, n) && forall s :: s in g[n] && s in g ==> a in x[s])
  }

  ghost predicate IsStep<T(!new)>(g: Digraph<T>, x: Sets<T>, n: T, next: set<T>)
    requires n in g && x.Keys == g.Keys
  {
    forall a :: a in next <==> InStep(g, x, n, a)
  }

  /** The invariant of the iteration, for sets over the blocks of g: nothing unavoidable
      has been dropped, and no step would add anything. */
  ghost predicate Narrowing<T(!new)>(g: Digraph<T>, x: Sets<T>) {
    && x.Keys == g.Keys
    && (forall a, n :: PostDom(g, a, n) ==> a in x[n])
    && (forall n, a :: n in g && InStep(g, x, n, a) ==> a in x[n])
    && (forall n, a :: n in g && a in x[n] ==> a in g)
  }

  ghost function Pairs<T>(x: Sets<T>): set<(T, T)> {
    set n, a | n in x && a in x[n] :: (n, a)
  }

  lemma StepKeepsUnavoidable<T(!new)>(g: Digraph<T>, x: Sets<T>, n: T, next: set<T>)
    requires Narrowing(g, x) && n in g && IsStep(g, x, n, next)
    ensures forall a :: PostDom(g, a, n) ==> a in next
  {
    forall a | PostDom(g, a, n) ensures a in next {
      PostDomUnfold(g, a, n);
      assert InStep(g, x, n, a);
    }
  }

  lemma StepNarrows<T(!new)>(g: Digraph<T>, x: Sets<T>, n: T, next: set<T>)
    requires Narrowing(g, x) && n in g && IsStep(g, x, n, next)
    ensures next <= x[n]
    ensures Narrowing(g, x[n := next])
    ensures next != x[n] ==> Pairs(x[n := next]) < Pairs(x)
  {
    StepKeepsUnavoidable(g, x, n, next);
    var y := x[n := next];
    forall a | a in next ensures a in x[n] {
      assert InStep(g, x, n, a);
    }
    forall m, a | m in g && InStep(g, y, m, a) ensures a in y[m] {
      assert InStep(g, x, m, a);
      if m == n { assert a in next; }
    }
    if next != x[n] {
      var a :| a in x[n] && a !in next;
      assert (n, a) in Pairs(x) && (n, a) !in Pairs(y);
    }
  }

  lemma {:induction false} StableHoldsOnPath<T(!new)>(g: Digraph<T>, x: Sets<T>, a: T, p: seq<T>)
    requires Narrowing(g, x) && forall n :: n in g ==> IsStep(g, x, n, x[n])
    requires IsPath(g, p) && Terminal(g, p[|p| - 1])
    requires p[0] in g && a in x[p[0]]
    ensures a in p
    decreases |p|
  {
    assert InStep(g, x, p[0], a);
    if a != p[0] {
      PathNodes(g, p);
      assert Edge(g, p[0], p[1]) && p[1] in p;
      PathSuffix(g, p, 1);
      StableHoldsOnPath(g, x, a, p[1..]);
    }
  }

  /** When no step changes anything, each set is exactly what its block cannot avoid. */
  lemma StableIsUnavoidable<T(!new)>(g: Digraph<T>, x: Sets<T>)
    requires Narrowing(g, x) && forall n :: n in g ==> IsStep(g, x, n, x[n])
    ensures forall n, a :: n in g ==> (a in x[n] <==> PostDom(g, a, n))
  {
    forall n, a | n in g && a in x[n] ensures PostDom(g, a, n) {
      forall p | PathOut(g, p, n) ensures a in p {
        StableHoldsOnPath(g, x, a, p);
      }
    }
  }

  // --- dominance is post-dominance of the reversed graph -----------------

  ghost function Reversed<T>(p: seq<T>): (r: seq<T>)
    ensures |r| == |p|
  {
    seq(|p|, i requires 0 <= i < |p| => p[|p| - 1 - i])
  }

  lemma ReversedHolds<T>(p: seq<T>, a: T)
    ensures a in Reversed(p) <==> a in p
  {
    if a in p {
      var k :| 0 <= k < |p| && p[k] == a;
      assert Reversed(p)[|p| - 1 - k] == a;
    }
  }

  /** r turns round the edges of g between the blocks control can arrive at, and stops at
      the entry. */
  ghost predicate ReversesFrom<T(!new)>(g: Digraph<T>, entry: T, r: Digraph<T>) {
    && (forall n :: n in r <==> n in g && Connected(g, entry, n))
    && (forall n, m :: Edge(r, n, m) <==>
          n != entry && n in r && Edge(g, m, n) && Connected(g, entry, m))
  }

  lemma ReversedOnlyEntryTerminal<T(!new)>(g: Digraph<T>, entry: T, r: Digraph<T>, n: T)
    requires ReversesFrom(g, entry, r) && n in r
    ensures Terminal(r, n) <==> n == entry
  {
    if n != entry {
      var p :| PathFromTo(g, p, entry, n);
      var m := p[|p| - 2];
      assert Edge(g, m, n);
      PathPrefix(g, p, |p| - 2);
      assert Edge(r, n, m) && m in r;
    } else {
      assert forall s :: s in r[n] ==> Edge(r, n, s);
    }
  }

  lemma ReversedPathForward<T(!new)>(g: Digraph<T>, entry: T, r: Digraph<T>, p: seq<T>, b: T)
    requires ReversesFrom(g, entry, r) && PathOut(r, p, b)
    ensures PathFromTo(g, Reversed(p), entry, b)
  {
    ReversedOnlyEntryTerminal(g, entry, r, p[|p| - 1]);
    var q := Reversed(p);
    forall i, j {:trigger q[i], q[j]} | 0 <= i && j == i + 1 < |q| ensures Edge(g, q[i], q[j]) {
      assert Edge(r, p[|p| - 1 - j], p[|p| - 1 - i]);
    }
  }

  lemma ForwardPathReversed<T(!new)>(g: Digraph<T>, entry: T, r: Digraph<T>, p: seq<T>, b: T)
    requires ReversesFrom(g, entry, r) && PathFromTo(g, p, entry, b) && b in g
    requires forall i :: 0 < i < |p| ==> p[i] != entry
    ensures PathOut(r, Reversed(p), b)
  {
    var q := Reversed(p);
    PathNodes(g, p);
    forall i | 0 <= i < |p| ensures p[i] in r {
      PathPrefix(g, p, i);
    }
    forall i, j {:trigger q[i], q[j]} | 0 <= i && j == i + 1 < |q| ensures Edge(r, q[i], q[j]) {
      assert Edge(g, p[|p| - 1 - j], p[|p| - 1 - i]);
      assert p[|p| - 1 - j] in r;
    }
    ReversedOnlyEntryTerminal(g, entry, r, entry);
  }

  lemma DominanceReversed<T(!new)>(g: Digraph<T>, entry: T, r: Digraph<T>, a: T, b: T)
    requires ReversesFrom(g, entry, r)
    ensures PostDom(r, a, b) <==> Dom(g, entry, a, b)
  {
    if PostDom(r, a, b) {
      forall p | PathFromTo(g, p, entry, b) ensures a in p {
        var k := LastOccurrence(p, entry, entry);
        PathSuffix(g, p, k);
        ForwardPathReversed(g, entry, r, p[k..], b);
        ReversedHolds(p[k..], a);
      }
    }
    if Dom(g, entry, a, b) {
      DomReachable(g, entry, a, b);
      forall p | PathOut(r, p, b) ensures a in p {
        ReversedPathForward(g, entry, r, p, b);
        ReversedHolds(p, a);
      }
    }
  }
}
