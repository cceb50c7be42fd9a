/** What can be derived by steps, and what a depth-first walk along them holds on the way. */
module Chains {

  /** Each entry is one step past the one before it. */
  ghost predicate Chain<T(!new)>(next: T -> seq<T>, p: seq<T>) {
    && p != []
    && forall i, j {:trigger p[i], p[j]} :: 0 <= i && j == i + 1 < |p| ==> p[j] in next(p[i])
  }

  ghost predicate ChainFromTo<T(!new)>(next: T -> seq<T>, p: seq<T>, a: T, b: T) {
    Chain(next, p) && p[0] == a && p[|p| - 1] == b
  }

  /** b is zero or more steps past a. */
  ghost predicate Derives<T(!new)>(next: T -> seq<T>, a: T, b: T) {
    exists p :: ChainFromTo(next, p, a, b)
  }

  lemma DerivesSelf<T(!new)>(next: T -> seq<T>, a: T)
    ensures Derives(next, a, a)
  {
    assert ChainFromTo(next, [a], a, a);
  }

  lemma DerivesFirst<T(!new)>(next: T -> seq<T>, a: T, b: T, c: T)
    requires b in next(a) && Derives(next, b, c)
    ensures Derives(next, a, c)
  {
    var p :| ChainFromTo(next, p, b, c);
    var q := [a] + p;
    forall i, j {:trigger q[i], q[j]} | 0 <= i && j == i + 1 < |q| ensures q[j] in next(q[i]) {
      if i > 0 { assert q[i] == p[i - 1] && q[j] == p[j - 1]; }
    }
    assert ChainFromTo(next, q, a, c);
  }

  lemma DerivesLast<T(!new)>(next: T -> seq<T>, a: T, b: T, c: T)
    requires Derives(next, a, b) && c in next(b)
    ensures Derives(next, a, c)
  {
    var p :| ChainFromTo(next, p, a, b);
    var q := p + [c];
    forall i, j {:trigger q[i], q[j]} | 0 <= i && j == i + 1 < |q| ensures q[j] in next(q[i]) {
      if j < |p| { assert q[i] == p[i] && q[j] == p[j]; }
    }
    assert ChainFromTo(next, q, a, c);
  }

  lemma ChainPrefix<T(!new)>(next: T -> seq<T>, p: seq<T>)
    requires Chain(next, p) && |p| > 1
    ensures ChainFromTo(next, p[..|p| - 1], p[0], p[|p| - 2]) && p[|p| - 1] in next(p[|p| - 2])
  {
  }

  ghost predicate ClosedUnder<T(!new)>(next: T -> seq<T>, s: set<T>) {
    forall a, b :: a in s && b in next(a) ==> b in s
  }

  lemma StepInside<T(!new)>(next: T -> seq<T>, s: set<T>, a: T, b: T)
    requires ClosedUnder(next, s) && a in s && b in next(a)
    ensures b in s
  {
  }

  /** A set closed under steps holds everything derivable from what it holds. */
  lemma ClosedHoldsDerived<T(!new)>(next: T -> seq<T>, s: set<T>, a: T, b: T)
    requires ClosedUnder(next, s) && a in s && Derives(next, a, b)
    ensures b in s
  {
    var p :| ChainFromTo(next, p, a, b);
    var k := 0;
    while k < |p| - 1
      invariant 0 <= k < |p| && p[k] in s
    {
      assert p[k + 1] in next(p[k]);
      k := k + 1;
    }
  }

  /** What one call of a walk added: everything is derivable from where it started, and
      nothing added still has a step to take. */
  ghost predicate Added<T(!new)>(next: T -> seq<T>, before: set<T>, visited: set<T>, from: T) {
    && before <= visited
    && (forall n :: n in visited && n !in before ==> Derives(next, from, n))
    && (forall n, m :: n in visited && n !in before && m in next(n) ==> m in visited)
  }

  /** The same, part of the way through one node's steps. */
  ghost predicate Progress<T(!new)>(next: T -> seq<T>, before: set<T>, visited: set<T>, n: T, i: nat) {
    && i <= |next(n)| && n in visited && before <= visited
    && (forall k :: 0 <= k < i ==> next(n)[k] in visited)
    && (forall m :: m in visited && m !in before ==> Derives(next, n, m))
    && (forall m, k :: m in visited && m !in before && m != n && k in next(m) ==> k in visited)
  }

  lemma ProgressStart<T(!new)>(next: T -> seq<T>, before: set<T>, n: T)
    ensures Progress(next, before, before + {n}, n, 0)
  {
    DerivesSelf(next, n);
  }

  lemma ProgressNext<T(!new)>(next: T -> seq<T>, before: set<T>, sofar: set<T>, visited: set<T>, n: T, i: nat)
    requires Progress(next, before, sofar, n, i) && i < |next(n)|
    requires next(n)[i] in visited && Added(next, sofar, visited, next(n)[i])
    ensures Progress(next, before, visited, n, i + 1)
  {
    forall m | m in visited && m !in before ensures Derives(next, n, m) {
      if m !in sofar {
        DerivesFirst(next, n, next(n)[i], m);
      }
    }
  }

  lemma ProgressDone<T(!new)>(next: T -> seq<T>, before: set<T>, visited: set<T>, n: T)
    requires Progress(next, before, visited, n, |next(n)|)
    ensures Added(next, before, visited, n)
  {
  }

  /** A walk begun with nothing visited ends with exactly what is derivable. */
  lemma AddedFromNothing<T(!new)>(next: T -> seq<T>, visited: set<T>, from: T)
    requires Added(next, {}, visited, from) && from in visited
    ensures forall n :: n in visited <==> Derives(next, from, n)
  {
    forall n | Derives(next, from, n) ensures n in visited {
      ClosedHoldsDerived(next, visited, from, n);
    }
  }
}
