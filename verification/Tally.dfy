/** Counting the keys of a list, with repetition. */
module Tally {

  /** The keys of a list, each as often as it occurs. */
  function KeysBy<T, K>(key: T -> K, s: seq<T>): multiset<K> {
    if s == [] then multiset{} else KeysBy(key, s[..|s| - 1]) + multiset{key(s[|s| - 1])}
  }

  lemma KeysByNext<T, K>(key: T -> K, s: seq<T>, i: nat)
    requires i < |s|
    ensures KeysBy(key, s[..i + 1]) == KeysBy(key, s[..i]) + multiset{key(s[i])}
  {
    assert s[..i + 1][..i] == s[..i];
  }

  lemma KeysByAppend<T, K>(key: T -> K, s: seq<T>, x: T)
    ensures KeysBy(key, s + [x]) == KeysBy(key, s) + multiset{key(x)}
  {
    assert (s + [x])[..|s|] == s;
  }

  /** The keys at the given positions of a list. */
  ghost function KeysAt<T, K>(key: T -> K, s: seq<T>, at: set<nat>): multiset<K>
    requires forall i :: i in at ==> i < |s|
    decreases |s|
  {
    if s == [] then multiset{}
    else
      var n: nat := |s| - 1;
      KeysAt(key, s[..n], at - {n}) + if n in at then multiset{key(s[n])} else multiset{}
  }

  lemma {:induction false} KeysAtWithin<T, K>(key: T -> K, s: seq<T>, at: set<nat>)
    requires forall i :: i in at ==> i < |s|
    ensures KeysAt(key, s, at) <= KeysBy(key, s)
    decreases |s|
  {
    if s != [] {
      KeysAtWithin(key, s[..|s| - 1], at - {|s| - 1});
    }
  }

  lemma {:induction false} KeysAtNone<T, K>(key: T -> K, s: seq<T>)
    ensures KeysAt(key, s, {}) == multiset{}
  {
    if s != [] {
      var none: set<nat> := {};
      assert none - {|s| - 1} == none;
      KeysAtNone(key, s[..|s| - 1]);
    }
  }

  lemma {:induction false} KeysAtAdd<T, K>(key: T -> K, s: seq<T>, at: set<nat>, m: nat)
    requires forall i :: i in at ==> i < |s|
    requires m < |s| && m !in at
    ensures KeysAt(key, s, at + {m}) == KeysAt(key, s, at) + multiset{key(s[m])}
    decreases |s|
  {
    var n: nat := |s| - 1;
    if m == n {
      assert at + {m} - {n} == at - {n};
    } else {
      assert (at + {m}) - {n} == (at - {n}) + {m};
      KeysAtAdd(key, s[..n], at - {n}, m);
    }
  }

  lemma SizeMonotone<K>(a: multiset<K>, b: multiset<K>)
    requires a <= b
    ensures |a| <= |b|
  {
    assert b == a + (b - a);
  }

  lemma {:induction false} KeysByRemove<T, K>(key: T -> K, s: seq<T>, k: nat)
    requires k < |s|
    ensures KeysBy(key, s) == KeysBy(key, s[..k] + s[k + 1..]) + multiset{key(s[k])}
    decreases |s|
  {
    var n := |s| - 1;
    if k == n {
      assert s[..k] + s[k + 1..] == s[..n];
    } else {
      KeysByRemove(key, s[..n], k);
      RemoveShift(s, k);
      KeysBySnoc(key, s[..n][..k] + s[..n][k + 1..], s[n], s[..k] + s[k + 1..]);
    }
  }

  lemma RemoveShift<T>(s: seq<T>, k: nat)
    requires k < |s| - 1
    ensures var n := |s| - 1;
      s[..k] + s[k + 1..] == (s[..n][..k] + s[..n][k + 1..]) + [s[n]] && s[..n][k] == s[k]
  {
  }

  lemma KeysBySnoc<T, K>(key: T -> K, s: seq<T>, x: T, r: seq<T>)
    requires r == s + [x]
    ensures KeysBy(key, r) == KeysBy(key, s) + multiset{key(x)}
  {
    assert r[..|r| - 1] == s;
  }

  lemma RemoveOne<T>(t: seq<T>, k: nat)
    requires k < |t|
    ensures multiset(t) == multiset(t[..k] + t[k + 1..]) + multiset{t[k]}
  {
    assert t == t[..k] + ([t[k]] + t[k + 1..]);
  }

  lemma Cancel<T>(a: multiset<T>, b: multiset<T>, x: T)
    requires a + multiset{x} == b + multiset{x}
    ensures a == b
  {
    assert a == (a + multiset{x}) - multiset{x};
    assert b == (b + multiset{x}) - multiset{x};
  }

  lemma {:induction false} KeysByIgnoresOrder<T, K>(key: T -> K, s: seq<T>, t: seq<T>)
    requires multiset(s) == multiset(t)
    ensures KeysBy(key, s) == KeysBy(key, t)
    decreases |s|
  {
    if s == [] {
      assert |multiset(t)| == 0;
    } else {
      var n := |s| - 1;
      assert s == s[..n] + [s[n]];
      assert s[n] in multiset(t);
      var k :| 0 <= k < |t| && t[k] == s[n];
      KeysByRemove(key, t, k);
      var r := t[..k] + t[k + 1..];
      RemoveOne(t, k);
      assert multiset(s) == multiset(s[..n]) + multiset{s[n]};
      Cancel(multiset(s[..n]), multiset(r), s[n]);
      KeysByIgnoresOrder(key, s[..n], r);
    }
  }

  /** Every position of a list. */
  function Positions(n: nat): (r: set<nat>)
    ensures forall i: nat :: i in r <==> i < n
  {
    if n == 0 then {} else Positions(n - 1) + {n - 1}
  }

  function Same<T>(x: T): T { x }

  /** The entries at the given positions. */
  ghost function At<T>(s: seq<T>, at: set<nat>): multiset<T>
    requires forall i :: i in at ==> i < |s|
  {
    KeysAt(Same, s, at)
  }

  lemma {:induction false} AtSplit<T>(s: seq<T>, at: set<nat>)
    requires at <= Positions(|s|)
    ensures At(s, at) + At(s, Positions(|s|) - at) == multiset(s)
    decreases |at|
  {
    if at == {} {
      KeysAtNone(Same, s);
      assert Positions(|s|) - at == Positions(|s|);
      KeysAtAll(Same, s);
      KeysBySelf(Same, s);
    } else {
      var m :| m in at;
      AtSplit(s, at - {m});
      AtMove(s, at, m);
    }
  }

  /** Moving one position to the other side leaves the sum as it was. */
  lemma AtMove<T>(s: seq<T>, at: set<nat>, m: nat)
    requires at <= Positions(|s|) && m in at
    ensures At(s, at) + At(s, Positions(|s|) - at) == At(s, at - {m}) + At(s, Positions(|s|) - (at - {m}))
  {
    assert at == (at - {m}) + {m};
    assert Positions(|s|) - (at - {m}) == (Positions(|s|) - at) + {m};
    KeysAtAdd(Same, s, at - {m}, m);
    KeysAtAdd(Same, s, Positions(|s|) - at, m);
  }

  lemma {:induction false} KeysAtAll<T, K>(key: T -> K, s: seq<T>)
    ensures KeysAt(key, s, Positions(|s|)) == KeysBy(key, s)
  {
    if s != [] {
      var n: nat := |s| - 1;
      assert Positions(|s|) - {n} == Positions(n);
      KeysAtAll(key, s[..n]);
    }
  }

  lemma {:induction false} KeysBySelf<T>(key: T -> T, s: seq<T>)
    requires forall x :: key(x) == x
    ensures KeysBy(key, s) == multiset(s)
  {
    if s != [] {
      KeysBySelf(key, s[..|s| - 1]);
      assert s == s[..|s| - 1] + [s[|s| - 1]];
    }
  }

  // --- lists of lists ----------------------------------------------------

  /** The entries of several lists, in order. */
  function Flatten<T>(units: seq<seq<T>>): seq<T> {
    if units == [] then [] else Flatten(units[..|units| - 1]) + units[|units| - 1]
  }

  lemma FlattenAppend<T>(units: seq<seq<T>>, u: seq<T>)
    ensures Flatten(units + [u]) == Flatten(units) + u
  {
    assert (units + [u])[..|units|] == units;
  }

  lemma {:induction false} FlattenJoin<T>(a: seq<seq<T>>, b: seq<seq<T>>)
    ensures Flatten(a + b) == Flatten(a) + Flatten(b)
    decreases |b|
  {
    if b == [] {
      assert a + b == a;
    } else {
      var n := |b| - 1;
      FlattenJoin(a, b[..n]);
      assert (a + b)[..|a + b| - 1] == a + b[..n];
      assert Flatten(a + b) == Flatten(a) + Flatten(b[..n]) + b[n];
    }
  }

  /** The entries among the first n that are left, each on its own. */
  function Leftovers<T>(s: seq<T>, left: set<nat>, n: nat): seq<seq<T>>
    requires n <= |s|
  {
    if n == 0 then [] else Leftovers(s, left, n - 1) + if n - 1 in left then [[s[n - 1]]] else []
  }

  lemma {:induction false} LeftoversSingle<T>(s: seq<T>, left: set<nat>, n: nat)
    requires n <= |s|
    ensures forall u :: u in Leftovers(s, left, n) ==> |u| == 1
  {
    if n > 0 {
      LeftoversSingle(s, left, n - 1);
    }
  }

  lemma {:induction false} LeftoversHold<T>(s: seq<T>, left: set<nat>, n: nat)
    requires n <= |s|
    ensures multiset(Flatten(Leftovers(s, left, n))) == At(s[..n], left * Positions(n))
  {
    if n == 0 {
      assert left * Positions(0) == {};
    } else {
      LeftoversHold(s, left, n - 1);
      LeftoversNext(s, left, n);
      AtNext(s, left, n);
    }
  }

  lemma LeftoversNext<T>(s: seq<T>, left: set<nat>, n: nat)
    requires 0 < n <= |s|
    ensures multiset(Flatten(Leftovers(s, left, n))) ==
            multiset(Flatten(Leftovers(s, left, n - 1))) + if n - 1 in left then multiset{s[n - 1]} else multiset{}
  {
    var before := Leftovers(s, left, n - 1);
    if n - 1 in left {
      FlattenAppend(before, [s[n - 1]]);
    } else {
      assert before + [] == before;
    }
  }

  lemma AtNext<T>(s: seq<T>, left: set<nat>, n: nat)
    requires 0 < n <= |s|
    ensures At(s[..n], left * Positions(n)) ==
            At(s[..n - 1], left * Positions(n - 1)) + if n - 1 in left then multiset{s[n - 1]} else multiset{}
  {
    assert s[..n][..n - 1] == s[..n - 1];
    assert left * Positions(n) - {n - 1} == left * Positions(n - 1);
  }

  /** The lists hold the entries taken from one list and all of another. */
  ghost predicate Balanced<T>(units: seq<seq<T>>, s: seq<T>, taken: set<nat>, t: seq<T>) {
    && taken <= Positions(|s|)
    && multiset(Flatten(units)) == At(s, taken) + multiset(t)
  }

  lemma BalancedAlone<T>(units: seq<seq<T>>, s: seq<T>, taken: set<nat>, t: seq<T>, r: T)
    requires Balanced(units, s, taken, t)
    ensures Balanced(units + [[r]], s, taken, t + [r])
  {
    FlattenAppend(units, [r]);
  }

  lemma PairAppended<T>(units: seq<seq<T>>, a: T, b: T)
    ensures multiset(Flatten(units + [[a, b]])) == multiset(Flatten(units)) + multiset{a} + multiset{b}
  {
    FlattenAppend(units, [a, b]);
    assert multiset([a, b]) == multiset{a} + multiset{b};
  }

  lemma BalancedPaired<T>(units: seq<seq<T>>, s: seq<T>, taken: set<nat>, t: seq<T>, i: nat, r: T)
    requires Balanced(units, s, taken, t) && i < |s| && i !in taken
    ensures Balanced(units + [[s[i], r]], s, taken + {i}, t + [r])
  {
    PairAppended(units, s[i], r);
    TakenOneMore(s, taken, i);
    assert multiset(t + [r]) == multiset(t) + multiset{r};
  }

  lemma TakenOneMore<T>(s: seq<T>, taken: set<nat>, i: nat)
    requires taken <= Positions(|s|) && i < |s| && i !in taken
    ensures taken + {i} <= Positions(|s|) && At(s, taken + {i}) == At(s, taken) + multiset{s[i]}
  {
    KeysAtAdd(Same, s, taken, i);
  }

  lemma LeftoversComplete<T>(s: seq<T>, taken: set<nat>)
    requires taken <= Positions(|s|)
    ensures At(s, taken) + multiset(Flatten(Leftovers(s, Positions(|s|) - taken, |s|))) == multiset(s)
  {
    var left := Positions(|s|) - taken;
    LeftoversHold(s, left, |s|);
    assert s[..|s|] == s && left * Positions(|s|) == left;
    AtSplit(s, taken);
  }

  lemma BalancedEnd<T>(units: seq<seq<T>>, s: seq<T>, taken: set<nat>, t: seq<T>)
    requires Balanced(units, s, taken, t)
    ensures multiset(Flatten(units + Leftovers(s, Positions(|s|) - taken, |s|))) == multiset(s) + multiset(t)
  {
    FlattenJoin(units, Leftovers(s, Positions(|s|) - taken, |s|));
    LeftoversComplete(s, taken);
  }

  // --- what is picked out of a list, in order ------------------------------

  /** The places before n that are kept, first to last, and what each of them gives. */
  ghost predicate Gathers<U(!new)>(n: nat, keep: nat -> bool, gives: (nat, U) -> bool, ks: seq<nat>, out: seq<U>) {
    && (forall i, j :: 0 <= i < j < |ks| ==> ks[i] < ks[j])
    && (forall k: nat :: k in ks <==> k < n && keep(k))
    && |out| == |ks| && forall i :: 0 <= i < |ks| ==> gives(ks[i], out[i])
  }

  /** Each place gives what the list has there. */
  ghost function Element<U>(s: seq<U>): (nat, U) -> bool {
    (k: nat, u: U) => k < |s| && u == s[k]
  }

  lemma GathersNone<U(!new)>(keep: nat -> bool, gives: (nat, U) -> bool)
    ensures Gathers(0, keep, gives, [], [])
  {
  }

  lemma GathersNext<U(!new)>(n: nat, keep: nat -> bool, gives: (nat, U) -> bool, ks: seq<nat>, out: seq<U>, u: U,
                             after: seq<nat>, next: seq<U>)
    requires Gathers(n, keep, gives, ks, out) && (keep(n) ==> gives(n, u))
    requires after == (if keep(n) then ks + [n] else ks) && next == out + (if keep(n) then [u] else [])
    ensures Gathers(n + 1, keep, gives, after, next)
  {
    forall i | 0 <= i < |ks| ensures ks[i] < n {
      assert ks[i] in ks;
    }
    forall k: nat ensures k in after <==> k < n + 1 && keep(k) {
      assert k in after <==> k in ks || (keep(n) && k == n);
    }
    forall i | 0 <= i < |after| ensures gives(after[i], next[i]) {
    }
  }
}
