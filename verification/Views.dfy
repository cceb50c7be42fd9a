/** Walking a view's own graph, each view under each renaming once. */
module Views {
  import opened Ir
  import opened Rebinding
  import opened Fingerprint
  import opened Chains
  import opened ViewGraph
  import opened Growth

  // --- the walk ----------------------------------------------------------

  const NUL := '\0'

  /** What a reached view is remembered by. */
  ghost predicate IsKey(n: Reached, key: string) {
    exists r :: IsFingerprint(n.rebind, r) && key == n.id.name + [NUL] + r
  }

  /** Each key stands for one reached view. */
  ghost predicate KeysTellApart(universe: set<Reached>) {
    forall a, b, key :: a in universe && b in universe && IsKey(a, key) && IsKey(b, key) ==> a == b
  }

  ghost predicate NoRepeats(out: seq<Reached>) {
    forall i, j :: 0 <= i < j < |out| ==> out[i] != out[j]
  }

  class Walker {
    const views: ViewTable
    var seen: set<string>
    var out: seq<Reached>
    ghost var visited: set<Reached>

    /** The keys seen are the keys of what was visited, and the views among it are listed
        once each. */
    ghost predicate Valid(universe: set<Reached>)
      reads this
    {
      && visited <= universe
      && (forall key :: key in seen ==> exists n :: n in visited && IsKey(n, key))
      && (forall n, key :: n in visited && IsKey(n, key) ==> key in seen)
      && (forall n :: n in out <==> n in visited && n.id in views)
      && NoRepeats(out)
    }

    constructor (views_: ViewTable)
      ensures views == views_ && visited == {} && Valid({})
    {
      views := views_;
      seen, out, visited := {}, [], {};
    }

    /** Visits a view under a renaming, and what it extends and includes. */
    method Walk(id: Id, rebind: Rebind, ghost universe: set<Reached>)
      requires Valid(universe) && Reached(id, rebind) in universe
      requires ClosedUnderSteps(views, universe) && KeysTellApart(universe)
      modifies this
      ensures Valid(universe) && Reached(id, rebind) in visited
      ensures Added(StepsIn(views), old(visited), visited, Reached(id, rebind))
      decreases universe - visited, 0
    {
      var n := Reached(id, rebind);
      var fingerprint := WriteEntries(rebind);
      var key := id.name + [NUL] + fingerprint;
      assert IsKey(n, key);
      if key in seen {
        return;
      }
      Mark(n, key, universe);
      ProgressStart(StepsIn(views), old(visited), n);
      if id in views {
        WalkSteps(n, universe, old(visited));
      }
      ProgressDone(StepsIn(views), old(visited), visited, n);
    }

    /** Remembers a reached view, and lists it if it is a view. */
    method Mark(n: Reached, key: string, ghost universe: set<Reached>)
      requires Valid(universe) && n in universe && IsKey(n, key) && key !in seen
      requires KeysTellApart(universe)
      modifies this
      ensures Valid(universe) && visited == old(visited) + {n} && n !in old(visited)
    {
      seen := seen + {key};
      visited := visited + {n};
      if n.id in views {
        out := out + [n];
      }
      forall m, k | m in visited && IsKey(m, k) ensures k in seen {
        if m == n {
          KeyDetermined(n, k, key);
        }
      }
    }

    /** Walks on to everything a view extends and then everything it includes. */
    method WalkSteps(n: Reached, ghost universe: set<Reached>, ghost before: set<Reached>)
      requires Valid(universe) && n.id in views
      requires ClosedUnderSteps(views, universe) && KeysTellApart(universe)
      requires Progress(StepsIn(views), before, visited, n, 0)
      modifies this
      ensures Valid(universe) && Progress(StepsIn(views), before, visited, n, |Steps(views, n)|)
      decreases universe - visited, 2
    {
      var v := views[n.id];
      for i := 0 to |v.extends_|
        invariant old(visited) <= visited && Valid(universe) && Progress(StepsIn(views), before, visited, n, i)
      {
        ParentStep(views, n, i);
        Onward(Reached(v.extends_[i], n.rebind), universe, before, n, i);
      }
      for i := 0 to |v.includes|
        invariant old(visited) <= visited && Valid(universe)
        invariant Progress(StepsIn(views), before, visited, n, |v.extends_| + i)
      {
        var rebind := ComposeMaps(v.includes[i].rebind, n.rebind);
        IncludeSteps(views, n, i);
        Onward(Reached(v.includes[i].view, rebind), universe, before, n, |v.extends_| + i);
      }
    }

    /** Walks on to one step. */
    method Onward(child: Reached, ghost universe: set<Reached>, ghost before: set<Reached>, ghost n: Reached, ghost i: nat)
      requires Valid(universe) && ClosedUnderSteps(views, universe) && KeysTellApart(universe)
      requires Progress(StepsIn(views), before, visited, n, i)
      requires i < |Steps(views, n)| && child == Steps(views, n)[i]
      modifies this
      ensures old(visited) <= visited && Valid(universe) && Progress(StepsIn(views), before, visited, n, i + 1)
      decreases universe - visited, 1
    {
      ghost var sofar := visited;
      StepInside(StepsIn(views), universe, n, child);
      Walk(child.id, child.rebind, universe);
      ProgressNext(StepsIn(views), before, sofar, visited, n, i);
    }
  }

  lemma KeyDetermined(n: Reached, a: string, b: string)
    requires IsKey(n, a) && IsKey(n, b)
    ensures a == b
  {
    var r :| IsFingerprint(n.rebind, r) && a == n.id.name + [NUL] + r;
    var s :| IsFingerprint(n.rebind, s) && b == n.id.name + [NUL] + s;
    FingerprintDetermined(n.rebind, r, s);
  }

  /** Each key stands for one of the pairs the view reaches. */
  ghost predicate KeysDistinct(views: ViewTable, id: Id) {
    forall a, b, key ::
      (Derivable(views, Reached(id, map[]), a) && Derivable(views, Reached(id, map[]), b)
       && IsKey(a, key) && IsKey(b, key)) ==> a == b
  }

  /** The pairs a view reaches, where they are finitely many. */
  lemma ReachedSet(views: ViewTable, id: Id) returns (reached: set<Reached>)
    requires !GrowsRound(views, id)
    ensures forall n :: n in reached <==> Derivable(views, Reached(id, map[]), n)
    ensures HoldsWalk(views, id, reached)
  {
    var from := Reached(id, map[]);
    FiniteExactly(views, id);
    var universe :| HoldsWalk(views, id, universe);
    reached := set n | n in universe && Derivable(views, from, n);
    forall n | Derivable(views, from, n) ensures n in reached {
      ClosedHoldsDerived(StepsIn(views), universe, from, n);
    }
    DerivesSelf(StepsIn(views), from);
    forall a, b | a in reached && b in StepsIn(views)(a) ensures b in reached {
      DerivesLast(StepsIn(views), from, a, b);
    }
  }

  /** Everything a view reaches, from no renaming at all: each derivable pair of a view and
      a renaming once, and nothing else. */
  method Reach(views: ViewTable, id: Id) returns (out: seq<Reached>)
    requires !GrowsRound(views, id) && KeysDistinct(views, id)
    ensures forall n :: n in out <==> n.id in views && Derivable(views, Reached(id, map[]), n)
    ensures NoRepeats(out)
  {
    ghost var reached := ReachedSet(views, id);
    var w := new Walker(views);
    w.Walk(id, map[], reached);
    AddedFromNothing(StepsIn(views), w.visited, Reached(id, map[]));
    out := w.out;
  }

  // --- when keys tell reached views apart --------------------------------

  /** No view id holds NUL, no name holds '=' and no path holds ';'. */
  predicate PlainReached(n: Reached) {
    NUL !in n.id.name && Plain(n.rebind)
  }

  lemma PlainKeysTellApart(a: Reached, b: Reached, key: string)
    requires PlainReached(a) && PlainReached(b) && IsKey(a, key) && IsKey(b, key)
    ensures a == b
  {
    var r :| IsFingerprint(a.rebind, r) && key == a.id.name + [NUL] + r;
    var s :| IsFingerprint(b.rebind, s) && key == b.id.name + [NUL] + s;
    CutBack(a.id.name, b.id.name, NUL, r, s);
    FingerprintInjective(a.rebind, b.rebind, r);
  }

  /** No id in the table holds NUL, and no include has '=' in a name or ';' in a path. */
  predicate PlainViews(views: ViewTable) {
    forall id :: id in views ==> PlainView(views[id])
  }

  predicate PlainView(v: View) {
    && (forall e :: e in v.extends_ ==> NUL !in e.name)
    && (forall i :: i in v.includes ==> NUL !in i.view.name && Plain(i.rebind))
  }

  lemma ComposePlain(inner: Rebind, outer: Rebind)
    requires Plain(inner) && Plain(outer)
    ensures Plain(Compose(inner, outer))
  {
    forall k | k in Compose(inner, outer) ensures '=' !in k.text && ';' !in Compose(inner, outer)[k].text {
      ComposeAt(inner, outer, k);
      if k in inner && Rest(inner[k]) != "" {
        RestChars(inner[k]);
      }
    }
  }

  lemma PlainHop(v: View, n: Reached, hop: Hop)
    requires PlainView(v) && PlainReached(n)
    requires if hop.Up? then hop.parent in v.extends_ else hop.drawn in v.includes
    ensures PlainReached(Hopped(n, hop))
  {
    if hop.Down? {
      ComposePlain(hop.drawn.rebind, n.rebind);
    }
  }

  lemma PlainStep(views: ViewTable, n: Reached, m: Reached)
    requires PlainViews(views) && PlainReached(n) && m in Steps(views, n)
    ensures PlainReached(m)
  {
    var hop := StepIsHop(views, n, m);
    PlainHop(views[n.id], n, hop);
  }

  lemma {:induction false} PlainChain(views: ViewTable, p: seq<Reached>)
    requires PlainViews(views) && Chain(StepsIn(views), p) && PlainReached(p[0])
    ensures PlainReached(p[|p| - 1])
    decreases |p|
  {
    if |p| > 1 {
      ChainPrefix(StepsIn(views), p);
      PlainChain(views, p[..|p| - 1]);
      PlainStep(views, p[|p| - 2], p[|p| - 1]);
    }
  }

  /** In a plain table, keys tell apart whatever a view reaches. */
  lemma PlainKeysDistinct(views: ViewTable, id: Id)
    requires PlainViews(views) && NUL !in id.name
    ensures KeysDistinct(views, id)
  {
    var from := Reached(id, map[]);
    forall a, b, key | Derivable(views, from, a) && Derivable(views, from, b) && IsKey(a, key) && IsKey(b, key)
      ensures a == b
    {
      var p :| ChainFromTo(StepsIn(views), p, from, a);
      var q :| ChainFromTo(StepsIn(views), q, from, b);
      PlainChain(views, p);
      PlainChain(views, q);
      PlainKeysTellApart(a, b, key);
    }
  }

  /** On a plain table the walk ends with each derivable pair once when the views have no
      cycle. */
  method ReachAcyclic(views: ViewTable, id: Id) returns (out: seq<Reached>)
    requires PlainViews(views) && NUL !in id.name && NoCycle(views)
    ensures forall n :: n in out <==> n.id in views && Derivable(views, Reached(id, map[]), n)
    ensures NoRepeats(out)
  {
    AcyclicIsFinite(views, id);
    PlainKeysDistinct(views, id);
    out := Reach(views, id);
  }

  /** And, cycles or not, when includes only ever rename to plain names. */
  method ReachPlain(views: ViewTable, id: Id) returns (out: seq<Reached>)
    requires PlainViews(views) && NUL !in id.name && RenamesPlainly(views)
    ensures forall n :: n in out <==> n.id in views && Derivable(views, Reached(id, map[]), n)
    ensures NoRepeats(out)
  {
    PlainRenamingIsFinite(views, id);
    PlainKeysDistinct(views, id);
    out := Reach(views, id);
  }
}
