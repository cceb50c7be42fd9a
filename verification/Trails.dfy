/** The renaming a view is reached under is what the includes on the way there accumulate. */
module Trails {
  import opened Ir
  import opened Rebinding
  import opened Chains
  import opened ViewGraph

  function EndOf(start: Id, hops: seq<Hop>): Id {
    if hops == [] then start else hops[|hops| - 1].To()
  }

  /** Each hop is one the view before it offers. */
  predicate Trail(views: ViewTable, start: Id, hops: seq<Hop>) {
    hops == []
    || (Trail(views, start, hops[..|hops| - 1])
        && HopFrom(views, EndOf(start, hops[..|hops| - 1]), hops[|hops| - 1]))
  }

  /** What the includes among the hops rename, outermost first. */
  function RebindsOf(hops: seq<Hop>): seq<Rebind> {
    if hops == [] then []
    else
      var last := hops[|hops| - 1];
      RebindsOf(hops[..|hops| - 1]) + if last.Down? then [last.drawn.rebind] else []
  }

  ghost predicate ByTrail(views: ViewTable, start: Id, n: Reached, hops: seq<Hop>) {
    Trail(views, start, hops) && EndOf(start, hops) == n.id && n.rebind == Accumulated(RebindsOf(hops))
  }

  lemma HopNext(views: ViewTable, start: Id, n: Reached, hops: seq<Hop>, hop: Hop, m: Reached)
    requires ByTrail(views, start, n, hops) && HopFrom(views, n.id, hop)
    requires m == Hopped(n, hop)
    ensures ByTrail(views, start, m, hops + [hop])
  {
    assert (hops + [hop])[..|hops|] == hops;
    var chain := RebindsOf(hops);
    if hop.Up? {
      assert chain + [] == chain;
    } else {
      assert (chain + [hop.drawn.rebind])[..|chain|] == chain;
    }
  }

  lemma {:induction false} ChainHasTrail(views: ViewTable, p: seq<Reached>) returns (hops: seq<Hop>)
    requires Chain(StepsIn(views), p) && p[0].rebind == map[]
    ensures ByTrail(views, p[0].id, p[|p| - 1], hops)
    decreases |p|
  {
    if |p| == 1 {
      return [];
    }
    ChainPrefix(StepsIn(views), p);
    var n, m := p[|p| - 2], p[|p| - 1];
    var before := ChainHasTrail(views, p[..|p| - 1]);
    var hop := StepIsHop(views, n, m);
    HopNext(views, p[0].id, n, before, hop, m);
    return before + [hop];
  }

  lemma {:induction false} TrailIsDerived(views: ViewTable, start: Id, hops: seq<Hop>)
    requires Trail(views, start, hops)
    ensures Derivable(views, Reached(start, map[]), Reached(EndOf(start, hops), Accumulated(RebindsOf(hops))))
    decreases |hops|
  {
    var from := Reached(start, map[]);
    if hops == [] {
      DerivesSelf(StepsIn(views), from);
    } else {
      var before, hop := hops[..|hops| - 1], hops[|hops| - 1];
      TrailIsDerived(views, start, before);
      var chain := RebindsOf(before);
      var n := Reached(EndOf(start, before), Accumulated(chain));
      if hop.Up? {
        assert chain + [] == chain;
      } else {
        assert (chain + [hop.drawn.rebind])[..|chain|] == chain;
      }
      HopIsStep(views, n, hop);
      DerivesLast(StepsIn(views), from, n, Hopped(n, hop));
    }
  }

  /** A render reaches a view under a renaming exactly when some trail of extends and
      includes ends at the view and its includes accumulate to the renaming. */
  lemma ReachedByTrail(views: ViewTable, start: Id, n: Reached)
    ensures Derivable(views, Reached(start, map[]), n) <==> exists hops :: ByTrail(views, start, n, hops)
  {
    if Derivable(views, Reached(start, map[]), n) {
      var p :| ChainFromTo(StepsIn(views), p, Reached(start, map[]), n);
      var hops := ChainHasTrail(views, p);
      assert ByTrail(views, start, n, hops);
    }
    if hops :| ByTrail(views, start, n, hops) {
      TrailIsDerived(views, start, hops);
      assert n == Reached(n.id, n.rebind);
    }
  }

  /** No include renames a name to a path that ends in its first dot. */
  predicate TidyViews(views: ViewTable) {
    forall id, i :: id in views && i in views[id].includes ==> Tidy(i.rebind)
  }

  lemma {:induction false} TrailIsTidy(views: ViewTable, start: Id, hops: seq<Hop>)
    requires TidyViews(views) && Trail(views, start, hops)
    ensures forall k :: 0 <= k < |RebindsOf(hops)| ==> Tidy(RebindsOf(hops)[k])
    decreases |hops|
  {
    if hops != [] {
      TrailIsTidy(views, start, hops[..|hops| - 1]);
    }
  }

  /** What an interpolation reads, in a view reached under a renaming, is what undoing the
      includes of the trail one at a time, innermost first, makes of its path. */
  lemma ReadUnwinds(views: ViewTable, start: Id, n: Reached, path: Path) returns (hops: seq<Hop>)
    requires TidyViews(views) && Derivable(views, Reached(start, map[]), n)
    ensures ByTrail(views, start, n, hops) && RebindPath(path, n.rebind) == Unwound(path, RebindsOf(hops))
  {
    ReachedByTrail(views, start, n);
    hops :| ByTrail(views, start, n, hops);
    TrailIsTidy(views, start, hops);
    AccumulatedUnwinds(path, RebindsOf(hops));
  }
}
