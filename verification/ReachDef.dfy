/** Telling the definitions of one variable apart, on top of dominance and reachability. */
module ReachDef {
  import opened Paths
  import opened Dominance
  import opened Ir
  import opened Cfg

  /** A place the variable is written, or read: a block and a line in it. */
  datatype Site = Site(block: Id, line: int)

  /** The definition has certainly run by the time the use does. */
  ghost predicate BeforeUse(g: Digraph<Id>, entry: Id, def: Site, use: Site) {
    if def.block == use.block
    then !ConnectedByEdges(g, def.block, def.block) && def.line < use.line
    else Dom(g, entry, def.block, use.block)
  }

  /** Control may get from one definition to the other. Ties in source order count. */
  ghost predicate CanFollow(g: Digraph<Id>, from: Site, to: Site) {
    if from.block == to.block
    then ConnectedByEdges(g, from.block, from.block) || from.line <= to.line
    else ConnectedByEdges(g, from.block, to.block)
  }

  ghost predicate Killed(g: Digraph<Id>, entry: Id, defs: seq<Site>, i: nat, use: Site)
    requires i < |defs|
  {
    exists j :: 0 <= j < |defs| && j != i && BeforeUse(g, entry, defs[j], use) && !CanFollow(g, defs[j], defs[i])
  }

  method DominatesUse(graph: Graph, def: Site, use: Site) returns (r: bool)
    requires graph.Valid()
    modifies graph`doms, graph`reachedFromEntry, graph`domsBuilt
    ensures graph.Valid()
    ensures r <==> BeforeUse(graph.Succ(), graph.entry, def, use)
  {
    if def.block == use.block {
      var repeats := graph.Reaches(def.block, def.block);
      if repeats {
        return false;
      }
      return def.line < use.line;
    }
    r := graph.Dominates(def.block, use.block);
  }

  method CanReach(graph: Graph, from: Site, to: Site) returns (r: bool)
    ensures r <==> CanFollow(graph.Succ(), from, to)
  {
    if from.block == to.block {
      r := graph.Reaches(from.block, from.block);
      return r || from.line <= to.line;
    }
    r := graph.Reaches(from.block, to.block);
  }

  /** Whether definition i can still be what the use reads. */
  method Reaches(graph: Graph, defs: seq<Site>, i: nat, use: Site) returns (r: bool)
    requires graph.Valid() && i < |defs|
    modifies graph`doms, graph`reachedFromEntry, graph`domsBuilt
    ensures graph.Valid()
    ensures r <==> !Killed(graph.Succ(), graph.entry, defs, i, use)
  {
    ghost var g, entry := graph.Succ(), graph.entry;
    for j := 0 to |defs|
      invariant graph.Valid()
      invariant forall k :: 0 <= k < j && k != i ==> !BeforeUse(g, entry, defs[k], use) || CanFollow(g, defs[k], defs[i])
    {
      if j == i {
        continue;
      }
      var dominates := DominatesUse(graph, defs[j], use);
      var follows := CanReach(graph, defs[j], defs[i]);
      if dominates && !follows {
        return false;
      }
    }
    return true;
  }

  // --- what a kill means for a run ---------------------------------------

  /** On this run to the use, the definition runs at step k, and not after the use does. */
  ghost predicate RunsAt(p: seq<Id>, def: Site, use: Site, k: nat) {
    k < |p| && p[k] == def.block && (k < |p| - 1 || def.line <= use.line)
  }

  /** The second site comes strictly after the first on the run. */
  predicate Later(a: Site, k: nat, b: Site, m: nat) {
    k < m || (k == m && a.line < b.line)
  }

  lemma SegmentConnects(g: Digraph<Id>, p: seq<Id>, m: nat, k: nat)
    requires IsPath(g, p) && m < k < |p|
    ensures ConnectedByEdges(g, p[m], p[k])
  {
    PathPrefix(g, p, k);
    PathSuffix(g, p[..k + 1], m);
    assert PathFromTo(g, p[..k + 1][m..], p[m], p[k]);
  }

  /** A killed definition really is dead: on every run to the use, each time it runs some
      other definition runs after it and before the use. */
  lemma KilledIsOverwritten(g: Digraph<Id>, entry: Id, defs: seq<Site>, i: nat, use: Site, p: seq<Id>, k: nat)
    returns (j: nat, m: nat)
    requires i < |defs| && Killed(g, entry, defs, i, use)
    requires PathFromTo(g, p, entry, use.block) && RunsAt(p, defs[i], use, k)
    ensures j < |defs| && j != i && RunsAt(p, defs[j], use, m) && Later(defs[i], k, defs[j], m)
  {
    j :| 0 <= j < |defs| && j != i && BeforeUse(g, entry, defs[j], use) && !CanFollow(g, defs[j], defs[i]);
    if defs[j].block == use.block {
      m := |p| - 1;
    } else {
      m :| 0 <= m < |p| && p[m] == defs[j].block;
      if m < k {
        SegmentConnects(g, p, m, k);
        assert false;
      }
    }
  }

  // --- what is dropped ------------------------------------------------------

  /** The other definition is on every run to the use, and the use is arrived at. */
  ghost predicate OnEveryRun(g: Digraph<Id>, entry: Id, block: Id, use: Id) {
    && use in g && (exists p :: PathFromTo(g, p, entry, use))
    && forall p :: PathFromTo(g, p, entry, use) ==> block in p
  }

  /** Some path of one edge or more leads from the one block to the other. */
  ghost predicate ComesTo(g: Digraph<Id>, from: Id, to: Id) {
    exists p :: PathFromTo(g, p, from, to) && |p| >= 2
  }

  /** Exactly when a definition is dropped, by lines and by runs: some other one is written on
      an earlier line of the use's own block, which is on no cycle, or stands in another block
      that every run to the use passes; and no path leads from that one on to this, nor is
      this on its line or below it in one block. */
  lemma KilledExactly(g: Digraph<Id>, entry: Id, defs: seq<Site>, i: nat, use: Site)
    requires i < |defs|
    ensures Killed(g, entry, defs, i, use) <==>
            exists j :: 0 <= j < |defs| && j != i
              && (defs[j].block == use.block ==> !ComesTo(g, use.block, use.block) && defs[j].line < use.line)
              && (defs[j].block != use.block ==> OnEveryRun(g, entry, defs[j].block, use.block))
              && !ComesTo(g, defs[j].block, defs[i].block)
              && (defs[j].block == defs[i].block ==> defs[i].line < defs[j].line)
  {
    forall a, b ensures ComesTo(g, a, b) <==> ConnectedByEdges(g, a, b) {
      if ConnectedByEdges(g, a, b) {
        var p :| PathFromTo(g, p, a, b) && |p| > 1;
        assert |p| >= 2;
      }
    }
    forall a, b ensures OnEveryRun(g, entry, a, b) <==> Dom(g, entry, a, b) {
    }
  }

  /** In a block on no cycle, a definition written over before the use is dropped. */
  lemma OverwrittenIsDropped(g: Digraph<Id>, entry: Id, defs: seq<Site>, i: nat, j: nat, use: Site)
    requires i < |defs| && j < |defs| && defs[i].block == defs[j].block == use.block
    requires !ComesTo(g, use.block, use.block) && defs[i].line < defs[j].line < use.line
    ensures Killed(g, entry, defs, i, use)
  {
    KilledExactly(g, entry, defs, i, use);
  }

  /** Across blocks, so is one that some other definition on every run to the use comes
      after, with no way back. */
  lemma DominatedIsDropped(g: Digraph<Id>, entry: Id, defs: seq<Site>, i: nat, j: nat, use: Site)
    requires i < |defs| && j < |defs| && defs[i].block != defs[j].block && defs[j].block != use.block
    requires OnEveryRun(g, entry, defs[j].block, use.block) && !ComesTo(g, defs[j].block, defs[i].block)
    ensures Killed(g, entry, defs, i, use)
  {
    KilledExactly(g, entry, defs, i, use);
  }

  /** The definition a run leaves for the use is never dropped. */
  lemma LastDefinitionKept(g: Digraph<Id>, entry: Id, defs: seq<Site>, i: nat, use: Site, p: seq<Id>, k: nat)
    requires i < |defs| && PathFromTo(g, p, entry, use.block) && RunsAt(p, defs[i], use, k)
    requires forall j, m: nat :: 0 <= j < |defs| && j != i && RunsAt(p, defs[j], use, m) ==> !Later(defs[i], k, defs[j], m)
    ensures !Killed(g, entry, defs, i, use)
  {
    if Killed(g, entry, defs, i, use) {
      var j, m := KilledIsOverwritten(g, entry, defs, i, use, p, k);
    }
  }

  /** A use that some run reaches with the variable defined keeps one of the definitions
      that run made. */
  lemma {:induction false} SomeDefinitionKept(g: Digraph<Id>, entry: Id, defs: seq<Site>, i: nat, use: Site, p: seq<Id>, k: nat)
    returns (j: nat, m: nat)
    requires i < |defs| && PathFromTo(g, p, entry, use.block) && RunsAt(p, defs[i], use, k)
    ensures j < |defs| && RunsAt(p, defs[j], use, m) && !Killed(g, entry, defs, j, use)
    ensures k <= m
    decreases |p| - k, set n | 0 <= n < |defs| && defs[n].line > defs[i].line
  {
    if !Killed(g, entry, defs, i, use) {
      return i, k;
    }
    j, m := KilledIsOverwritten(g, entry, defs, i, use, p, k);
    if k == m {
      var above := set n | 0 <= n < |defs| && defs[n].line > defs[i].line;
      assert j in above;
    }
    j, m := SomeDefinitionKept(g, entry, defs, j, use, p, m);
  }
}
