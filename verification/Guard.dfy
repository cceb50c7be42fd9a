/** Whether a refusal is followed by work that runs anyway, and whether two names stand
    for one value. */
module Guard {
  import opened Paths
  import opened Dominance
  import opened Ir
  import opened Cfg

  datatype Found = Found(call: Call) | Nothing

  /** Source order, by line and then by column. */
  predicate Before(a: Loc, b: Loc) {
    if a.line != b.line then a.line < b.line else a.column < b.column
  }

  /** The call sits in another block that is unavoidable once control is in this one. */
  ghost predicate Unavoidable(g: Digraph<Id>, block: Id, c: Call) {
    c.block != block && PostDom(g, c.block, block)
  }

  lemma IdsNext(fnBlocks: seq<Block>, i: nat)
    requires i < |fnBlocks|
    ensures IdsOf(fnBlocks[..i + 1]) == IdsOf(fnBlocks[..i]) + [fnBlocks[i].id]
  {
  }

  /** On an earlier line, or on one line and no later a column. */
  predicate NoLater(a: Loc, b: Loc) {
    a.line < b.line || (a.line == b.line && a.column <= b.column)
  }

  /** The first call, in source order, among those unavoidable after a block. */
  method WorkAfter(graph: Graph, fnBlocks: seq<Block>, calls: seq<Call>, block: Id) returns (best: Found)
    requires graph.Valid() && graph.blocks == BlocksById(fnBlocks)
    ensures best == Nothing <==> !exists c :: c in calls && Unavoidable(graph.Succ(), block, c)
    ensures best.Found? ==> best.call in calls && Unavoidable(graph.Succ(), block, best.call)
    ensures best.Found? ==>
              forall c :: c in calls && Unavoidable(graph.Succ(), block, c) ==> NoLater(best.call.loc, c.loc)
  {
    best := Nothing;
    for i := 0 to |fnBlocks|
      invariant BestOf(graph.Succ(), block, calls, IdsOf(fnBlocks[..i]), best)
    {
      var b := fnBlocks[i];
      IdsNext(fnBlocks, i);
      if b.id == block || !graph.PostDominates(b.id, block) {
        BestSkips(graph.Succ(), block, calls, IdsOf(fnBlocks[..i]), b.id, best);
        continue;
      }
      ghost var found := best;
      best := BestInBlock(calls, b.id, best);
      BestTakes(graph.Succ(), block, calls, IdsOf(fnBlocks[..i]), b.id, found, best);
    }
    assert fnBlocks[..|fnBlocks|] == fnBlocks;
    BestOfAll(graph.Succ(), block, calls, fnBlocks, best);
  }

  /** The first, in source order, of the calls in one block and the best found before. */
  method BestInBlock(calls: seq<Call>, id: Id, found: Found) returns (best: Found)
    ensures BestWith(calls, id, found, best)
  {
    best := found;
    for j := 0 to |calls|
      invariant best == Nothing <==> found == Nothing && forall c :: c in calls[..j] ==> c.block != id
      invariant best.Found? ==> best == found || (best.call in calls && best.call.block == id)
      invariant best.Found? ==> forall c :: c in calls[..j] && c.block == id ==> !Before(c.loc, best.call.loc)
      invariant best.Found? && found.Found? ==> !Before(found.call.loc, best.call.loc)
    {
      var c := calls[j];
      assert calls[..j + 1] == calls[..j] + [c];
      if c.block != id {
        continue;
      }
      if best == Nothing || Before(c.loc, best.call.loc) {
        best := Found(c);
      }
    }
    assert calls[..|calls|] == calls;
  }

  /** Best so far, over the calls of the blocks already looked at. */
  ghost predicate BestOf(g: Digraph<Id>, block: Id, calls: seq<Call>, seen: seq<Id>, best: Found) {
    && (best == Nothing ==> forall c :: c in calls && c.block in seen ==> !Unavoidable(g, block, c))
    && (best.Found? ==> best.call in calls && Unavoidable(g, block, best.call))
    && (best.Found? ==>
          forall c :: c in calls && c.block in seen && Unavoidable(g, block, c) ==> !Before(c.loc, best.call.loc))
  }

  lemma BestSkips(g: Digraph<Id>, block: Id, calls: seq<Call>, seen: seq<Id>, id: Id, best: Found)
    requires BestOf(g, block, calls, seen, best) && (id == block || !PostDom(g, id, block))
    ensures BestOf(g, block, calls, seen + [id], best)
  {
  }

  /** The best call of one more unavoidable block and of those before it. */
  ghost predicate BestWith(calls: seq<Call>, id: Id, found: Found, best: Found) {
    && (best == Nothing <==> found == Nothing && forall c :: c in calls ==> c.block != id)
    && (best.Found? ==> best == found || (best.call in calls && best.call.block == id))
    && (best.Found? ==> forall c :: c in calls && c.block == id ==> !Before(c.loc, best.call.loc))
    && (best.Found? && found.Found? ==> !Before(found.call.loc, best.call.loc))
  }

  lemma BestTakes(g: Digraph<Id>, block: Id, calls: seq<Call>, seen: seq<Id>, id: Id, found: Found, best: Found)
    requires BestOf(g, block, calls, seen, found) && id != block && PostDom(g, id, block)
    requires BestWith(calls, id, found, best)
    ensures BestOf(g, block, calls, seen + [id], best)
  {
  }

  /** Every block that is unavoidable is one of the function's. */
  lemma BestOfAll(g: Digraph<Id>, block: Id, calls: seq<Call>, fnBlocks: seq<Block>, best: Found)
    requires g == SuccessorsOf(BlocksById(fnBlocks)) && BestOf(g, block, calls, IdsOf(fnBlocks), best)
    ensures best == Nothing <==> !exists c :: c in calls && Unavoidable(g, block, c)
    ensures best.Found? ==> best.call in calls && Unavoidable(g, block, best.call)
    ensures best.Found? ==> forall c :: c in calls && Unavoidable(g, block, c) ==> NoLater(best.call.loc, c.loc)
  {
    forall c | c in calls && Unavoidable(g, block, c) ensures c.block in IdsOf(fnBlocks) {
    }
  }

  /** Work found after a refusal runs on every way out: each path from the refusing block
      out of the function arrives, later, at the block that holds it. */
  lemma WorkAlwaysRuns(g: Digraph<Id>, block: Id, c: Call, p: seq<Id>)
    requires Unavoidable(g, block, c) && PathOut(g, p, block)
    ensures exists k :: 0 < k < |p| && p[k] == c.block
  {
    var k :| 0 <= k < |p| && p[k] == c.block;
  }

  // --- the same value under different names ------------------------------

  /** No assignment leads into or out of the set. */
  ghost predicate ClosedUnderAssign(flows: seq<Flow>, s: set<Id>) {
    forall f :: f in flows && f.kind == "assign" ==> (f.from in s <==> f.to in s)
  }

  /** Any set of values no assignment crosses holds both or, holding the first, the second. */
  ghost predicate SameValue(flows: seq<Flow>, left: Id, right: Id) {
    forall s: set<Id> :: left in s && ClosedUnderAssign(flows, s) ==> right in s
  }

  /** Whether assignments, read in either direction, lead from one value to the other. */
  method SameAssignedValue(flows: seq<Flow>, left: Id, right: Id) returns (r: bool)
    ensures r <==> left != NOTHING && right != NOTHING && SameValue(flows, left, right)
  {
    if left == NOTHING || right == NOTHING {
      return false;
    }
    var seen := {left};
    var changed := true;
    ghost var ends := {left} + (set f | f in flows :: f.from) + (set f | f in flows :: f.to);
    while changed
      invariant left in seen && seen <= ends
      invariant forall s: set<Id> :: left in s && ClosedUnderAssign(flows, s) ==> seen <= s
      invariant !changed ==> ClosedUnderAssign(flows, seen)
      decreases ends - seen, changed
    {
      changed := false;
      ghost var start := seen;
      for i := 0 to |flows|
        invariant left in seen && seen <= ends && start <= seen
        invariant forall s: set<Id> :: left in s && ClosedUnderAssign(flows, s) ==> seen <= s
        invariant changed <==> seen != start
        invariant !changed ==> forall f :: f in flows[..i] && f.kind == "assign" ==> (f.from in seen <==> f.to in seen)
      {
        var f := flows[i];
        assert f in flows;
        assert flows[..i + 1] == flows[..i] + [f];
        if f.kind != "assign" {
          continue;
        }
        if f.from in seen && f.to !in seen {
          seen, changed := seen + {f.to}, true;
        }
        if f.to in seen && f.from !in seen {
          seen, changed := seen + {f.from}, true;
        }
      }
      assert flows[..|flows|] == flows;
    }
    return right in seen;
  }

  /** An assignment leads from one of the values to the other, in either direction. */
  predicate Assigned(flows: seq<Flow>, a: Id, b: Id) {
    exists f :: f in flows && f.kind == "assign" && ((f.from == a && f.to == b) || (f.from == b && f.to == a))
  }

  ghost predicate AssignPath(flows: seq<Flow>, p: seq<Id>) {
    && p != []
    && forall i, j {:trigger p[i], p[j]} :: 0 <= i && j == i + 1 < |p| ==> Assigned(flows, p[i], p[j])
  }

  ghost predicate AssignLeads(flows: seq<Flow>, a: Id, b: Id) {
    exists p :: AssignPath(flows, p) && p[0] == a && p[|p| - 1] == b
  }

  lemma AssignOneMore(flows: seq<Flow>, a: Id, b: Id, c: Id)
    requires AssignLeads(flows, a, b) && Assigned(flows, b, c)
    ensures AssignLeads(flows, a, c)
  {
    var p :| AssignPath(flows, p) && p[0] == a && p[|p| - 1] == b;
    var q := p + [c];
    forall i, j {:trigger q[i], q[j]} | 0 <= i && j == i + 1 < |q| ensures Assigned(flows, q[i], q[j]) {
      if j < |p| { assert q[i] == p[i] && q[j] == p[j]; }
    }
    assert AssignPath(flows, q);
  }

  /** Two values are the same exactly when a path of assignments, each read in either
      direction, leads from one to the other. */
  lemma SameValueIsPath(flows: seq<Flow>, left: Id, right: Id)
    ensures SameValue(flows, left, right) <==> AssignLeads(flows, left, right)
  {
    if SameValue(flows, left, right) {
      var ends := {left} + (set f | f in flows :: f.from) + (set f | f in flows :: f.to);
      var led := set x | x in ends && AssignLeads(flows, left, x);
      assert AssignPath(flows, [left]);
      forall f | f in flows && f.kind == "assign" ensures f.from in led <==> f.to in led {
        assert Assigned(flows, f.from, f.to) && Assigned(flows, f.to, f.from);
        if f.from in led { AssignOneMore(flows, left, f.from, f.to); }
        if f.to in led { AssignOneMore(flows, left, f.to, f.from); }
      }
      assert ClosedUnderAssign(flows, led);
    }
    if AssignLeads(flows, left, right) {
      var p :| AssignPath(flows, p) && p[0] == left && p[|p| - 1] == right;
      forall s: set<Id> | left in s && ClosedUnderAssign(flows, s) ensures right in s {
        ClosedHoldsPath(flows, s, p);
      }
    }
  }

  lemma {:induction false} ClosedHoldsPath(flows: seq<Flow>, s: set<Id>, p: seq<Id>)
    requires ClosedUnderAssign(flows, s) && AssignPath(flows, p) && p[0] in s
    ensures p[|p| - 1] in s
  {
    var k := 0;
    while k < |p| - 1
      invariant 0 <= k < |p| && p[k] in s
    {
      assert Assigned(flows, p[k], p[k + 1]);
      k := k + 1;
    }
  }

  lemma SameValueTransitive(flows: seq<Flow>, a: Id, b: Id, c: Id)
    requires SameValue(flows, a, b) && SameValue(flows, b, c)
    ensures SameValue(flows, a, c)
  {
  }

  /** Being the same value does not depend on which of the two is asked about. */
  lemma SameValueSymmetric(flows: seq<Flow>, a: Id, b: Id)
    requires SameValue(flows, a, b)
    ensures SameValue(flows, b, a)
  {
    var ends := {a, b} + (set f | f in flows :: f.from) + (set f | f in flows :: f.to);
    forall s: set<Id> | b in s && ClosedUnderAssign(flows, s) ensures a in s {
      assert ClosedUnderAssign(flows, ends - s);
      assert a in s || a in ends - s;
    }
  }
}
