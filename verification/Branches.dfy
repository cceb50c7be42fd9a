/** What the answers of the control-flow graph are good for: how the questions about one
    branch relate to one another, and what they say about every run. */
module Branches {
  import opened Paths
  import opened Dominance
  import opened Loops
  import opened Ir
  import opened Cfg
  import opened Tally

  // --- control dependence ------------------------------------------------

  lemma DanglingAvoids(g: Digraph<Id>, block: Id, s: Id)
    requires s !in g
    ensures !PostDom(g, block, s)
  {
  }

  /** The branch decides a block exactly when one arm makes the block unavoidable although
      the branch itself does not, or although some arm leads nowhere known. */
  lemma DecidesExactly(g: Digraph<Id>, block: Id, branch: Id)
    requires block in g && branch in g && block != branch && |g[branch]| >= 2
    ensures Decides(g, block, branch) <==>
            && (exists s :: s in g[branch] && PostDom(g, block, s))
            && (!PostDom(g, block, branch) || exists s :: s in g[branch] && s !in g)
  {
    PostDomUnfold(g, block, branch);
    var arms := g[branch];
    assert forall s :: s in arms <==> exists i :: 0 <= i < |arms| && arms[i] == s;
    if s :| s in arms && s !in g {
      DanglingAvoids(g, block, s);
    }
  }

  /** On a two-way branch, deciding a block is the same as one arm, and not the other,
      making it unavoidable. */
  lemma TwoWayDecides(g: Digraph<Id>, block: Id, branch: Id)
    requires branch in g && |g[branch]| == 2
    ensures Decides(g, block, branch) <==>
            DecidesByArm(g, block, branch, 0) || DecidesByArm(g, block, branch, 1)
    ensures !(DecidesByArm(g, block, branch, 0) && DecidesByArm(g, block, branch, 1))
  {
    var arms := g[branch];
    assert Decides(g, block, branch) <==>
           (PostDom(g, block, arms[0]) != PostDom(g, block, arms[1]));
  }

  /** The arm itself leads unavoidably to the block, and each other one leads nowhere known or
      out of the function by some way that misses it. */
  lemma DecidedByItsArm(g: Digraph<Id>, block: Id, branch: Id, arm: int)
    requires block in g
    ensures DecidesByArm(g, block, branch, arm) <==>
            && branch in g && 0 <= arm < |g[branch]| && PostDom(g, block, g[branch][arm])
            && forall i :: 0 <= i < |g[branch]| && i != arm ==>
                 g[branch][i] !in g || exists p :: PathOut(g, p, g[branch][i]) && block !in p
  {
    if branch in g {
      var arms := g[branch];
      forall i | 0 <= i < |arms|
        ensures PostDom(g, block, arms[i]) <==> !(arms[i] !in g || exists p :: PathOut(g, p, arms[i]) && block !in p)
      {
      }
    }
  }

  /** A guard by its arms: two of them at least, and nothing but the branch itself is on every
      way out of the function from it. */
  lemma GuardsExactly(g: Digraph<Id>, branch: Id)
    ensures Guards(g, branch) <==>
            && branch in g && (exists i, j :: 0 <= i < j < |g[branch]| && g[branch][i] in g[branch] && g[branch][j] in g[branch])
            && forall a :: PostDom(g, a, branch) ==> a == branch
  {
    if branch in g && |g[branch]| >= 2 {
      assert 0 <= 0 < 1 < |g[branch]| && g[branch][0] in g[branch] && g[branch][1] in g[branch];
    }
    if Guards(g, branch) {
      forall a | PostDom(g, a, branch) ensures a == branch {
        assert a in g;
      }
    }
    if branch in g && forall a :: PostDom(g, a, branch) ==> a == branch {
      forall a | a in g && a != branch ensures exists p :: PathOut(g, p, branch) && a !in p {
        assert !PostDom(g, a, branch);
      }
    }
  }

  /** A guard decides every block that one of its arms makes unavoidable. */
  lemma GuardDecides(g: Digraph<Id>, block: Id, branch: Id, arm: Id)
    requires Guards(g, branch) && block in g && block != branch
    requires arm in g[branch] && PostDom(g, block, arm)
    ensures Decides(g, block, branch)
  {
    DecidesExactly(g, block, branch);
    var p :| PathOut(g, p, branch) && block !in p;
  }

  /** A branch whose arms come back together is no guard. */
  lemma ReconvergenceIsNoGuard(g: Digraph<Id>, branch: Id, meet: Id)
    requires branch in g && meet in g && meet != branch
    requires exists s :: s in g[branch] && s in g
    requires forall s :: s in g[branch] && s in g ==> PostDom(g, meet, s)
    ensures !Guards(g, branch)
  {
    PostDomUnfold(g, meet, branch);
  }

  // --- polarity ----------------------------------------------------------

  /** On every path to a target one arm selects, control leaves the branch by that arm each
      time it leaves it. */
  lemma SelectedOnEveryDeparture(g: Digraph<Id>, target: Id, branch: Id, arm: int, p: seq<Id>, k: nat)
    requires Selects(g, target, branch, arm)
    requires IsPath(g, p) && p[|p| - 1] == target && k + 1 < |p| && p[k] == branch
    ensures p[k + 1] == g[branch][arm]
  {
    assert Edge(g, p[k], p[k + 1]);
    var j :| 0 <= j < |g[branch]| && g[branch][j] == p[k + 1];
    PathSuffix(g, p, k + 1);
    assert Connected(g, g[branch][j], target);
  }

  /** Being selected by an arm, said without arms: the arm is named once, leads to the
      target, and every way from the branch to the target starts with it. */
  lemma SelectedExactly(g: Digraph<Id>, target: Id, branch: Id, arm: nat)
    requires branch in g && |g[branch]| >= 2 && arm < |g[branch]|
    ensures Selects(g, target, branch, arm) <==>
            && (forall j :: 0 <= j < |g[branch]| && j != arm ==> g[branch][j] != g[branch][arm])
            && Connected(g, g[branch][arm], target)
            && (forall p :: PathFromTo(g, p, branch, target) && |p| > 1 ==> p[1] == g[branch][arm])
  {
    var arms := g[branch];
    if Selects(g, target, branch, arm) {
      forall p | PathFromTo(g, p, branch, target) && |p| > 1 ensures p[1] == arms[arm] {
        SelectedOnEveryDeparture(g, target, branch, arm, p, 0);
      }
    } else if Connected(g, arms[arm], target) {
      var j :| 0 <= j < |arms| && j != arm && Connected(g, arms[j], target);
      var q :| PathFromTo(g, q, arms[j], target);
      assert Edge(g, branch, q[0]);
      PathCons(g, branch, q);
      assert ([branch] + q)[1] == arms[j];
    }
  }

  /** When the branch also dominates the target, every run that arrives at the target has
      come through the branch and, each time it did, out of the selected arm. */
  lemma SelectedOnEveryRun(g: Digraph<Id>, entry: Id, target: Id, branch: Id, arm: int, p: seq<Id>)
    requires Selects(g, target, branch, arm) && Dom(g, entry, branch, target) && branch != target
    requires PathFromTo(g, p, entry, target)
    ensures exists k :: 0 <= k < |p| - 1 && p[k] == branch
    ensures forall k :: 0 <= k < |p| - 1 && p[k] == branch ==> p[k + 1] == g[branch][arm]
  {
    var m :| 0 <= m < |p| && p[m] == branch;
    assert m < |p| - 1;
    forall k | 0 <= k < |p| - 1 && p[k] == branch ensures p[k + 1] == g[branch][arm] {
      SelectedOnEveryDeparture(g, target, branch, arm, p, k);
    }
  }

  // --- repetition --------------------------------------------------------

  /** A marked header whose loop holds the block. */
  ghost predicate MarkedAround(blocks: map<Id, Block>, entry: Id, id: Id, block: Id) {
    id in blocks && blocks[id].loopHeader && InLoop(SuccessorsOf(blocks), entry, id, block)
  }

  /** The repetitions are listed in the frontend's order, one for each place at which a marked
      header around the block stands in it, with its bound. */
  lemma RepetitionsInOrder(blocks: map<Id, Block>, entry: Id, order: seq<Id>, block: Id) returns (ks: seq<nat>)
    requires forall id :: id in order ==> id in blocks
    ensures Gathers(|order|,
                    (k: nat) => k < |order| && MarkedAround(blocks, entry, order[k], block),
                    (k: nat, r: Repetition) =>
                      k < |order| && order[k] in blocks && r == Repetition(order[k], blocks[order[k]].loopBound),
                    ks, RepetitionsIn(blocks, entry, order, block))
  {
    var keep := (k: nat) => k < |order| && MarkedAround(blocks, entry, order[k], block);
    var gives := (k: nat, r: Repetition) =>
      k < |order| && order[k] in blocks && r == Repetition(order[k], blocks[order[k]].loopBound);
    ks := RepetitionsGathered(blocks, entry, order, block, keep, gives, |order|);
    assert order[..|order|] == order;
  }

  lemma {:induction false} RepetitionsGathered(blocks: map<Id, Block>, entry: Id, order: seq<Id>, block: Id,
                                               keep: nat -> bool, gives: (nat, Repetition) -> bool, n: nat)
    returns (ks: seq<nat>)
    requires n <= |order| && forall id :: id in order ==> id in blocks
    requires forall k: nat :: k < |order| ==> (keep(k) <==> MarkedAround(blocks, entry, order[k], block))
    requires forall k: nat, r :: k < |order| ==> (gives(k, r) <==> r == Repetition(order[k], blocks[order[k]].loopBound))
    ensures Gathers(n, keep, gives, ks, RepetitionsIn(blocks, entry, order[..n], block))
    decreases n
  {
    if n == 0 {
      GathersNone(keep, gives);
      return [];
    }
    var before := RepetitionsGathered(blocks, entry, order, block, keep, gives, n - 1);
    var id := order[n - 1];
    ks := if keep(n - 1) then before + [n - 1] else before;
    RepetitionsNext(blocks, entry, order, n - 1, block);
    GathersNext(n - 1, keep, gives, before, RepetitionsIn(blocks, entry, order[..n - 1], block),
                Repetition(id, blocks[id].loopBound), ks, RepetitionsIn(blocks, entry, order[..n], block));
  }

  /** Any two repetitions of one block are nested: one header dominates the other and its
      loop holds the other's. */
  lemma RepetitionsNest(blocks: map<Id, Block>, entry: Id, order: seq<Id>, block: Id, r1: Repetition, r2: Repetition)
    requires forall id :: id in order ==> id in blocks
    requires r1 in RepetitionsIn(blocks, entry, order, block)
    requires r2 in RepetitionsIn(blocks, entry, order, block)
    ensures var g := SuccessorsOf(blocks);
            || (Dom(g, entry, r1.header, r2.header) && LoopWithin(g, entry, r2.header, r1.header))
            || (Dom(g, entry, r2.header, r1.header) && LoopWithin(g, entry, r1.header, r2.header))
  {
    RepetitionsExact(blocks, entry, order, block);
    assert r1 == Repetition(r1.header, r1.bound) && r2 == Repetition(r2.header, r2.bound);
    LoopsNest(SuccessorsOf(blocks), entry, r1.header, r2.header, block);
  }

  // --- order does not matter ---------------------------------------------

  /** Two graphs over the same blocks answer alike, whatever order their blocks and their
      predecessors were visited in. */
  lemma AnswersIgnoreOrder(g: Graph, h: Graph)
    requires g.Valid() && h.Valid()
    requires g.blocks == h.blocks && g.entry == h.entry
    ensures g.postDoms == h.postDoms
    ensures g.domsBuilt && h.domsBuilt ==> g.doms == h.doms && g.reachedFromEntry == h.reachedFromEntry
  {
    forall n | n in g.postDoms ensures g.postDoms[n] == h.postDoms[n] {
    }
    if g.domsBuilt && h.domsBuilt {
      assert g.doms.Keys == h.doms.Keys;
      forall b | b in g.doms ensures g.doms[b] == h.doms[b] {
      }
    }
  }

  ghost predicate UniqueIds(bs: seq<Block>) {
    forall i, j :: 0 <= i < j < |bs| ==> bs[i].id != bs[j].id
  }

  lemma {:induction false} UniqueBlockKept(bs: seq<Block>, b: Block)
    requires UniqueIds(bs) && b in bs
    ensures b.id in BlocksById(bs) && BlocksById(bs)[b.id] == b
  {
    var k :| 0 <= k < |bs| && bs[k] == b;
    if k < |bs| - 1 {
      assert bs[..|bs| - 1][k] == b;
      UniqueBlockKept(bs[..|bs| - 1], b);
    }
  }

  /** Of several blocks under one id the last listed is the one kept. */
  lemma {:induction false} BlocksAreLast(bs: seq<Block>, k: nat, id: Id)
    requires k < |bs| && bs[k].id == id && forall j :: k < j < |bs| ==> bs[j].id != id
    ensures id in BlocksById(bs) && BlocksById(bs)[id] == bs[k]
    decreases |bs|
  {
    var n := |bs| - 1;
    if k < n {
      var before := bs[..n];
      assert before[k] == bs[k];
      BlocksAreLast(before, k, id);
      assert bs[n].id != id;
    }
  }

  lemma {:induction false} BlocksByIdHolds(bs: seq<Block>, id: Id)
    requires id in BlocksById(bs)
    ensures BlocksById(bs)[id] in bs
  {
    if bs != [] && id != bs[|bs| - 1].id {
      BlocksByIdHolds(bs[..|bs| - 1], id);
    }
  }

  /** With one block per id, listing the same blocks in another order builds the same map,
      and so the same answers. */
  lemma BlocksIgnoreOrder(bs: seq<Block>, cs: seq<Block>)
    requires UniqueIds(bs) && UniqueIds(cs)
    requires forall b :: b in bs <==> b in cs
    ensures BlocksById(bs) == BlocksById(cs)
  {
    forall id | id in BlocksById(bs) ensures id in BlocksById(cs) && BlocksById(cs)[id] == BlocksById(bs)[id] {
      BlocksByIdHolds(bs, id);
      UniqueBlockKept(cs, BlocksById(bs)[id]);
    }
    forall id | id in BlocksById(cs) ensures id in BlocksById(bs) {
      BlocksByIdHolds(cs, id);
      UniqueBlockKept(bs, BlocksById(cs)[id]);
    }
  }
}
