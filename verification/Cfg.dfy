/** A function's blocks as a graph, and the questions the rules put to it. */
module Cfg {
  import opened Paths
  import opened Dominance
  import opened Dataflow
  import opened Loops
  import opened Worklist
  import opened Ir

  /** A loop a block takes part in, by its header, and what bounds it. */
  datatype Repetition = Repetition(header: Id, bound: Id)

  function IdsOf(blocks: seq<Block>): seq<Id> {
    seq(|blocks|, i requires 0 <= i < |blocks| => blocks[i].id)
  }

  /** Blocks by id. The last of several blocks that share an id is the one kept. */
  function BlocksById(blocks: seq<Block>): (m: map<Id, Block>)
    ensures forall id :: id in m <==> id in IdsOf(blocks)
    ensures forall id :: id in m ==> m[id].id == id
  {
    if blocks == [] then map[]
    else
      var last := blocks[|blocks| - 1];
      assert IdsOf(blocks) == IdsOf(blocks[..|blocks| - 1]) + [last.id];
      BlocksById(blocks[..|blocks| - 1])[last.id := last]
  }

  function SuccessorsOf(blocks: map<Id, Block>): Digraph<Id> {
    map id | id in blocks :: blocks[id].successors
  }

  predicate Precedes(preds: map<Id, seq<Id>>, b: Id, s: Id) {
    s in preds && b in preds[s]
  }

  class Graph {
    const entry: Id
    var blocks: map<Id, Block>
    var order: seq<Id>
    var preds: map<Id, seq<Id>>
    var postDoms: Sets<Id>

    // Filled on first use.
    var domsBuilt: bool
    var doms: Sets<Id>
    var reachedFromEntry: set<Id>

    function Succ(): Digraph<Id>
      reads this`blocks
    {
      SuccessorsOf(blocks)
    }

    function SuccessorsAt(id: Id): (r: seq<Id>)
      reads this`blocks
      ensures r == Next(Succ(), id)
    {
      if id in blocks then blocks[id].successors else []
    }

    /** The blocks, their order and their predecessors agree with one another. */
    ghost predicate Linked()
      reads this`blocks, this`order, this`preds
    {
      && (forall id :: id in order <==> id in blocks)
      && (forall id :: id in blocks ==> blocks[id].id == id)
      && (forall s, b :: Precedes(preds, b, s) <==> s in blocks && Edge(Succ(), b, s))
    }

    ghost predicate PostDomsRight()
      reads this
    {
      && postDoms.Keys == blocks.Keys
      && forall n, a :: n in postDoms ==> (a in postDoms[n] <==> PostDom(Succ(), a, n))
    }

    ghost predicate ReachedRight()
      reads this`blocks, this`reachedFromEntry
    {
      ReachSet(Succ(), entry, reachedFromEntry)
    }

    ghost predicate DomsRight()
      reads this
    {
      && ReachedRight()
      && (forall b :: b in doms <==> b in blocks && Connected(Succ(), entry, b))
      && (forall b, a :: b in doms ==> (a in doms[b] <==> Dom(Succ(), entry, a, b)))
    }

    ghost predicate Valid()
      reads this
    {
      Linked() && PostDomsRight() && (domsBuilt ==> DomsRight())
    }

    constructor (entryBlock: Id, fnBlocks: seq<Block>)
      ensures Valid() && entry == entryBlock
      ensures blocks == BlocksById(fnBlocks) && order == IdsOf(fnBlocks)
    {
      entry := entryBlock;
      blocks := map[];
      order := [];
      preds := map[];
      postDoms := map[];
      domsBuilt := false;
      doms := map[];
      reachedFromEntry := {};
      new;
      IndexBlocks(fnBlocks);
      LinkPredecessors();
      ComputePostDominators();
    }

    method IndexBlocks(fnBlocks: seq<Block>)
      requires blocks == map[] && order == []
      modifies this`blocks, this`order
      ensures blocks == BlocksById(fnBlocks) && order == IdsOf(fnBlocks)
    {
      for i := 0 to |fnBlocks|
        invariant blocks == BlocksById(fnBlocks[..i]) && order == IdsOf(fnBlocks[..i])
      {
        var b := fnBlocks[i];
        assert fnBlocks[..i + 1][..i] == fnBlocks[..i];
        blocks := blocks[b.id := b];
        order := order + [b.id];
      }
      assert fnBlocks[..|fnBlocks|] == fnBlocks;
    }

    /** Reads every block's successors backwards. Blocks are visited in no particular
        order, and a successor that is no block gains no predecessor. */
    method LinkPredecessors()
      requires forall id :: id in order <==> id in blocks
      requires forall id :: id in blocks ==> blocks[id].id == id
      requires preds == map[]
      modifies this`preds
      ensures Linked()
    {
      var rest := blocks.Keys;
      while rest != {}
        invariant rest <= blocks.Keys
        invariant forall s, c :: Precedes(preds, c, s) <==>
                    s in blocks && c in blocks && c !in rest && s in blocks[c].successors
      {
        var id :| id in rest;
        var b := blocks[id];
        for k := 0 to |b.successors|
          invariant forall s, c :: Precedes(preds, c, s) <==>
                      && s in blocks && c in blocks && s in blocks[c].successors
                      && (c !in rest || (c == id && s in b.successors[..k]))
        {
          var s := b.successors[k];
          assert b.successors[..k + 1] == b.successors[..k] + [s];
          if s in blocks {
            preds := preds[s := (if s in preds then preds[s] else []) + [b.id]];
          }
        }
        assert b.successors[..|b.successors|] == b.successors;
        rest := rest - {id};
      }
      assert forall s, c :: s in blocks && Edge(Succ(), c, s) ==> Precedes(preds, c, s);
    }

    /** The blocks with no successors. */
    method Exits() returns (out: set<Id>)
      requires Linked()
      ensures forall id :: id in out <==> id in blocks && blocks[id].successors == []
    {
      out := {};
      for i := 0 to |order|
        invariant forall id :: id in out <==> id in order[..i] && blocks[id].successors == []
      {
        if blocks[order[i]].successors == [] {
          out := out + {order[i]};
        }
      }
      assert order[..|order|] == order;
    }

    /** One step of the post-dominator iteration: what every successor agrees on, and the
        block itself. */
    method MeetSuccessors(id: Id) returns (next: set<Id>)
      requires Linked() && id in blocks && postDoms.Keys == blocks.Keys
      ensures IsStep(Succ(), postDoms, id, next)
    {
      var succs := blocks[id].successors;
      var met := false;
      next := {};
      for k := 0 to |succs|
        invariant met <==> exists s :: s in succs[..k] && s in blocks
        invariant forall a :: a in next <==>
                    met && forall s :: s in succs[..k] && s in blocks ==> a in postDoms[s]
      {
        var s := succs[k];
        assert succs[..k + 1] == succs[..k] + [s];
        if s !in postDoms {
          continue;
        }
        if met {
          next := set a | a in next && a in postDoms[s];
        } else {
          next, met := postDoms[s], true;
        }
      }
      assert succs[..|succs|] == succs;
      next := next + {id};
    }

    /** Where the iteration starts: everything for a block that goes somewhere, only itself
        for one that does not. */
    method StartPostDominators()
      requires Linked()
      modifies this`postDoms
      ensures Narrowing(Succ(), postDoms) && ExitsAlone()
    {
      var all := set id | id in order;
      var exits := Exits();
      postDoms := map[];
      for i := 0 to |order|
        invariant forall id :: id in postDoms <==> id in order[..i]
        invariant forall id :: id in postDoms ==> postDoms[id] == if id in exits then {id} else all
      {
        postDoms := postDoms[order[i] := if order[i] in exits then {order[i]} else all];
      }
      assert order[..|order|] == order;
      forall a, n | PostDom(Succ(), a, n) ensures a in postDoms[n] {
        PostDomUnfold(Succ(), a, n);
      }
    }

    ghost predicate ExitsAlone()
      requires postDoms.Keys == blocks.Keys
      reads this
    {
      forall id :: id in blocks && blocks[id].successors == [] ==> postDoms[id] == {id}
    }

    ghost predicate StableAt(n: Id)
      requires n in blocks && postDoms.Keys == blocks.Keys
      reads this
    {
      IsStep(Succ(), postDoms, n, postDoms[n])
    }

    /** Replaces one block's set by what its successors agree on and itself. */
    method StepPostDominators(id: Id) returns (changed: bool)
      requires Linked() && Narrowing(Succ(), postDoms) && ExitsAlone()
      requires id in blocks
      modifies this`postDoms
      ensures Narrowing(Succ(), postDoms) && ExitsAlone()
      ensures changed ==> Pairs(postDoms) < Pairs(old(postDoms))
      ensures !changed ==> postDoms == old(postDoms) && StableAt(id)
    {
      var next := MeetSuccessors(id);
      StepNarrows(Succ(), postDoms, id, next);
      changed := next != postDoms[id];
      if changed {
        postDoms := postDoms[id := next];
      }
    }

    lemma ExitStable(id: Id)
      requires Narrowing(Succ(), postDoms) && ExitsAlone()
      requires id in blocks && blocks[id].successors == []
      ensures StableAt(id)
    {
    }

    /** Steps every block but the exits once, last block first, and says whether any set
        changed. */
    method PostDominatorPass(exits: set<Id>) returns (changed: bool)
      requires Linked() && Narrowing(Succ(), postDoms) && ExitsAlone()
      requires forall id :: id in exits <==> id in blocks && blocks[id].successors == []
      modifies this`postDoms
      ensures Narrowing(Succ(), postDoms) && ExitsAlone()
      ensures changed ==> Pairs(postDoms) < Pairs(old(postDoms))
      ensures !changed ==> postDoms == old(postDoms) && forall n :: n in order ==> StableAt(n)
    {
      changed := false;
      for i := |order| downto 0
        invariant Narrowing(Succ(), postDoms) && ExitsAlone()
        invariant if changed then Pairs(postDoms) < Pairs(old(postDoms)) else postDoms == old(postDoms)
        invariant !changed ==> forall n :: n in order[i..] ==> StableAt(n)
      {
        var id := order[i];
        DropNext(order, i);
        if id in exits {
          ExitStable(id);
          continue;
        }
        var stepped := StepPostDominators(id);
        changed := changed || stepped;
      }
      assert order[0..] == order;
    }

    /** Fills in the post-dominator sets by intersection until a pass changes nothing. */
    method ComputePostDominators()
      requires Linked()
      modifies this`postDoms
      ensures PostDomsRight()
    {
      StartPostDominators();
      var exits := Exits();
      var changed := true;
      while changed
        invariant Narrowing(Succ(), postDoms) && ExitsAlone()
        invariant !changed ==> forall n :: n in order ==> StableAt(n)
        decreases Pairs(postDoms), changed
      {
        changed := PostDominatorPass(exits);
      }
      StableIsUnavoidable(Succ(), postDoms);
    }

    // --- dominance and reachability --------------------------------------

    /** Every block, known or not, that control can arrive at. */
    method CollectReached() returns (reached: set<Id>)
      ensures ReachSet(Succ(), entry, reached)
    {
      ghost var g := Succ();
      var queue := [entry];
      ghost var roots := queue;
      ExploreStart(g, roots);
      reached := {};
      while queue != []
        invariant Explored(g, roots, reached, queue)
        decreases Nodes(g, roots) - reached, |queue|
      {
        var id := queue[0];
        ghost var rest := queue[1..];
        HeadAndRest(queue);
        queue := queue[1..];
        if id in reached {
          ExploreSkip(g, roots, reached, id, rest);
          continue;
        }
        ExploreStep(g, roots, reached, id, rest);
        reached := reached + {id};
        queue := queue + SuccessorsAt(id);
      }
      ExploreDoneFrom(g, entry, reached);
    }

    /** The edges the dominator iteration intersects along: backwards, between reached
        blocks, and none out of the entry. */
    ghost function ReachedPreds(): Digraph<Id>
      reads this`blocks, this`preds, this`reachedFromEntry
    {
      map n | n in blocks && n in reachedFromEntry ::
        if n == entry || n !in preds then [] else Keep(preds[n], reachedFromEntry)
    }

    lemma ReachedPredsReverse()
      requires Linked() && ReachedRight()
      ensures ReversesFrom(Succ(), entry, ReachedPreds())
      ensures forall n, s :: n in ReachedPreds() && s in ReachedPreds()[n] ==> s in ReachedPreds()
    {
      var r := ReachedPreds();
      forall n, m
        ensures Edge(r, n, m) <==>
                n != entry && n in r && Edge(Succ(), m, n) && Connected(Succ(), entry, m)
      {
        if n in preds { KeepHolds(preds[n], reachedFromEntry, m); }
        assert Precedes(preds, m, n) <==> n in blocks && Edge(Succ(), m, n);
      }
      forall n, s | n in r && s in r[n] ensures s in r {
        assert Edge(r, n, s);
      }
    }

    /** What every reached predecessor agrees on, if there is one. */
    ghost predicate PredsAgree(ps: seq<Id>, a: Id)
      reads this`reachedFromEntry, this`doms
    {
      && (exists p :: p in ps && p in reachedFromEntry)
      && (forall p :: p in ps && p in reachedFromEntry ==> p in doms && a in doms[p])
    }

    /** One step of the dominator iteration: what every reached predecessor agrees on, and
        the block itself. */
    method MeetPredecessors(id: Id) returns (next: set<Id>)
      requires id in preds ==> forall p :: p in preds[id] && p in reachedFromEntry ==> p in doms
      ensures forall a :: a in next <==> a == id || PredsAgree(if id in preds then preds[id] else [], a)
    {
      var ps := if id in preds then preds[id] else [];
      var met := false;
      next := {};
      for k := 0 to |ps|
        invariant met <==> exists p :: p in ps[..k] && p in reachedFromEntry
        invariant forall a :: a in next <==> PredsAgree(ps[..k], a)
      {
        var p := ps[k];
        assert ps[..k + 1] == ps[..k] + [p];
        if p !in reachedFromEntry {
          continue;
        }
        if met {
          next := set a | a in next && a in doms[p];
        } else {
          next, met := doms[p], true;
        }
      }
      assert ps[..|ps|] == ps;
      next := next + {id};
    }

    lemma MeetIsStep(id: Id, next: set<Id>)
      requires Linked() && ReachedRight()
      requires id in ReachedPreds() && id != entry && doms.Keys == ReachedPreds().Keys
      requires forall a :: a in next <==> a == id || PredsAgree(if id in preds then preds[id] else [], a)
      ensures IsStep(ReachedPreds(), doms, id, next)
    {
      var ps := if id in preds then preds[id] else [];
      var r := ReachedPreds();
      forall s ensures s in r[id] <==> s in ps && s in reachedFromEntry {
        KeepHolds(ps, reachedFromEntry, s);
      }
      forall s | s in r[id] ensures s in r {
        ReachedPredsReverse();
      }
      AgreeIsStep(r, doms, id, ps, reachedFromEntry, next);
    }

    lemma PredsHaveSets(id: Id)
      requires Linked() && doms.Keys == ReachedPreds().Keys
      ensures id in preds ==> forall p :: p in preds[id] && p in reachedFromEntry ==> p in doms
    {
      if id in preds {
        forall p | p in preds[id] && p in reachedFromEntry ensures p in doms {
          assert Precedes(preds, p, id);
        }
      }
    }

    ghost predicate EntryAlone()
      reads this
    {
      entry in doms ==> doms[entry] == {entry}
    }

    ghost predicate DomStableAt(n: Id)
      requires n in ReachedPreds() && doms.Keys == ReachedPreds().Keys
      reads this
    {
      IsStep(ReachedPreds(), doms, n, doms[n])
    }

    /** Where the dominator iteration starts: everything reached, and only itself for the
        entry. */
    method StartDominators()
      requires Linked() && ReachedRight()
      modifies this`doms
      ensures Narrowing(ReachedPreds(), doms) && EntryAlone()
    {
      var all := set id | id in order && id in reachedFromEntry;
      doms := map[];
      for i := 0 to |order|
        invariant forall id :: id in doms <==> id in order[..i] && id in reachedFromEntry
        invariant forall id :: id in doms ==> doms[id] == if id == entry then {id} else all
      {
        var id := order[i];
        if id !in reachedFromEntry {
          continue;
        }
        doms := doms[id := if id == entry then {id} else all];
      }
      assert order[..|order|] == order;
      StartNarrows(all);
    }

    lemma StartNarrows(all: set<Id>)
      requires Linked() && ReachedRight()
      requires forall id :: id in all <==> id in order && id in reachedFromEntry
      requires forall id :: id in doms <==> id in order && id in reachedFromEntry
      requires forall id :: id in doms ==> doms[id] == if id == entry then {id} else all
      ensures Narrowing(ReachedPreds(), doms)
    {
      ReachedPredsReverse();
      var r := ReachedPreds();
      forall a, n | PostDom(r, a, n) ensures a in doms[n] {
        PostDomUnfold(r, a, n);
        ReversedOnlyEntryTerminal(Succ(), entry, r, n);
      }
      forall n, a | n in r && InStep(r, doms, n, a) ensures a in doms[n] {
        ReversedOnlyEntryTerminal(Succ(), entry, r, n);
        if a != n {
          var s :| s in r[n] && s in r;
          assert a in doms[s];
        }
      }
    }

    /** Replaces one block's set by what its reached predecessors agree on and itself. */
    method StepDominators(id: Id) returns (changed: bool)
      requires Linked() && ReachedRight()
      requires Narrowing(ReachedPreds(), doms) && EntryAlone()
      requires id in doms && id != entry
      modifies this`doms
      ensures Narrowing(ReachedPreds(), doms) && EntryAlone()
      ensures changed ==> Pairs(doms) < Pairs(old(doms))
      ensures !changed ==> doms == old(doms) && DomStableAt(id)
    {
      PredsHaveSets(id);
      var next := MeetPredecessors(id);
      MeetIsStep(id, next);
      StepNarrows(ReachedPreds(), doms, id, next);
      changed := next != doms[id];
      if changed {
        doms := doms[id := next];
      }
    }

    lemma EntryStable()
      requires Narrowing(ReachedPreds(), doms) && EntryAlone() && entry in doms
      ensures DomStableAt(entry)
    {
    }

    /** Steps every reached block but the entry once, and says whether any set changed. */
    method DominatorPass() returns (changed: bool)
      requires Linked() && ReachedRight()
      requires Narrowing(ReachedPreds(), doms) && EntryAlone()
      modifies this`doms
      ensures Narrowing(ReachedPreds(), doms) && EntryAlone()
      ensures changed ==> Pairs(doms) < Pairs(old(doms))
      ensures !changed ==> doms == old(doms) && forall n :: n in ReachedPreds() ==> DomStableAt(n)
    {
      changed := false;
      for i := 0 to |order|
        invariant Narrowing(ReachedPreds(), doms) && EntryAlone()
        invariant if changed then Pairs(doms) < Pairs(old(doms)) else doms == old(doms)
        invariant !changed ==> forall n :: n in order[..i] && n in doms ==> DomStableAt(n)
      {
        TakeNext(order, i);
        var stepped := VisitDominators(order[i]);
        changed := changed || stepped;
      }
      assert order[..|order|] == order;
    }

    /** Updates the set of one block, if it is reached and not the entry. */
    method VisitDominators(id: Id) returns (changed: bool)
      requires Linked() && ReachedRight()
      requires Narrowing(ReachedPreds(), doms) && EntryAlone() && id in blocks
      modifies this`doms
      ensures Narrowing(ReachedPreds(), doms) && EntryAlone()
      ensures changed ==> Pairs(doms) < Pairs(old(doms))
      ensures !changed ==> doms == old(doms) && (id in doms ==> DomStableAt(id))
    {
      if id !in reachedFromEntry {
        return false;
      }
      if id == entry {
        EntryStable();
        return false;
      }
      changed := StepDominators(id);
    }

    /** Builds the dominator sets on first use. Every later call changes nothing. */
    method ComputeDominators()
      requires Valid()
      modifies this`doms, this`reachedFromEntry, this`domsBuilt
      ensures Valid() && domsBuilt
      ensures old(domsBuilt) ==> doms == old(doms) && reachedFromEntry == old(reachedFromEntry)
    {
      if domsBuilt {
        return;
      }
      domsBuilt := true;
      reachedFromEntry := CollectReached();
      SolveDominators();
    }

    method SolveDominators()
      requires Linked() && ReachedRight()
      modifies this`doms
      ensures DomsRight()
    {
      StartDominators();
      var changed := true;
      while changed
        invariant Narrowing(ReachedPreds(), doms) && EntryAlone()
        invariant !changed ==> forall n :: n in ReachedPreds() ==> DomStableAt(n)
        decreases Pairs(doms), changed
      {
        changed := DominatorPass();
      }
      StableIsUnavoidable(ReachedPreds(), doms);
      ReachedPredsReverse();
      forall a, b | b in doms ensures a in doms[b] <==> Dom(Succ(), entry, a, b) {
        DominanceReversed(Succ(), entry, ReachedPreds(), a, b);
      }
    }

    // --- the questions ---------------------------------------------------

    /** Whether every path from `from` out of the function passes through a. */
    predicate PostDominates(a: Id, from: Id)
      requires Valid()
      reads this
      ensures PostDominates(a, from) <==> PostDom(Succ(), a, from)
    {
      from in postDoms && a in postDoms[from]
    }

    /** Whether taking the branch one way makes the block unavoidable, and taking it another
        way does not. */
    method ControlDependsOn(block: Id, branch: Id) returns (r: bool)
      requires Valid()
      ensures r <==> Decides(Succ(), block, branch)
    {
      if branch !in blocks || |blocks[branch].successors| < 2 {
        return false;
      }
      var arms := blocks[branch].successors;
      var reaches, avoids := false, false;
      for k := 0 to |arms|
        invariant reaches <==> exists i :: 0 <= i < k && PostDom(Succ(), block, arms[i])
        invariant avoids <==> exists i :: 0 <= i < k && !PostDom(Succ(), block, arms[i])
      {
        if PostDominates(block, arms[k]) {
          reaches := true;
        } else {
          avoids := true;
        }
      }
      return reaches && avoids;
    }

    /** Whether the block is unavoidable on exactly the indexed arm of the branch. */
    method DependsOnSuccessor(block: Id, branch: Id, successor: int) returns (r: bool)
      requires Valid()
      ensures r <==> DecidesByArm(Succ(), block, branch, successor)
    {
      if branch !in blocks || successor < 0 || successor >= |blocks[branch].successors| {
        return false;
      }
      var arms := blocks[branch].successors;
      if !PostDominates(block, arms[successor]) {
        return false;
      }
      for i := 0 to |arms|
        invariant forall j :: 0 <= j < i && j != successor ==> !PostDom(Succ(), block, arms[j])
      {
        if i != successor && PostDominates(block, arms[i]) {
          return false;
        }
      }
      return true;
    }

    /** Whether the branch decides that the function may stop: nothing after it is
        unavoidable. */
    predicate IsGuard(block: Id)
      requires Valid()
      reads this
      ensures IsGuard(block) <==> Guards(Succ(), block)
    {
      assert block in postDoms ==> (|postDoms[block]| == 1 <==> Guards'(Succ(), block)) by {
        if block in postDoms { OnlyItself(Succ(), postDoms[block], block); }
      }
      block in blocks && |blocks[block].successors| >= 2 && |postDoms[block]| == 1
    }

    /** Whether there is a guard among the candidates. */
    method AnyGuard(candidates: seq<Id>) returns (r: bool)
      requires Valid()
      ensures r <==> exists b :: b in candidates && Guards(Succ(), b)
    {
      for i := 0 to |candidates|
        invariant forall b :: b in candidates[..i] ==> !Guards(Succ(), b)
      {
        if IsGuard(candidates[i]) {
          return true;
        }
      }
      return false;
    }

    /** Whether a path of at least one edge joins the two blocks. */
    method Reaches(from: Id, to: Id) returns (r: bool)
      ensures r <==> ConnectedByEdges(Succ(), from, to)
    {
      ghost var g := Succ();
      ConnectedByEdgesUnfold(g, from, to);
      if from !in blocks {
        return false;
      }
      ghost var roots := g[from];
      ExploreStart(g, roots);
      var seen: set<Id> := {};
      var queue := blocks[from].successors;
      while queue != []
        invariant Explored(g, roots, seen, queue) && to !in seen
        decreases Nodes(g, roots) - seen, |queue|
      {
        var id := queue[0];
        HeadAndRest(queue);
        queue := queue[1..];
        if id == to {
          return true;
        }
        if id in seen {
          ExploreSkip(g, roots, seen, id, queue);
          continue;
        }
        ExploreStep(g, roots, seen, id, queue);
        seen := seen + {id};
        queue := queue + SuccessorsAt(id);
      }
      ExploreDone(g, roots, seen);
      return false;
    }

    /** Whether the arm at this index, and no other, has a path to the target. */
    method SelectedBySuccessor(target: Id, branch: Id, selected: int) returns (r: bool)
      requires Valid()
      ensures r <==> Selects(Succ(), target, branch, selected)
    {
      if branch !in blocks || selected < 0 || selected >= |blocks[branch].successors|
         || |blocks[branch].successors| < 2 {
        return false;
      }
      var arms := blocks[branch].successors;
      for i := 0 to |arms|
        invariant forall j :: 0 <= j < i ==> (Connected(Succ(), arms[j], target) <==> j == selected)
      {
        var reaches := Reaches(arms[i], target);
        reaches := arms[i] == target || reaches;
        ConnectedSplit(Succ(), arms[i], target);
        if i == selected {
          if !reaches {
            return false;
          }
          continue;
        }
        if reaches {
          return false;
        }
      }
      return true;
    }

    /** Whether b is reachable and a is on all of its entry paths. */
    method Dominates(a: Id, b: Id) returns (r: bool)
      requires Valid()
      modifies this`doms, this`reachedFromEntry, this`domsBuilt
      ensures Valid() && domsBuilt
      ensures r <==> Dom(Succ(), entry, a, b)
    {
      ComputeDominators();
      return b in doms && a in doms[b];
    }

    /** Whether some entry path ends at b. */
    method Reachable(b: Id) returns (r: bool)
      requires Valid()
      modifies this`doms, this`reachedFromEntry, this`domsBuilt
      ensures Valid() && domsBuilt
      ensures r <==> Connected(Succ(), entry, b)
    {
      ComputeDominators();
      return b in reachedFromEntry;
    }

    /** The header's natural loop, found backwards from the sources of its back edges. */
    method NaturalLoop(header: Id) returns (members: set<Id>)
      requires Valid()
      modifies this`doms, this`reachedFromEntry, this`domsBuilt
      ensures Valid() && (old(domsBuilt) ==> domsBuilt)
      ensures LoopSet(Succ(), entry, header, members)
    {
      ghost var g := Succ();
      var work := BackEdgeSources(header);
      members := if work == [] then {} else {header};
      WalkedStart(header, work);
      while work != []
        invariant Valid() && (old(domsBuilt) ==> domsBuilt)
        invariant Walked(g, entry, header, members, work)
        decreases blocks.Keys - members, |work|
      {
        var id := work[|work| - 1];
        ghost var rest := work[..|work| - 1];
        RestAndLast(work);
        work := work[..|work| - 1];
        if id in members {
          WalkedSkip(g, entry, header, members, rest, id);
        } else {
          work := VisitMember(header, id, members, work);
          members := members + {id};
        }
      }
      WalkedDone(g, entry, header, members);
    }

    /** Takes one block into the loop and queues what the header dominates before it. */
    method VisitMember(header: Id, id: Id, ghost members: set<Id>, waiting: seq<Id>) returns (work: seq<Id>)
      requires Valid() && Walked(Succ(), entry, header, members, waiting + [id]) && id !in members
      modifies this`doms, this`reachedFromEntry, this`domsBuilt
      ensures Valid() && (old(domsBuilt) ==> domsBuilt)
      ensures id in blocks && Walked(Succ(), entry, header, members + {id}, work)
    {
      WalkedHolds(Succ(), entry, header, members, waiting + [id], id);
      work := WalkBack(header, id, if id in preds then preds[id] else [], waiting);
      WalkedStep(Succ(), entry, header, members, waiting, id, work);
    }

    /** The predecessors of the header that it dominates. */
    method BackEdgeSources(header: Id) returns (work: seq<Id>)
      requires Valid()
      modifies this`doms, this`reachedFromEntry, this`domsBuilt
      ensures Valid() && (old(domsBuilt) ==> domsBuilt)
      ensures forall s :: s in work <==>
                s in (if header in preds then preds[header] else []) && Dom(Succ(), entry, header, s)
    {
      work := [];
      var into := if header in preds then preds[header] else [];
      for i := 0 to |into|
        invariant Valid() && (old(domsBuilt) ==> domsBuilt)
        invariant forall s :: s in work <==> s in into[..i] && Dom(Succ(), entry, header, s)
      {
        var predecessor := into[i];
        assert into[..i + 1] == into[..i] + [predecessor];
        var reachable := Reachable(predecessor);
        var dominated := Dominates(header, predecessor);
        if !reachable || !dominated {
          continue;
        }
        work := work + [predecessor];
      }
      assert into[..|into|] == into;
    }

    /** Every back edge is an edge from a predecessor. */
    lemma WalkedStart(header: Id, work: seq<Id>)
      requires Linked()
      requires forall s :: s in work <==>
                 s in (if header in preds then preds[header] else []) && Dom(Succ(), entry, header, s)
      ensures Walked(Succ(), entry, header, if work == [] then {} else {header}, work)
    {
      forall s ensures s in work <==> BackEdge(Succ(), entry, header, s) {
        assert Precedes(preds, s, header) <==> header in blocks && Edge(Succ(), s, header);
        if Dom(Succ(), entry, header, s) {
          DomReachable(Succ(), entry, header, s);
        }
      }
      forall s | s in work ensures InLoop(Succ(), entry, header, s) {
        if s != header {
          assert PathFromTo(Succ(), [s], s, s) && header !in [s];
        }
      }
      assert work != [] ==> work[0] in work;
    }

    /** Queues the predecessors of a member that the header dominates. */
    method WalkBack(header: Id, id: Id, before: seq<Id>, waiting: seq<Id>) returns (work: seq<Id>)
      requires Valid() && id in blocks && before == if id in preds then preds[id] else []
      modifies this`doms, this`reachedFromEntry, this`domsBuilt
      ensures Valid() && (old(domsBuilt) ==> domsBuilt)
      ensures forall x :: x in work <==>
                x in waiting || (Edge(Succ(), x, id) && Dom(Succ(), entry, header, x))
    {
      work := waiting;
      for i := 0 to |before|
        invariant Valid() && (old(domsBuilt) ==> domsBuilt)
        invariant forall x :: x in work <==>
                    x in waiting || (x in before[..i] && Dom(Succ(), entry, header, x))
      {
        var predecessor := before[i];
        assert before[..i + 1] == before[..i] + [predecessor];
        var dominated := Dominates(header, predecessor);
        if dominated {
          work := work + [predecessor];
        }
      }
      assert before[..|before|] == before;
      forall x ensures Edge(Succ(), x, id) <==> x in before {
        assert Precedes(preds, x, id) <==> x in before;
      }
    }

    /** Whether a block is a header the frontend marked, and its loop holds another block. */
    method RepeatsUnder(id: Id, block: Id) returns (r: bool)
      requires Valid() && domsBuilt && id in blocks
      modifies this`doms, this`reachedFromEntry, this`domsBuilt
      ensures Valid() && domsBuilt
      ensures r <==> blocks[id].loopHeader && InLoop(Succ(), entry, id, block)
    {
      var arrived := Reachable(id);
      if !blocks[id].loopHeader || !arrived {
        LoopIsReachable(Succ(), entry, id, block);
        return false;
      }
      var members := NaturalLoop(id);
      return block in members;
    }

    /** Every repetition the block takes part in, in the frontend's order. */
    method Repetitions(block: Id) returns (out: seq<Repetition>)
      requires Valid()
      modifies this`doms, this`reachedFromEntry, this`domsBuilt
      ensures Valid() && domsBuilt
      ensures out == RepetitionsIn(blocks, entry, order, block)
    {
      ghost var g := Succ();
      out := [];
      var reachable := Reachable(block);
      if !reachable {
        UnreachableRepeatsNothing(blocks, entry, order, block);
        return;
      }
      for i := 0 to |order|
        invariant Valid() && domsBuilt
        invariant out == RepetitionsIn(blocks, entry, order[..i], block)
      {
        RepetitionsNext(blocks, entry, order, i, block);
        var repeats := RepeatsUnder(order[i], block);
        if !repeats {
          continue;
        }
        out := out + [Repetition(order[i], blocks[order[i]].loopBound)];
      }
      assert order[..|order|] == order;
    }

    /** Whether the block takes part in any repetition the frontend stated. */
    method Repeats(block: Id) returns (r: bool)
      requires Valid()
      modifies this`doms, this`reachedFromEntry, this`domsBuilt
      ensures Valid() && domsBuilt
      ensures r <==> exists h :: h in blocks && blocks[h].loopHeader && InLoop(Succ(), entry, h, block)
    {
      var repetitions := Repetitions(block);
      RepetitionsExact(blocks, entry, order, block);
      return repetitions != [];
    }
  }

  /** The graph of a function, or null where there is nothing to build it from. */
  method Build(entryBlock: Id, fnBlocks: seq<Block>) returns (g: Graph?)
    ensures g == null <==> fnBlocks == [] || entryBlock.name == ""
    ensures g != null ==> fresh(g) && g.Valid() && g.entry == entryBlock
    ensures g != null ==> g.blocks == BlocksById(fnBlocks) && g.order == IdsOf(fnBlocks)
  {
    if fnBlocks == [] || entryBlock.name == "" {
      return null;
    }
    g := new Graph(entryBlock, fnBlocks);
  }

  // --- what the questions mean -------------------------------------------

  /** One arm of the branch leads unavoidably to the block and another does not. */
  ghost predicate Decides(g: Digraph<Id>, block: Id, branch: Id) {
    && branch in g && |g[branch]| >= 2
    && (exists i :: 0 <= i < |g[branch]| && PostDom(g, block, g[branch][i]))
    && (exists i :: 0 <= i < |g[branch]| && !PostDom(g, block, g[branch][i]))
  }

  /** The indexed arm, and no other, leads unavoidably to the block. */
  ghost predicate DecidesByArm(g: Digraph<Id>, block: Id, branch: Id, arm: int) {
    && branch in g && 0 <= arm < |g[branch]|
    && forall i :: 0 <= i < |g[branch]| ==> (PostDom(g, block, g[branch][i]) <==> i == arm)
  }

  /** The target is reachable through the indexed arm and through no other. */
  ghost predicate Selects(g: Digraph<Id>, target: Id, branch: Id, arm: int) {
    && branch in g && |g[branch]| >= 2 && 0 <= arm < |g[branch]|
    && forall i :: 0 <= i < |g[branch]| ==> (Connected(g, g[branch][i], target) <==> i == arm)
  }

  /** A branch after which nothing is unavoidable: each other block is missed by some way
      out of the function. */
  ghost predicate Guards(g: Digraph<Id>, b: Id) {
    b in g && |g[b]| >= 2 && Guards'(g, b)
  }

  ghost predicate Guards'(g: Digraph<Id>, b: Id) {
    forall a :: a in g && a != b ==> exists p :: PathOut(g, p, b) && a !in p
  }

  /** The frontend's headers whose natural loop holds the block, in order. */
  ghost function RepetitionsIn(blocks: map<Id, Block>, entry: Id, order: seq<Id>, block: Id): seq<Repetition>
    requires forall id :: id in order ==> id in blocks
  {
    if order == [] then []
    else
      var id := order[|order| - 1];
      RepetitionsIn(blocks, entry, order[..|order| - 1], block)
      + if blocks[id].loopHeader && InLoop(SuccessorsOf(blocks), entry, id, block)
        then [Repetition(id, blocks[id].loopBound)] else []
  }

  lemma RepetitionsNext(blocks: map<Id, Block>, entry: Id, order: seq<Id>, i: nat, block: Id)
    requires i < |order| && forall id :: id in order ==> id in blocks
    ensures RepetitionsIn(blocks, entry, order[..i + 1], block)
      == RepetitionsIn(blocks, entry, order[..i], block)
         + if blocks[order[i]].loopHeader && InLoop(SuccessorsOf(blocks), entry, order[i], block)
           then [Repetition(order[i], blocks[order[i]].loopBound)] else []
  {
    assert order[..i + 1][..i] == order[..i];
  }

  /** Agreement among the reached predecessors is one step of the iteration. */
  lemma AgreeIsStep(r: Digraph<Id>, x: Sets<Id>, id: Id, ps: seq<Id>, reached: set<Id>, next: set<Id>)
    requires id in r && x.Keys == r.Keys
    requires forall s :: s in r[id] <==> s in ps && s in reached
    requires forall s :: s in r[id] ==> s in r
    requires forall a :: a in next <==>
               || a == id
               || ((exists p :: p in ps && p in reached)
                   && (forall p :: p in ps && p in reached ==> p in x && a in x[p]))
    ensures IsStep(r, x, id, next)
  {
  }

  ghost function Keep(s: seq<Id>, kept: set<Id>): seq<Id> {
    if s == [] then [] else (if s[0] in kept then [s[0]] else []) + Keep(s[1..], kept)
  }

  lemma {:induction false} KeepHolds(s: seq<Id>, kept: set<Id>, x: Id)
    ensures x in Keep(s, kept) <==> x in s && x in kept
  {
    if s != [] {
      KeepHolds(s[1..], kept, x);
      assert s == [s[0]] + s[1..];
    }
  }

  lemma ConnectedSplit(g: Digraph<Id>, a: Id, b: Id)
    ensures Connected(g, a, b) <==> a == b || ConnectedByEdges(g, a, b)
  {
    ConnectedSelf(g, a);
  }

  lemma OnlyItself(g: Digraph<Id>, s: set<Id>, b: Id)
    requires b in g && forall a :: a in s <==> PostDom(g, a, b)
    ensures |s| == 1 <==> Guards'(g, b)
  {
    PostDomReflexive(g, b);
    if |s| == 1 {
      var x :| x in s;
      assert |s - {x}| == 0;
      assert forall a :: a in s ==> a == x;
      forall a | a in g && a != b ensures exists p :: PathOut(g, p, b) && a !in p {
        assert !PostDom(g, a, b);
      }
    }
    if Guards'(g, b) {
      assert forall a :: a in s ==> a == b;
      assert s == {b};
    }
  }

  /** Every member but the header has had its dominated predecessors queued, nothing but
      loop members is held, and every back edge is. */
  ghost predicate Walked(g: Digraph<Id>, entry: Id, header: Id, members: set<Id>, work: seq<Id>) {
    && (forall x :: x in members || x in work ==> InLoop(g, entry, header, x))
    && (IsLoop(g, entry, header) ==> header in members)
    && (forall s :: BackEdge(g, entry, header, s) ==> s in members || s in work)
    && (forall m, x :: m in members && m != header && Edge(g, x, m) && Dom(g, entry, header, x)
                       ==> x in members || x in work)
  }

  lemma WalkedStep(g: Digraph<Id>, entry: Id, header: Id, members: set<Id>, rest: seq<Id>, id: Id, work: seq<Id>)
    requires Walked(g, entry, header, members, rest + [id]) && id !in members
    requires forall x :: x in work <==> x in rest || (Edge(g, x, id) && Dom(g, entry, header, x))
    ensures Walked(g, entry, header, members + {id}, work)
  {
    assert id in rest + [id];
    forall x | x in work ensures InLoop(g, entry, header, x) {
      if x in rest {
        assert x in rest + [id];
      } else {
        DomReachable(g, entry, header, x);
        LoopStepBack(g, entry, header, x, id);
      }
    }
  }

  lemma WalkedSkip(g: Digraph<Id>, entry: Id, header: Id, members: set<Id>, rest: seq<Id>, id: Id)
    requires Walked(g, entry, header, members, rest + [id]) && id in members
    ensures Walked(g, entry, header, members, rest)
  {
    assert forall x :: x in rest ==> x in rest + [id];
  }

  lemma WalkedHolds(g: Digraph<Id>, entry: Id, header: Id, members: set<Id>, work: seq<Id>, x: Id)
    requires Walked(g, entry, header, members, work) && x in work
    ensures x in g && InLoop(g, entry, header, x)
  {
    HeaderDominatesLoop(g, entry, header, x);
  }

  lemma WalkedDone(g: Digraph<Id>, entry: Id, header: Id, members: set<Id>)
    requires Walked(g, entry, header, members, [])
    ensures LoopSet(g, entry, header, members)
  {
    forall x | InLoop(g, entry, header, x) ensures x in members {
      if x != header {
        var s :| BackEdge(g, entry, header, s) && ConnectedAvoiding(g, x, s, header);
        var p :| PathFromTo(g, p, x, s) && header !in p;
        WalkedPath(g, entry, header, members, p);
      }
    }
  }

  lemma WalkedPath(g: Digraph<Id>, entry: Id, header: Id, members: set<Id>, p: seq<Id>)
    requires Walked(g, entry, header, members, [])
    requires IsPath(g, p) && header !in p && Connected(g, entry, p[0])
    requires BackEdge(g, entry, header, p[|p| - 1])
    ensures p[0] in members
  {
    var k := |p| - 1;
    while k > 0
      invariant 0 <= k < |p| && p[k] in members
    {
      assert Edge(g, p[k - 1], p[k]) && p[k - 1] in p && p[k] in p;
      OnTheWayRound(g, entry, header, p, p[k - 1]);
      HeaderDominatesLoop(g, entry, header, p[k - 1]);
      k := k - 1;
    }
  }

  /** Nothing control cannot arrive at repeats, or heads a repetition. */
  lemma LoopIsReachable(g: Digraph<Id>, entry: Id, header: Id, x: Id)
    ensures InLoop(g, entry, header, x) ==> Connected(g, entry, header) && Connected(g, entry, x)
  {
    if InLoop(g, entry, header, x) {
      HeaderDominatesLoop(g, entry, header, x);
      DomReachable(g, entry, header, x);
    }
  }

  lemma {:induction false} UnreachableRepeatsNothing(blocks: map<Id, Block>, entry: Id, order: seq<Id>, block: Id)
    requires forall id :: id in order ==> id in blocks
    requires !Connected(SuccessorsOf(blocks), entry, block)
    ensures RepetitionsIn(blocks, entry, order, block) == []
  {
    if order != [] {
      UnreachableRepeatsNothing(blocks, entry, order[..|order| - 1], block);
      LoopIsReachable(SuccessorsOf(blocks), entry, order[|order| - 1], block);
    }
  }

  lemma {:induction false} RepetitionsExact(blocks: map<Id, Block>, entry: Id, order: seq<Id>, block: Id)
    requires forall id :: id in order ==> id in blocks
    ensures forall h, bound :: Repetition(h, bound) in RepetitionsIn(blocks, entry, order, block) <==>
              && h in order && blocks[h].loopHeader && bound == blocks[h].loopBound
              && InLoop(SuccessorsOf(blocks), entry, h, block)
    ensures RepetitionsIn(blocks, entry, order, block) == [] <==>
              forall h :: h in order && blocks[h].loopHeader ==>
                !InLoop(SuccessorsOf(blocks), entry, h, block)
  {
    if order != [] {
      RepetitionsExact(blocks, entry, order[..|order| - 1], block);
      assert order == order[..|order| - 1] + [order[|order| - 1]];
    }
  }
}
