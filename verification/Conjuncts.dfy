/** What a comparison was AND-ed with, and why a false operand skips what it decides. */
module Conjuncts {
  import opened Paths
  import opened Worklist
  import opened Ir
  import opened Cfg

  const BOTH := "both"

  function Names(values: seq<Value>): map<Id, string> {
    if values == [] then map[]
    else
      var last := values[|values| - 1];
      Names(values[..|values| - 1])[last.id := last.name]
  }

  /** The value each comparison expression produced, by where it was written. */
  function ComparisonValues(values: seq<Value>): map<Loc, Id> {
    if values == [] then map[]
    else
      var last := values[|values| - 1];
      var rest := ComparisonValues(values[..|values| - 1]);
      if last.name == "comparison" then rest[last.loc := last.id] else rest
  }

  predicate NamedBoth(names: map<Id, string>, id: Id) {
    id in names && names[id] == BOTH
  }

  /** The assignment makes one value an operand of a conjunction. */
  predicate Operand(flows: seq<Flow>, names: map<Id, string>, conj: Id, operand: Id) {
    NamedBoth(names, conj) && exists f :: f in flows && f.kind == "assign" && f.from == operand && f.to == conj
  }

  /** The maps agree with the function: each edge is an operand of a conjunction, read up in
      `into` and down in `from`. */
  class Conjunctions {
    var name: map<Id, string>
    var into: Digraph<Id>
    var from: Digraph<Id>
    var cmpValue: map<Loc, Id>

    ghost predicate Reads(values: seq<Value>, flows: seq<Flow>)
      reads this
    {
      && name == Names(values)
      && cmpValue == ComparisonValues(values)
      && (forall a, b :: Edge(into, a, b) <==> Operand(flows, name, b, a))
      && (forall a, b :: Edge(from, b, a) <==> Operand(flows, name, b, a))
    }

    constructor (values: seq<Value>, flows: seq<Flow>)
      ensures Reads(values, flows)
    {
      name := map[];
      into := map[];
      from := map[];
      cmpValue := map[];
      new;
      for i := 0 to |values|
        invariant name == Names(values[..i]) && cmpValue == ComparisonValues(values[..i])
        invariant into == map[] && from == map[]
      {
        assert values[..i + 1][..i] == values[..i];
        name := name[values[i].id := values[i].name];
        if values[i].name == "comparison" {
          cmpValue := cmpValue[values[i].loc := values[i].id];
        }
      }
      assert values[..|values|] == values;
      Relate(flows);
    }

    /** Files each assignment into a conjunction under both of its ends. */
    method Relate(flows: seq<Flow>)
      requires into == map[] && from == map[]
      modifies this`into, this`from
      ensures forall a, b :: Edge(into, a, b) <==> Operand(flows, name, b, a)
      ensures forall a, b :: Edge(from, b, a) <==> Operand(flows, name, b, a)
    {
      for i := 0 to |flows|
        invariant forall a, b :: Edge(into, a, b) <==> Operand(flows[..i], name, b, a)
        invariant forall a, b :: Edge(from, b, a) <==> Operand(flows[..i], name, b, a)
      {
        var f := flows[i];
        ghost var upTo, names := flows[..i], name;
        OperandNext(flows, i, names);
        if f.kind == "assign" && NamedBoth(name, f.to) {
          AppendAddsEdge(into, f.from, f.to);
          AppendAddsEdge(from, f.to, f.from);
          into := into[f.from := Next(into, f.from) + [f.to]];
          from := from[f.to := Next(from, f.to) + [f.from]];
          assert forall a, b :: Edge(into, a, b) <==> Operand(upTo, names, b, a) || (a == f.from && b == f.to);
        } else {
          assert forall a, b :: Operand(flows[..i + 1], names, b, a) <==> Operand(upTo, names, b, a);
        }
      }
      assert flows[..|flows|] == flows;
    }

    lemma ReadsMirrored(values: seq<Value>, flows: seq<Flow>)
      requires Reads(values, flows)
      ensures Mirrored(into, from)
    {
    }

    /** What the maps hold, off the function's own lists: an edge from an operand up to a value
        called "both" for each assignment, the same edge down, and each comparison's value. */
    lemma ReadsTheLists(values: seq<Value>, flows: seq<Flow>, conj: Id, operand: Id, loc: Loc)
      requires Reads(values, flows)
      ensures Edge(into, operand, conj) <==> Assigned(values, flows, conj, operand)
      ensures Edge(from, conj, operand) <==> Assigned(values, flows, conj, operand)
      ensures NamedBoth(name, operand) <==> exists k :: LastWithId(values, k, operand) && values[k].name == "both"
      ensures loc in cmpValue <==> exists k :: LastComparison(values, k, loc)
      ensures forall k :: LastComparison(values, k, loc) ==> loc in cmpValue && cmpValue[loc] == values[k].id
    {
      OperandsAreAssigned(values, flows, conj, operand);
      NamesAreLast(values, operand, "both");
      ComparisonsAreLast(values, loc);
    }

    /** Every conjunction above the seed. */
    method Enclosing(seed: Id) returns (enclosing: set<Id>)
      ensures forall b :: b in enclosing <==> ConnectedByEdges(into, seed, b)
    {
      enclosing := {};
      var queue := [seed];
      ghost var universe := Nodes(into, []);
      while queue != []
        invariant enclosing <= universe
        invariant forall b :: b in enclosing ==> ConnectedByEdges(into, seed, b)
        invariant forall b :: b in queue ==> b == seed || b in enclosing
        invariant ClosedBut(into, seed, enclosing, queue)
        decreases universe - enclosing, |queue|
      {
        var cur := queue[0];
        HeadAndRest(queue);
        ghost var rest := queue[1..];
        queue := queue[1..];
        var above := Next(into, cur);
        ghost var start := enclosing;
        for k := 0 to |above|
          invariant start <= enclosing <= universe
          invariant forall b :: b in above[..k] ==> b in enclosing
          invariant forall b :: b in enclosing ==> b in start || b in above[..k]
          invariant forall b :: b in queue <==> b in rest || (b in enclosing && b !in start)
          invariant enclosing == start ==> queue == rest
        {
          var b := above[k];
          TakeNext(above, k);
          assert Edge(into, cur, b);
          if b in enclosing {
            continue;
          }
          enclosing := enclosing + {b};
          queue := queue + [b];
        }
        assert above[..|above|] == above;
        AboveConnected(into, seed, cur, above);
      }
      ClosedIsAbove(into, seed, enclosing);
    }

    /** The operands of the given conjunctions, expanded through nested ones. */
    method Expand(enclosing: set<Id>) returns (out: set<Id>)
      ensures forall o :: o in out <==> BelowAny(from, name, enclosing, o)
    {
      out := {};
      var queue := Listed(enclosing);
      ghost var g, roots := Nested(from, name), queue;
      ExploreStart(g, roots);
      var seen: set<Id> := {};
      while queue != []
        invariant Explored(g, roots, seen, queue)
        invariant OperandsOf(from, seen, out)
        decreases Nodes(g, roots) - seen, |queue|
      {
        var cur := queue[0];
        HeadAndRest(queue);
        ghost var rest := queue[1..];
        queue := queue[1..];
        if cur in seen {
          ExploreSkip(g, roots, seen, cur, rest);
          continue;
        }
        ExploreStep(g, roots, seen, cur, rest);
        ghost var before := out;
        out, queue := QueueOperands(cur, out, queue);
        OperandsOfNext(from, seen, cur, before, out);
        seen := seen + {cur};
      }
      ExploreDone(g, roots, seen);
      BelowSeen(from, name, roots, enclosing, seen, out);
    }

    /** Records the operands of one conjunction and queues those that are conjunctions. */
    method QueueOperands(cur: Id, held: set<Id>, waiting: seq<Id>) returns (out: set<Id>, queue: seq<Id>)
      ensures forall o :: o in out <==> o in held || o in Next(from, cur)
      ensures queue == waiting + Next(Nested(from, name), cur)
    {
      var operands := Next(from, cur);
      out, queue := held, waiting;
      for k := 0 to |operands|
        invariant forall o :: o in out <==> o in held || o in operands[..k]
        invariant queue == waiting + Conjunctive(operands[..k], name)
      {
        TakeNext(operands, k);
        ConjunctiveNext(operands[..k], operands[k], name);
        out := out + {operands[k]};
        if NamedBoth(name, operands[k]) {
          queue := queue + [operands[k]];
        }
      }
      assert operands[..|operands|] == operands;
    }

    /** A false operand among those found makes a conjunction around the comparison false,
        and everything above it. */
    lemma FalseOperandSkips(values: seq<Value>, flows: seq<Flow>, holds: Id -> bool, loc: Loc, o: Id) returns (b: Id)
      requires Reads(values, flows) && Valuation(from, holds)
      requires loc in cmpValue && Conjoined(into, from, name, cmpValue[loc], o) && !holds(o)
      ensures ConnectedByEdges(into, cmpValue[loc], b)
      ensures forall top :: Connected(into, b, top) ==> !holds(top)
    {
      ReadsMirrored(values, flows);
      b := AbsentOperandSkips(into, from, name, holds, cmpValue[loc], o);
    }

    /** The other operands of the conjunctions above the comparison at this place. */
    method Operands(loc: Loc) returns (out: set<Id>)
      ensures forall o :: o in out <==> loc in cmpValue && Conjoined(into, from, name, cmpValue[loc], o)
    {
      if loc !in cmpValue {
        return {};
      }
      var seed := cmpValue[loc];
      var enclosing := Enclosing(seed);
      if enclosing == {} {
        return {};
      }
      out := Expand(enclosing);
      out := out - {seed};
    }
  }

  /** A set's members in some order. */
  method Listed(s: set<Id>) returns (q: seq<Id>)
    ensures forall b :: b in q <==> b in s
  {
    q := [];
    var left := s;
    while left != {}
      invariant left <= s
      invariant forall b :: b in q <==> b in s && b !in left
    {
      var b :| b in left;
      q := q + [b];
      left := left - {b};
    }
  }

  /** Whether some block that throws is selected by the true arm of the comparison's branch. */
  method RejectsWhenTrue(entryBlock: Id, fnBlocks: seq<Block>, cmp: Comparison) returns (r: bool)
    ensures r <==>
            && fnBlocks != [] && entryBlock != NOTHING
            && exists b :: b in fnBlocks && b.terminator == "throw"
                 && Selects(SuccessorsOf(BlocksById(fnBlocks)), b.id, cmp.block, 0)
  {
    var g := Build(entryBlock, fnBlocks);
    if g == null {
      return false;
    }
    for i := 0 to |fnBlocks|
      invariant g.Valid() && g.blocks == BlocksById(fnBlocks)
      invariant forall b :: b in fnBlocks[..i] && b.terminator == "throw" ==> !Selects(g.Succ(), b.id, cmp.block, 0)
    {
      var b := fnBlocks[i];
      TakeNext(fnBlocks, i);
      if b.terminator != "throw" {
        continue;
      }
      var selected := g.SelectedBySuccessor(b.id, cmp.block, 0);
      if selected {
        return true;
      }
    }
    assert fnBlocks[..|fnBlocks|] == fnBlocks;
    return false;
  }

  // --- what the answer means ---------------------------------------------

  function Conjunctive(operands: seq<Id>, names: map<Id, string>): seq<Id> {
    if operands == [] then []
    else Conjunctive(operands[..|operands| - 1], names)
         + if NamedBoth(names, operands[|operands| - 1]) then [operands[|operands| - 1]] else []
  }

  /** The edges from a conjunction to those of its operands that are conjunctions. */
  function Nested(from: Digraph<Id>, names: map<Id, string>): Digraph<Id> {
    map c | c in from :: Conjunctive(from[c], names)
  }

  /** An operand of the conjunction, or of one nested in it. */
  ghost predicate Below(from: Digraph<Id>, names: map<Id, string>, b: Id, o: Id) {
    exists c :: Connected(Nested(from, names), b, c) && Edge(from, c, o)
  }

  /** Another value under some conjunction above the seed. */
  ghost predicate Conjoined(into: Digraph<Id>, from: Digraph<Id>, names: map<Id, string>, seed: Id, o: Id) {
    o != seed && exists b :: ConnectedByEdges(into, seed, b) && Below(from, names, b, o)
  }

  /** Every conjunction one edge past what the upward walk holds is held, or its operand
      still waits to be walked from. */
  ghost predicate ClosedBut(into: Digraph<Id>, seed: Id, held: set<Id>, queue: seq<Id>) {
    forall x, y :: (x == seed || x in held) && Edge(into, x, y) ==> y in held || x in queue
  }

  lemma OperandNext(flows: seq<Flow>, i: nat, names: map<Id, string>)
    requires i < |flows|
    ensures forall a, b :: Operand(flows[..i + 1], names, b, a) <==>
              || Operand(flows[..i], names, b, a)
              || (NamedBoth(names, b) && flows[i].kind == "assign" && flows[i].from == a && flows[i].to == b)
  {
    TakeNext(flows, i);
  }

  lemma AboveConnected(into: Digraph<Id>, seed: Id, cur: Id, above: seq<Id>)
    requires cur == seed || ConnectedByEdges(into, seed, cur)
    requires above == Next(into, cur)
    ensures forall b :: b in above ==> ConnectedByEdges(into, seed, b)
  {
    forall b | b in above ensures ConnectedByEdges(into, seed, b) {
      if cur == seed {
        PathStep(into, cur, b);
      } else {
        var p :| PathFromTo(into, p, seed, cur) && |p| > 1;
        PathSnoc(into, p, b);
      }
    }
  }

  lemma ClosedIsAbove(into: Digraph<Id>, seed: Id, held: set<Id>)
    requires ClosedBut(into, seed, held, [])
    ensures forall b :: ConnectedByEdges(into, seed, b) ==> b in held
  {
    forall b | ConnectedByEdges(into, seed, b) ensures b in held {
      ConnectedByEdgesUnfold(into, seed, b);
      var s :| s in into[seed] && Connected(into, s, b);
      assert Edge(into, seed, s);
      var p :| PathFromTo(into, p, s, b);
      ClosedHoldsPath(into, held, p);
    }
  }

  lemma ConjunctiveNext(operands: seq<Id>, o: Id, names: map<Id, string>)
    ensures Conjunctive(operands + [o], names) ==
            Conjunctive(operands, names) + if NamedBoth(names, o) then [o] else []
  {
    assert (operands + [o])[..|operands|] == operands;
  }

  lemma {:induction false} ConjunctiveHolds(operands: seq<Id>, names: map<Id, string>, x: Id)
    ensures x in Conjunctive(operands, names) ==> x in operands
  {
    if operands != [] {
      ConjunctiveHolds(operands[..|operands| - 1], names, x);
    }
  }

  /** Exactly the operands of the conjunctions already expanded. */
  ghost predicate OperandsOf(from: Digraph<Id>, seen: set<Id>, out: set<Id>) {
    && (forall o :: o in out ==> exists c :: c in seen && Edge(from, c, o))
    && (forall c, o :: c in seen && Edge(from, c, o) ==> o in out)
  }

  lemma OperandsOfNext(from: Digraph<Id>, seen: set<Id>, cur: Id, before: set<Id>, out: set<Id>)
    requires OperandsOf(from, seen, before)
    requires forall o :: o in out <==> o in before || o in Next(from, cur)
    ensures OperandsOf(from, seen + {cur}, out)
  {
    assert forall o :: o in Next(from, cur) <==> Edge(from, cur, o);
  }

  ghost predicate BelowAny(from: Digraph<Id>, names: map<Id, string>, bs: set<Id>, o: Id) {
    exists b :: b in bs && Below(from, names, b, o)
  }

  lemma BelowSeen(from: Digraph<Id>, names: map<Id, string>, roots: seq<Id>, bs: set<Id>, seen: set<Id>, out: set<Id>)
    requires forall b :: b in roots <==> b in bs
    requires forall b :: b in seen <==> FromAny(Nested(from, names), roots, b)
    requires OperandsOf(from, seen, out)
    ensures forall o :: o in out <==> BelowAny(from, names, bs, o)
  {
    forall o | o in out ensures BelowAny(from, names, bs, o) {
      var c :| c in seen && Edge(from, c, o);
      var b :| b in roots && Connected(Nested(from, names), b, c);
      assert Below(from, names, b, o);
    }
    forall o | BelowAny(from, names, bs, o) ensures o in out {
      var b :| b in bs && Below(from, names, b, o);
      var c :| Connected(Nested(from, names), b, c) && Edge(from, c, o);
      assert FromAny(Nested(from, names), roots, c);
    }
  }

  /** The last value listed under the id. */
  ghost predicate LastWithId(values: seq<Value>, k: int, id: Id) {
    0 <= k < |values| && values[k].id == id && forall j :: k < j < |values| ==> values[j].id != id
  }

  lemma LastIdNext(values: seq<Value>, last: Value, k: int, id: Id)
    ensures LastWithId(values + [last], k, id) <==>
            if last.id == id then k == |values| else LastWithId(values, k, id)
  {
    var all := values + [last];
    assert all[|values|] == last && forall j :: 0 <= j < |values| ==> all[j] == values[j];
    if last.id == id && 0 <= k < |values| { assert all[|values|].id == id; }
  }

  /** A name is the one the last value under the id has. */
  lemma {:induction false} NamesAreLast(values: seq<Value>, id: Id, name: string)
    ensures (id in Names(values) && Names(values)[id] == name) <==>
            exists k :: LastWithId(values, k, id) && values[k].name == name
    decreases |values|
  {
    if values != [] {
      var n := |values| - 1;
      NamesAreLast(values[..n], id, name);
      assert values == values[..n] + [values[n]];
      forall k ensures LastWithId(values, k, id) <==> if values[n].id == id then k == n else LastWithId(values[..n], k, id) {
        LastIdNext(values[..n], values[n], k, id);
      }
      if values[n].id != id {
        if k :| LastWithId(values[..n], k, id) && values[..n][k].name == name {
          assert LastWithId(values, k, id) && values[k].name == name;
        }
        if k :| LastWithId(values, k, id) && values[k].name == name {
          assert LastWithId(values[..n], k, id) && values[..n][k].name == name;
        }
      } else {
        assert LastWithId(values, n, id);
      }
    }
  }

  /** The one value is assigned to the other, which is called "both". */
  ghost predicate Assigned(values: seq<Value>, flows: seq<Flow>, conj: Id, operand: Id) {
    && (exists k :: LastWithId(values, k, conj) && values[k].name == "both")
    && (exists f :: f in flows && f.kind == "assign" && f.from == operand && f.to == conj)
  }

  /** What is an operand of what, off the function's own lists. */
  lemma OperandsAreAssigned(values: seq<Value>, flows: seq<Flow>, conj: Id, operand: Id)
    ensures Operand(flows, Names(values), conj, operand) <==> Assigned(values, flows, conj, operand)
  {
    NamesAreLast(values, conj, "both");
  }

  /** The last comparison written at the place. */
  ghost predicate LastComparison(values: seq<Value>, k: int, loc: Loc) {
    && 0 <= k < |values| && values[k].name == "comparison" && values[k].loc == loc
    && forall j :: k < j < |values| ==> !(values[j].name == "comparison" && values[j].loc == loc)
  }

  lemma LastComparisonNext(values: seq<Value>, last: Value, k: int, loc: Loc)
    ensures LastComparison(values + [last], k, loc) <==>
            if last.name == "comparison" && last.loc == loc then k == |values| else LastComparison(values, k, loc)
  {
    var all := values + [last];
    assert all[|values|] == last && forall j :: 0 <= j < |values| ==> all[j] == values[j];
  }

  /** The value a comparison is found by its place as is the last one written there. */
  lemma {:induction false} ComparisonsAreLast(values: seq<Value>, loc: Loc)
    ensures loc in ComparisonValues(values) <==> exists k :: LastComparison(values, k, loc)
    ensures forall k :: LastComparison(values, k, loc) ==> loc in ComparisonValues(values) && ComparisonValues(values)[loc] == values[k].id
    decreases |values|
  {
    if values != [] {
      var n := |values| - 1;
      var hit := values[n].name == "comparison" && values[n].loc == loc;
      ComparisonsAreLast(values[..n], loc);
      assert values == values[..n] + [values[n]];
      forall k ensures LastComparison(values, k, loc) <==> if hit then k == n else LastComparison(values[..n], k, loc) {
        LastComparisonNext(values[..n], values[n], k, loc);
      }
      if hit {
        assert LastComparison(values, n, loc);
      } else if loc in ComparisonValues(values[..n]) {
        var k :| LastComparison(values[..n], k, loc);
        assert LastComparison(values, k, loc);
      }
    }
  }

  // --- truth -------------------------------------------------------------

  /** Each conjunction is true exactly when all of its operands are. */
  ghost predicate Valuation(from: Digraph<Id>, holds: Id -> bool) {
    forall c :: c in from ==> (holds(c) <==> forall o :: o in from[c] ==> holds(o))
  }

  ghost predicate Mirrored(into: Digraph<Id>, from: Digraph<Id>) {
    forall a, b :: Edge(into, a, b) <==> Edge(from, b, a)
  }

  /** A false operand makes the conjunction above it false, however deep it is nested. */
  lemma FalseBelow(from: Digraph<Id>, names: map<Id, string>, holds: Id -> bool, b: Id, o: Id)
    requires Valuation(from, holds) && Below(from, names, b, o) && !holds(o)
    ensures !holds(b)
  {
    var g := Nested(from, names);
    var c :| Connected(g, b, c) && Edge(from, c, o);
    var p :| PathFromTo(g, p, b, c);
    var k := |p| - 1;
    while k > 0
      invariant 0 <= k < |p| && !holds(p[k])
    {
      assert Edge(g, p[k - 1], p[k]);
      ConjunctiveHolds(from[p[k - 1]], names, p[k]);
      k := k - 1;
    }
  }

  /** And with it every conjunction above that one. */
  lemma FalseAbove(into: Digraph<Id>, from: Digraph<Id>, holds: Id -> bool, b: Id, top: Id)
    requires Valuation(from, holds) && Mirrored(into, from)
    requires Connected(into, b, top) && !holds(b)
    ensures !holds(top)
  {
    var p :| PathFromTo(into, p, b, top);
    var k := 0;
    while k < |p| - 1
      invariant 0 <= k < |p| && !holds(p[k])
    {
      assert Edge(into, p[k], p[k + 1]) && Edge(from, p[k + 1], p[k]);
      k := k + 1;
    }
  }

  /** One false operand is enough: some conjunction the comparison is inside is false, and
      so is everything above it, so the comparison decides nothing there. */
  lemma AbsentOperandSkips(into: Digraph<Id>, from: Digraph<Id>, names: map<Id, string>, holds: Id -> bool, seed: Id, o: Id)
    returns (b: Id)
    requires Valuation(from, holds) && Mirrored(into, from)
    requires Conjoined(into, from, names, seed, o) && !holds(o)
    ensures ConnectedByEdges(into, seed, b)
    ensures forall top :: Connected(into, b, top) ==> !holds(top)
  {
    b :| ConnectedByEdges(into, seed, b) && Below(from, names, b, o);
    FalseBelow(from, names, holds, b, o);
    forall top | Connected(into, b, top) ensures !holds(top) {
      FalseAbove(into, from, holds, b, top);
    }
  }

  /** The operands are exactly what had to hold: the comparison and all of them are true
      when and only when every conjunction above the comparison is. */
  lemma OperandsAreWhatMustHold(into: Digraph<Id>, from: Digraph<Id>, names: map<Id, string>, holds: Id -> bool, seed: Id)
    requires Valuation(from, holds) && Mirrored(into, from)
    requires exists b :: ConnectedByEdges(into, seed, b)
    ensures (holds(seed) && forall o :: Conjoined(into, from, names, seed, o) ==> holds(o)) <==>
            (forall b :: ConnectedByEdges(into, seed, b) ==> holds(b))
  {
    if holds(seed) && forall o :: Conjoined(into, from, names, seed, o) ==> holds(o) {
      forall b | ConnectedByEdges(into, seed, b) ensures holds(b) {
        EnclosingHolds(into, from, names, holds, seed, b);
      }
    }
    if forall b :: ConnectedByEdges(into, seed, b) ==> holds(b) {
      forall o | Conjoined(into, from, names, seed, o) ensures holds(o) {
        if !holds(o) {
          var b := AbsentOperandSkips(into, from, names, holds, seed, o);
          ConnectedSelf(into, b);
        }
      }
      var b :| ConnectedByEdges(into, seed, b);
      var p :| PathFromTo(into, p, seed, b) && |p| > 1;
      assert Edge(into, p[0], p[1]) && Edge(from, p[1], seed);
      PathPrefix(into, p, 1);
    }
  }

  lemma EnclosingHolds(into: Digraph<Id>, from: Digraph<Id>, names: map<Id, string>, holds: Id -> bool, seed: Id, b: Id)
    requires Valuation(from, holds) && Mirrored(into, from) && ConnectedByEdges(into, seed, b)
    requires holds(seed) && forall o :: Conjoined(into, from, names, seed, o) ==> holds(o)
    ensures holds(b)
  {
    var p :| PathFromTo(into, p, seed, b) && |p| > 1;
    assert Edge(into, p[|p| - 2], b) && Edge(from, b, p[|p| - 2]);
    ConnectedSelf(Nested(from, names), b);
    forall o | o in from[b] ensures holds(o) {
      assert Edge(from, b, o) && Below(from, names, b, o);
    }
  }
}
