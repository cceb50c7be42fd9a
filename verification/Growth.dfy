/** When a view is reached in finitely many ways: the names that can lengthen without end. */
module Growth {
  import opened Ir
  import opened Paths
  import opened Rebinding
  import opened Chains
  import opened ViewGraph

  /** A name as it is seen in a view. */
  datatype Slot = Slot(view: Id, name: Name)

  // --- what a name in one view is made of in another ----------------------

  /** Drawing the view in makes the one name out of the other: the name the include gives a
      path rooted at, or the same name where the include leaves it alone. */
  predicate DrawsFrom(views: ViewTable, s: Slot, t: Slot, i: Include) {
    && s.view in views && i in views[s.view].includes && i.view == t.view
    && (if t.name in i.rebind then Root(i.rebind[t.name]) == s.name else s.name == t.name)
  }

  ghost predicate SlotEdge(views: ViewTable, s: Slot, t: Slot) {
    || (s.view in views && t.view in views[s.view].extends_ && s.name == t.name)
    || exists i :: DrawsFrom(views, s, t, i)
  }

  /** The include reads a field below the name, so what the name stands for gets longer. */
  predicate Lengthens(views: ViewTable, s: Slot, t: Slot, i: Include) {
    DrawsFrom(views, s, t, i) && t.name in i.rebind && Rest(i.rebind[t.name]) != ""
  }

  ghost predicate GrowingEdge(views: ViewTable, s: Slot, t: Slot) {
    exists i :: Lengthens(views, s, t, i)
  }

  ghost predicate SlotPath(views: ViewTable, p: seq<Slot>) {
    && p != []
    && forall i, j {:trigger p[i], p[j]} :: 0 <= i && j == i + 1 < |p| ==> SlotEdge(views, p[i], p[j])
  }

  ghost predicate SlotPathFromTo(views: ViewTable, p: seq<Slot>, s: Slot, t: Slot) {
    SlotPath(views, p) && p[0] == s && p[|p| - 1] == t
  }

  ghost predicate SlotLeads(views: ViewTable, s: Slot, t: Slot) {
    exists p :: SlotPathFromTo(views, p, s, t)
  }

  /** Rendering the first view arrives at the second, under some renaming. */
  ghost predicate Arrives(views: ViewTable, start: Id, id: Id) {
    exists m :: Derivable(views, Reached(start, map[]), Reached(id, m))
  }

  /** From a view to those it extends and includes. */
  function LinksOf(v: View): seq<Id> {
    v.extends_ + seq(|v.includes|, k requires 0 <= k < |v.includes| => v.includes[k].view)
  }

  function Links(views: ViewTable): Digraph<Id> {
    map id | id in views :: LinksOf(views[id])
  }

  /** In some view the links lead to, a name comes round to itself longer than it was. */
  ghost predicate GrowsRound(views: ViewTable, start: Id) {
    exists s: Slot, t: Slot :: Connected(Links(views), start, s.view) && GrowingEdge(views, s, t) && SlotLeads(views, t, s)
  }

  ghost predicate HoldsWalk(views: ViewTable, start: Id, universe: set<Reached>) {
    Reached(start, map[]) in universe && ClosedUnderSteps(views, universe)
  }

  /** The render reaches finitely many pairs of a view and a renaming. */
  ghost predicate FinitelyMany(views: ViewTable, start: Id) {
    exists universe :: HoldsWalk(views, start, universe)
  }

  lemma HopIsLink(views: ViewTable, id: Id, hop: Hop)
    requires HopFrom(views, id, hop)
    ensures Edge(Links(views), id, hop.To())
  {
    var v := views[id];
    match hop
    case Up(parent) => assert parent in LinksOf(v);
    case Down(drawn) =>
      var k :| 0 <= k < |v.includes| && v.includes[k] == drawn;
      assert LinksOf(v)[|v.extends_| + k] == drawn.view;
  }

  lemma LinkIsHop(views: ViewTable, id: Id, to: Id) returns (hop: Hop)
    requires Edge(Links(views), id, to)
    ensures HopFrom(views, id, hop) && hop.To() == to
  {
    var v := views[id];
    var k :| 0 <= k < |LinksOf(v)| && LinksOf(v)[k] == to;
    hop := if k < |v.extends_| then Up(to) else Down(v.includes[k - |v.extends_|]);
  }

  /** Rendering a view arrives at exactly the views its links lead to: what the renamings do
      on the way keeps it from none. */
  lemma ArrivesByLinks(views: ViewTable, start: Id, id: Id)
    ensures Arrives(views, start, id) <==> Connected(Links(views), start, id)
  {
    if m :| Derivable(views, Reached(start, map[]), Reached(id, m)) {
      var p: seq<Reached> :| ChainFromTo(StepsIn(views), p, Reached(start, map[]), Reached(id, m));
      var q: seq<Id> := seq(|p|, k requires 0 <= k < |p| => p[k].id);
      forall i, j {:trigger q[i], q[j]} | 0 <= i && j == i + 1 < |q| ensures Edge(Links(views), q[i], q[j]) {
        assert p[j] in Steps(views, p[i]);
        var hop := StepIsHop(views, p[i], p[j]);
        HopIsLink(views, p[i].id, hop);
      }
      assert PathFromTo(Links(views), q, start, id);
    }
    if p :| PathFromTo(Links(views), p, start, id) {
      DerivesSelf(StepsIn(views), Reached(start, map[]));
      var k := 0;
      while k < |p| - 1
        invariant 0 <= k < |p| && Arrives(views, start, p[k])
      {
        OneLinkFurther(views, start, p[k], p[k + 1]);
        k := k + 1;
      }
    }
  }

  lemma OneLinkFurther(views: ViewTable, start: Id, id: Id, to: Id)
    requires Arrives(views, start, id) && Edge(Links(views), id, to)
    ensures Arrives(views, start, to)
  {
    var m :| Derivable(views, Reached(start, map[]), Reached(id, m));
    var hop := LinkIsHop(views, id, to);
    HopIsStep(views, Reached(id, m), hop);
    var next := Hopped(Reached(id, m), hop);
    DerivesLast(StepsIn(views), Reached(start, map[]), Reached(id, m), next);
    assert next == Reached(to, next.rebind);
  }

  lemma SlotSelf(views: ViewTable, s: Slot)
    ensures SlotLeads(views, s, s)
  {
    assert SlotPathFromTo(views, [s], s, s);
  }

  lemma SlotOneMore(views: ViewTable, r: Slot, s: Slot, t: Slot)
    requires SlotLeads(views, r, s) && SlotEdge(views, s, t)
    ensures SlotLeads(views, r, t)
  {
    var p :| SlotPathFromTo(views, p, r, s);
    var q := p + [t];
    forall i, j {:trigger q[i], q[j]} | 0 <= i && j == i + 1 < |q| ensures SlotEdge(views, q[i], q[j]) {
      if j < |p| { assert q[i] == p[i] && q[j] == p[j]; }
    }
    assert SlotPathFromTo(views, q, r, t);
  }

  // --- growing round: no finite set holds the walk ------------------------

  /** One edge followed in a reached view: the name stays defined and gets no shorter. */
  lemma FollowEdge(views: ViewTable, n: Reached, s: Slot, t: Slot) returns (m: Reached)
    requires SlotEdge(views, s, t) && n.id == s.view && s.name in n.rebind
    ensures m in Steps(views, n) && m.id == t.view && t.name in m.rebind
    ensures |m.rebind[t.name].text| >= |n.rebind[s.name].text|
  {
    if t.view in views[s.view].extends_ && s.name == t.name {
      m := Reached(t.view, n.rebind);
      ExtendsIsStep(views, n, t.view);
    } else {
      var i :| DrawsFrom(views, s, t, i);
      m := Reached(i.view, Compose(i.rebind, n.rebind));
      IncludeIsStep(views, n, i);
      ComposeAt(i.rebind, n.rebind, t.name);
    }
  }

  /** A lengthening edge followed in a reached view, whatever the names stand for there. */
  lemma FollowGrowing(views: ViewTable, n: Reached, s: Slot, t: Slot) returns (m: Reached)
    requires GrowingEdge(views, s, t) && n.id == s.view
    ensures m in Steps(views, n) && m.id == t.view && t.name in m.rebind
    ensures s.name in n.rebind ==> |m.rebind[t.name].text| > |n.rebind[s.name].text|
  {
    var i :| Lengthens(views, s, t, i);
    m := Reached(i.view, Compose(i.rebind, n.rebind));
    IncludeIsStep(views, n, i);
    ComposeAt(i.rebind, n.rebind, t.name);
  }

  lemma {:induction false} FollowPath(views: ViewTable, start: Reached, n: Reached, p: seq<Slot>) returns (m: Reached)
    requires SlotPath(views, p) && n.id == p[0].view && p[0].name in n.rebind && Derivable(views, start, n)
    ensures Derivable(views, start, m) && m.id == p[|p| - 1].view && p[|p| - 1].name in m.rebind
    ensures |m.rebind[p[|p| - 1].name].text| >= |n.rebind[p[0].name].text|
    decreases |p|
  {
    if |p| == 1 {
      return n;
    }
    assert SlotEdge(views, p[0], p[1]);
    var next := FollowEdge(views, n, p[0], p[1]);
    DerivesLast(StepsIn(views), start, n, next);
    m := FollowPath(views, start, next, p[1..]);
  }

  /** As long as one likes. */
  lemma {:induction false} GrowsBeyond(views: ViewTable, start: Id, s: Slot, t: Slot, length: nat) returns (m: Reached)
    requires Arrives(views, start, s.view) && GrowingEdge(views, s, t) && SlotLeads(views, t, s)
    ensures Derivable(views, Reached(start, map[]), m) && m.id == t.view && t.name in m.rebind
    ensures |m.rebind[t.name].text| >= length
    decreases length
  {
    var from := Reached(start, map[]);
    var n: Reached;
    if length == 0 {
      var r :| Derivable(views, from, Reached(s.view, r));
      n := Reached(s.view, r);
    } else {
      var before := GrowsBeyond(views, start, s, t, length - 1);
      var p :| SlotPathFromTo(views, p, t, s);
      n := FollowPath(views, from, before, p);
    }
    m := FollowGrowing(views, n, s, t);
    DerivesLast(StepsIn(views), from, n, m);
  }

  /** The greatest length any of the renamings gives a name. */
  ghost function Greatest(universe: set<Reached>, name: Name): nat {
    if universe == {} then 0
    else
      var n :| n in universe;
      var rest := Greatest(universe - {n}, name);
      if name in n.rebind && |n.rebind[name].text| > rest then |n.rebind[name].text| else rest
  }

  lemma {:induction false} GreatestHolds(universe: set<Reached>, name: Name, n: Reached)
    requires n in universe && name in n.rebind
    ensures |n.rebind[name].text| <= Greatest(universe, name)
    decreases universe
  {
    var m :| m in universe && Greatest(universe, name) ==
      var rest := Greatest(universe - {m}, name);
      if name in m.rebind && |m.rebind[name].text| > rest then |m.rebind[name].text| else rest;
    if n != m {
      GreatestHolds(universe - {m}, name, n);
    }
  }

  lemma GrowingIsInfinite(views: ViewTable, start: Id)
    requires GrowsRound(views, start)
    ensures !FinitelyMany(views, start)
  {
    if universe :| HoldsWalk(views, start, universe) {
      var s: Slot, t: Slot :| Connected(Links(views), start, s.view) && GrowingEdge(views, s, t) && SlotLeads(views, t, s);
      ArrivesByLinks(views, start, s.view);
      var m := GrowsBeyond(views, start, s, t, Greatest(universe, t.name) + 1);
      ClosedHoldsDerived(StepsIn(views), universe, Reached(start, map[]), m);
      GreatestHolds(universe, t.name, m);
    }
  }

  // --- not growing round: a finite set that holds the walk ----------------

  /** The edges along which a name gets longer. */
  ghost function GrowingEdges(views: ViewTable): set<(Slot, Slot)> {
    set v, i, k | v in views && i in views[v].includes && k in i.rebind && Rest(i.rebind[k]) != ""
      :: (Slot(v, Root(i.rebind[k])), Slot(i.view, k))
  }

  /** No name anywhere comes round to itself longer than it was. */
  ghost predicate NoGrowth(views: ViewTable) {
    forall s, t :: GrowingEdge(views, s, t) ==> !SlotLeads(views, t, s)
  }

  /** The lengthening edges a name may have come by. */
  ghost function Behind(views: ViewTable, t: Slot): set<(Slot, Slot)> {
    set e | e in GrowingEdges(views) && SlotLeads(views, e.1, t)
  }

  lemma BehindGrows(views: ViewTable, s: Slot, t: Slot)
    requires SlotEdge(views, s, t)
    ensures Behind(views, s) <= Behind(views, t) && |Behind(views, s)| <= |Behind(views, t)|
  {
    forall e | e in Behind(views, s) ensures e in Behind(views, t) {
      SlotOneMore(views, e.1, s, t);
    }
    SmallerSet(Behind(views, s), Behind(views, t));
  }

  lemma BehindGrowsMore(views: ViewTable, s: Slot, t: Slot, i: Include)
    requires NoGrowth(views) && Lengthens(views, s, t, i)
    ensures |Behind(views, s)| + 1 <= |Behind(views, t)|
  {
    assert GrowingEdge(views, s, t) && SlotEdge(views, s, t);
    var e := (s, t);
    assert e in GrowingEdges(views);
    BehindGrows(views, s, t);
    SlotSelf(views, t);
    assert e !in Behind(views, s);
    SmallerSet(Behind(views, s) + {e}, Behind(views, t));
  }

  lemma {:induction false} SmallerSet<T>(a: set<T>, b: set<T>)
    requires a <= b
    ensures |a| <= |b|
    decreases a
  {
    if a != {} {
      var x :| x in a;
      SmallerSet(a - {x}, b - {x});
    }
  }

  /** Every path an include gives a name. */
  ghost function PathsIn(views: ViewTable): set<Path> {
    set v, i, k | v in views && i in views[v].includes && k in i.rebind :: i.rebind[k]
  }

  ghost function NamesIn(views: ViewTable): set<Name> {
    set v, i, k | v in views && i in views[v].includes && k in i.rebind :: k
  }

  ghost function CharsIn(views: ViewTable): set<char> {
    {'.'} + set p, c | p in PathsIn(views) && c in p.text :: c
  }

  ghost function LongestOf(paths: set<Path>): nat {
    if paths == {} then 0
    else
      var p :| p in paths;
      var rest := LongestOf(paths - {p});
      if |p.text| > rest then |p.text| else rest
  }

  lemma {:induction false} LongestHolds(paths: set<Path>, p: Path)
    requires p in paths
    ensures |p.text| <= LongestOf(paths)
    decreases paths
  {
    var q :| q in paths && LongestOf(paths) ==
      var rest := LongestOf(paths - {q});
      if |q.text| > rest then |q.text| else rest;
    if p != q {
      LongestHolds(paths - {q}, p);
    }
  }

  /** How long a path may be that has come by so many lengthening edges. */
  ghost function Limit(longest: nat, edges: nat): nat {
    if edges == 0 then longest else Limit(longest, edges - 1) + longest
  }

  lemma {:induction false} LimitGrows(longest: nat, few: nat, many: nat)
    requires few <= many
    ensures longest <= Limit(longest, few) <= Limit(longest, many)
    decreases many
  {
    if many > 0 {
      if few < many {
        LimitGrows(longest, few, many - 1);
      } else {
        LimitGrows(longest, few - 1, many - 1);
      }
    }
  }

  /** A name stands for a path made of what the includes are made of, no longer than the
      lengthening edges behind it allow. */
  ghost predicate Modest(views: ViewTable, n: Reached, k: Name)
    requires k in n.rebind
  {
    && k in NamesIn(views)
    && (forall c :: c in n.rebind[k].text ==> c in CharsIn(views))
    && |n.rebind[k].text| <= Limit(LongestOf(PathsIn(views)), |Behind(views, Slot(n.id, k))|)
  }

  ghost predicate AllModest(views: ViewTable, n: Reached) {
    forall k :: k in n.rebind ==> Modest(views, n, k)
  }

  lemma CarriedModest(views: ViewTable, n: Reached, m: Reached, x: Name, k: Name)
    requires x in n.rebind && Modest(views, n, x) && SlotEdge(views, Slot(n.id, x), Slot(m.id, k))
    requires k in m.rebind && m.rebind[k] == n.rebind[x] && k in NamesIn(views)
    ensures Modest(views, m, k)
  {
    BehindGrows(views, Slot(n.id, x), Slot(m.id, k));
    LimitGrows(LongestOf(PathsIn(views)), |Behind(views, Slot(n.id, x))|, |Behind(views, Slot(m.id, k))|);
  }

  lemma RestChars(p: Path)
    requires Rest(p) != ""
    ensures |Rest(p)| + 1 <= |p.text| && forall c :: c in Rest(p) ==> c in p.text
  {
    assert Rest(p) == p.text[IndexOf(p.text, '.') + 1..];
  }

  lemma LengthenedModest(views: ViewTable, n: Reached, m: Reached, x: Name, k: Name, i: Include)
    requires NoGrowth(views) && x in n.rebind && Modest(views, n, x)
    requires Lengthens(views, Slot(n.id, x), Slot(m.id, k), i)
    requires k in m.rebind && m.rebind[k] == Field(n.rebind[x], Rest(i.rebind[k]))
    ensures Modest(views, m, k)
  {
    var few, many := |Behind(views, Slot(n.id, x))|, |Behind(views, Slot(m.id, k))|;
    var longest := LongestOf(PathsIn(views));
    var p := i.rebind[k];
    assert p in PathsIn(views);
    LongestHolds(PathsIn(views), p);
    RestChars(p);
    BehindGrowsMore(views, Slot(n.id, x), Slot(m.id, k), i);
    LimitGrows(longest, few + 1, many);
    assert |m.rebind[k].text| == |n.rebind[x].text| + 1 + |Rest(p)|;
  }

  lemma WrittenModest(views: ViewTable, v: Id, i: Include, m: Reached, k: Name)
    requires v in views && i in views[v].includes && k in i.rebind
    requires k in m.rebind && m.rebind[k] == i.rebind[k]
    ensures Modest(views, m, k)
  {
    assert i.rebind[k] in PathsIn(views);
    LongestHolds(PathsIn(views), i.rebind[k]);
    LimitGrows(LongestOf(PathsIn(views)), 0, |Behind(views, Slot(m.id, k))|);
  }

  lemma IncludeModest(views: ViewTable, n: Reached, i: Include, m: Reached, k: Name)
    requires NoGrowth(views) && AllModest(views, n) && n.id in views && i in views[n.id].includes
    requires m == Reached(i.view, Compose(i.rebind, n.rebind)) && k in m.rebind
    ensures Modest(views, m, k)
  {
    ComposeAt(i.rebind, n.rebind, k);
    if k in i.rebind {
      var x := Root(i.rebind[k]);
      if x !in n.rebind {
        WrittenModest(views, n.id, i, m, k);
      } else {
        assert DrawsFrom(views, Slot(n.id, x), Slot(m.id, k), i);
        if Rest(i.rebind[k]) == "" {
          CarriedModest(views, n, m, x, k);
        } else {
          LengthenedModest(views, n, m, x, k, i);
        }
      }
    } else {
      assert DrawsFrom(views, Slot(n.id, k), Slot(m.id, k), i);
      CarriedModest(views, n, m, k, k);
    }
  }

  lemma ExtendsModest(views: ViewTable, n: Reached, e: Id)
    requires AllModest(views, n) && n.id in views && e in views[n.id].extends_
    ensures AllModest(views, Reached(e, n.rebind))
  {
    var m := Reached(e, n.rebind);
    forall k | k in m.rebind ensures Modest(views, m, k) {
      assert Modest(views, n, k);
      CarriedModest(views, n, m, k, k);
    }
  }

  lemma DrawnModest(views: ViewTable, n: Reached, i: Include)
    requires NoGrowth(views) && AllModest(views, n) && n.id in views && i in views[n.id].includes
    ensures AllModest(views, Reached(i.view, Compose(i.rebind, n.rebind)))
  {
    var m := Reached(i.view, Compose(i.rebind, n.rebind));
    forall k | k in m.rebind ensures Modest(views, m, k) {
      IncludeModest(views, n, i, m, k);
    }
  }

  lemma HopModest(views: ViewTable, n: Reached, hop: Hop)
    requires NoGrowth(views) && AllModest(views, n) && HopFrom(views, n.id, hop)
    ensures AllModest(views, Hopped(n, hop))
  {
    match hop
    case Up(e) => ExtendsModest(views, n, e);
    case Down(i) => DrawnModest(views, n, i);
  }

  /** Every text of these characters up to this length. */
  ghost function Texts(chars: set<char>, length: nat): set<string> {
    if length == 0 then {""}
    else {""} + set c, s | c in chars && s in Texts(chars, length - 1) :: [c] + s
  }

  lemma {:induction false} TextsHold(chars: set<char>, length: nat, s: string)
    requires |s| <= length && forall c :: c in s ==> c in chars
    ensures s in Texts(chars, length)
    decreases length
  {
    if s != "" {
      TextsHold(chars, length - 1, s[1..]);
      assert s == [s[0]] + s[1..] && s[0] in s;
    }
  }

  /** Every renaming of some of the names to some of the paths. */
  ghost function Rebinds(names: set<Name>, paths: set<Path>): set<Rebind> {
    if names == {} then {map[]}
    else
      var k :| k in names;
      var rest := Rebinds(names - {k}, paths);
      rest + set m, p | m in rest && p in paths :: m[k := p]
  }

  lemma {:induction false} RebindsHold(names: set<Name>, paths: set<Path>, m: Rebind)
    requires m.Keys <= names && m.Values <= paths
    ensures m in Rebinds(names, paths)
    decreases names
  {
    if names == {} {
      assert m == map[];
    } else {
      var k :| k in names && Rebinds(names, paths) == Rebinds(names - {k}, paths)
        + set m, p | m in Rebinds(names - {k}, paths) && p in paths :: m[k := p];
      var less := m - {k};
      assert less.Values <= m.Values;
      RebindsHold(names - {k}, paths, less);
      if k in m {
        assert m[k] in m.Values && m == less[k := m[k]];
      } else {
        assert m == less;
      }
    }
  }

  ghost function ModestPaths(views: ViewTable): set<Path> {
    var limit := Limit(LongestOf(PathsIn(views)), |GrowingEdges(views)|);
    set s | s in Texts(CharsIn(views), limit) :: Path(s)
  }

  /** Modest renamings are among finitely many. */
  lemma ModestIsListed(views: ViewTable, n: Reached)
    requires AllModest(views, n)
    ensures n.rebind in Rebinds(NamesIn(views), ModestPaths(views))
  {
    var longest, edges := LongestOf(PathsIn(views)), |GrowingEdges(views)|;
    forall p | p in n.rebind.Values ensures p in ModestPaths(views) {
      var k :| k in n.rebind && n.rebind[k] == p;
      assert Modest(views, n, k);
      SmallerSet(Behind(views, Slot(n.id, k)), GrowingEdges(views));
      LimitGrows(longest, |Behind(views, Slot(n.id, k))|, edges);
      TextsHold(CharsIn(views), Limit(longest, edges), p.text);
      assert p == Path(p.text);
    }
    forall k | k in n.rebind ensures k in NamesIn(views) {
      assert Modest(views, n, k);
    }
    RebindsHold(NamesIn(views), ModestPaths(views), n.rebind);
  }

  ghost function IdsFrom(views: ViewTable, start: Id): set<Id> {
    {start} + (set id, e | id in views && e in views[id].extends_ :: e)
    + (set id, i | id in views && i in views[id].includes :: i.view)
  }

  lemma StepIds(views: ViewTable, start: Id, n: Reached, m: Reached)
    requires m in Steps(views, n)
    ensures m.id in IdsFrom(views, start)
  {
    var hop := StepIsHop(views, n, m);
  }

  /** With no growth anywhere, a finite set holds the walk from any view. */
  lemma NoGrowthIsFinite(views: ViewTable, start: Id) returns (universe: set<Reached>)
    requires NoGrowth(views)
    ensures HoldsWalk(views, start, universe)
  {
    universe := set id, m | id in IdsFrom(views, start) && m in Rebinds(NamesIn(views), ModestPaths(views))
                            && AllModest(views, Reached(id, m)) :: Reached(id, m);
    ModestIsListed(views, Reached(start, map[]));
    forall a, b | a in universe && b in StepsIn(views)(a) ensures b in universe {
      var hop := StepIsHop(views, a, b);
      HopModest(views, a, hop);
      ModestIsListed(views, b);
      StepIds(views, start, a, b);
    }
  }

  /** The views the render arrives at. */
  ghost function Part(views: ViewTable, start: Id): ViewTable {
    map id | id in views && Arrives(views, start, id) :: views[id]
  }

  lemma PartHasNoGrowth(views: ViewTable, start: Id)
    requires !GrowsRound(views, start)
    ensures NoGrowth(Part(views, start))
  {
    var part := Part(views, start);
    forall s, t | GrowingEdge(part, s, t) ensures !SlotLeads(part, t, s) {
      PartEdges(views, start, s, t);
      ArrivesByLinks(views, start, s.view);
      PartLeads(views, start, t, s);
    }
  }

  lemma PartLeads(views: ViewTable, start: Id, s: Slot, t: Slot)
    ensures SlotLeads(Part(views, start), s, t) ==> SlotLeads(views, s, t)
  {
    if p :| SlotPathFromTo(Part(views, start), p, s, t) {
      PartPath(views, start, p);
      assert SlotPathFromTo(views, p, s, t);
    }
  }

  lemma PartEdges(views: ViewTable, start: Id, s: Slot, t: Slot)
    ensures GrowingEdge(Part(views, start), s, t) ==> GrowingEdge(views, s, t) && Arrives(views, start, s.view)
    ensures SlotEdge(Part(views, start), s, t) ==> SlotEdge(views, s, t)
  {
    var part := Part(views, start);
    if i :| Lengthens(part, s, t, i) {
      assert Lengthens(views, s, t, i);
    }
    if i :| DrawsFrom(part, s, t, i) {
      assert DrawsFrom(views, s, t, i);
    }
  }

  lemma PartPath(views: ViewTable, start: Id, p: seq<Slot>)
    requires SlotPath(Part(views, start), p)
    ensures SlotPath(views, p)
  {
    forall i, j {:trigger p[i], p[j]} | 0 <= i && j == i + 1 < |p| ensures SlotEdge(views, p[i], p[j]) {
      PartEdges(views, start, p[i], p[j]);
    }
  }

  lemma NotGrowingIsFinite(views: ViewTable, start: Id)
    requires !GrowsRound(views, start)
    ensures FinitelyMany(views, start)
  {
    var part, from := Part(views, start), Reached(start, map[]);
    PartHasNoGrowth(views, start);
    var universe := NoGrowthIsFinite(part, start);
    var reached := set n | n in universe && Derivable(views, from, n);
    DerivesSelf(StepsIn(views), from);
    forall a, b | a in reached && b in StepsIn(views)(a) ensures b in reached {
      DerivesLast(StepsIn(views), from, a, b);
      assert a == Reached(a.id, a.rebind);
      assert a.id in views ==> Arrives(views, start, a.id) && part[a.id] == views[a.id];
      assert b in Steps(part, a);
      StepInside(StepsIn(part), universe, a, b);
    }
    assert HoldsWalk(views, start, reached);
  }

  /** A render reaches finitely many pairs of a view and a renaming exactly when no name, in
      any view its links lead to, comes round to itself longer than it was. */
  lemma FiniteExactly(views: ViewTable, start: Id)
    ensures FinitelyMany(views, start) <==> !GrowsRound(views, start)
  {
    if GrowsRound(views, start) {
      GrowingIsInfinite(views, start);
    } else {
      NotGrowingIsFinite(views, start);
    }
  }

  // --- tables on which the walk ends --------------------------------------

  /** No view draws itself in, however indirectly. */
  ghost predicate NoCycle(views: ViewTable) {
    forall id :: !ConnectedByEdges(Links(views), id, id)
  }

  lemma SlotEdgeLinks(views: ViewTable, s: Slot, t: Slot)
    requires SlotEdge(views, s, t)
    ensures Edge(Links(views), s.view, t.view)
  {
    if t.view in views[s.view].extends_ && s.name == t.name {
      HopIsLink(views, s.view, Up(t.view));
    } else {
      var i :| DrawsFrom(views, s, t, i);
      HopIsLink(views, s.view, Down(i));
    }
  }

  lemma {:induction false} SlotPathLinks(views: ViewTable, p: seq<Slot>)
    requires SlotPath(views, p)
    ensures Connected(Links(views), p[0].view, p[|p| - 1].view)
    decreases |p|
  {
    if |p| == 1 {
      ConnectedSelf(Links(views), p[0].view);
    } else {
      var q := p[..|p| - 1];
      assert SlotPath(views, q);
      SlotPathLinks(views, q);
      assert SlotEdge(views, p[|p| - 2], p[|p| - 1]);
      SlotEdgeLinks(views, p[|p| - 2], p[|p| - 1]);
      ConnectedEdge(Links(views), p[0].view, p[|p| - 2].view, p[|p| - 1].view);
    }
  }

  /** Views without cycles are reached in finitely many ways, whatever the renamings. */
  lemma AcyclicIsFinite(views: ViewTable, start: Id)
    requires NoCycle(views)
    ensures !GrowsRound(views, start)
  {
    forall s: Slot, t: Slot | GrowingEdge(views, s, t) ensures !SlotLeads(views, t, s) {
      if p :| SlotPathFromTo(views, p, t, s) {
        assert SlotEdge(views, s, t);
        SlotEdgeLinks(views, s, t);
        SlotPathLinks(views, p);
        ConnectedByEdgesUnfold(Links(views), s.view, s.view);
      }
    }
  }

  /** Every include renames to plain names. */
  predicate RenamesPlainly(views: ViewTable) {
    forall id, i, k :: id in views && i in views[id].includes && k in i.rebind ==> !Dotted(i.rebind[k])
  }

  /** Views whose includes only ever rename to plain names are reached in finitely many
      ways, cycles or not. */
  lemma PlainRenamingIsFinite(views: ViewTable, start: Id)
    requires RenamesPlainly(views)
    ensures !GrowsRound(views, start)
  {
    forall s: Slot, t: Slot ensures !GrowingEdge(views, s, t) {
      if i :| Lengthens(views, s, t, i) {
        RestWithoutDot(i.rebind[t.name]);
      }
    }
  }

  // --- where a name's path comes from -------------------------------------

  /** A name nothing on the way renames is carried down unchanged. */
  lemma {:induction false} Untouched(views: ViewTable, p: seq<Reached>, x: Name)
    requires Chain(StepsIn(views), p) && p[0].rebind == map[] && x !in p[|p| - 1].rebind
    ensures SlotLeads(views, Slot(p[0].id, x), Slot(p[|p| - 1].id, x))
    decreases |p|
  {
    if |p| == 1 {
      SlotSelf(views, Slot(p[0].id, x));
    } else {
      ChainPrefix(StepsIn(views), p);
      var n, m := p[|p| - 2], p[|p| - 1];
      UntouchedEdge(views, n, m, x);
      Untouched(views, p[..|p| - 1], x);
      SlotOneMore(views, Slot(p[0].id, x), Slot(n.id, x), Slot(m.id, x));
    }
  }

  lemma UntouchedEdge(views: ViewTable, n: Reached, m: Reached, x: Name)
    requires m in Steps(views, n) && x !in m.rebind
    ensures x !in n.rebind && SlotEdge(views, Slot(n.id, x), Slot(m.id, x))
  {
    var hop := StepIsHop(views, n, m);
    if hop.Down? {
      ComposeAt(hop.drawn.rebind, n.rebind, x);
      assert DrawsFrom(views, Slot(n.id, x), Slot(m.id, x), hop.drawn);
    }
  }

  /** The slots lead from one to the other, along a lengthening edge if `grown`. */
  ghost predicate LeadsGrown(views: ViewTable, s: Slot, t: Slot, grown: bool) {
    && SlotLeads(views, s, t)
    && (grown ==> exists a, b :: SlotLeads(views, s, a) && GrowingEdge(views, a, b) && SlotLeads(views, b, t))
  }

  lemma GrownOneMore(views: ViewTable, r: Slot, s: Slot, t: Slot, grown: bool)
    requires LeadsGrown(views, r, s, grown) && SlotEdge(views, s, t)
    ensures LeadsGrown(views, r, t, grown)
  {
    SlotOneMore(views, r, s, t);
    if grown {
      var a, b :| SlotLeads(views, r, a) && GrowingEdge(views, a, b) && SlotLeads(views, b, s);
      SlotOneMore(views, b, s, t);
    }
  }

  lemma GrownHere(views: ViewTable, r: Slot, s: Slot, t: Slot, i: Include)
    requires SlotLeads(views, r, s) && Lengthens(views, s, t, i)
    ensures LeadsGrown(views, r, t, true)
  {
    assert SlotEdge(views, s, t) && GrowingEdge(views, s, t);
    SlotOneMore(views, r, s, t);
    SlotSelf(views, t);
  }

  /** What a name stands for comes, edge by edge, from the root of its path where the walk
      began, and along a lengthening edge if the path has a field below its root. */
  lemma {:induction false} Provenance(views: ViewTable, p: seq<Reached>, k: Name)
    requires Chain(StepsIn(views), p) && p[0].rebind == map[] && k in p[|p| - 1].rebind
    ensures var m := p[|p| - 1];
      LeadsGrown(views, Slot(p[0].id, Root(m.rebind[k])), Slot(m.id, k), Rest(m.rebind[k]) != "")
    decreases |p|
  {
    ChainPrefix(StepsIn(views), p);
    var n, m := p[|p| - 2], p[|p| - 1];
    var hop := StepIsHop(views, n, m);
    var from := Slot(p[0].id, Root(m.rebind[k]));
    if hop.Down? && k in hop.drawn.rebind {
      ProvenanceOfRenamed(views, p, hop.drawn, k);
    } else {
      if hop.Down? {
        ComposeAt(hop.drawn.rebind, n.rebind, k);
        assert DrawsFrom(views, Slot(n.id, k), Slot(m.id, k), hop.drawn);
      }
      Provenance(views, p[..|p| - 1], k);
      GrownOneMore(views, from, Slot(n.id, k), Slot(m.id, k), Rest(m.rebind[k]) != "");
    }
  }

  lemma {:induction false} ProvenanceOfRenamed(views: ViewTable, p: seq<Reached>, i: Include, k: Name)
    requires Chain(StepsIn(views), p) && p[0].rebind == map[] && |p| > 1
    requires p[|p| - 2].id in views && i in views[p[|p| - 2].id].includes
    requires p[|p| - 1] == Reached(i.view, Compose(i.rebind, p[|p| - 2].rebind))
    requires k in i.rebind && k in p[|p| - 1].rebind
    ensures var m := p[|p| - 1];
      LeadsGrown(views, Slot(p[0].id, Root(m.rebind[k])), Slot(m.id, k), Rest(m.rebind[k]) != "")
    decreases |p|, 0
  {
    ChainPrefix(StepsIn(views), p);
    var n, m, x := p[|p| - 2], p[|p| - 1], Root(i.rebind[k]);
    var s, t := Slot(n.id, x), Slot(m.id, k);
    ComposeAt(i.rebind, n.rebind, k);
    assert DrawsFrom(views, s, t, i);
    if x in n.rebind {
      RootOfField(n.rebind[x], Rest(i.rebind[k]));
      Provenance(views, p[..|p| - 1], x);
      var from := Slot(p[0].id, Root(n.rebind[x]));
      if Rest(i.rebind[k]) != "" {
        GrownHere(views, from, s, t, i);
      } else {
        GrownOneMore(views, from, s, t, Rest(n.rebind[x]) != "");
      }
    } else {
      Untouched(views, p[..|p| - 1], x);
      if Rest(i.rebind[k]) != "" {
        GrownHere(views, Slot(p[0].id, x), s, t, i);
      } else {
        SlotOneMore(views, Slot(p[0].id, x), s, t);
      }
    }
  }

  /** A view that comes to itself with some name standing for a field below itself is
      reached in no finite number of ways. */
  lemma LengtheningIsInfinite(views: ViewTable, start: Id, v: Id, m: Rebind, k: Name)
    requires Arrives(views, start, v) && Derivable(views, Reached(v, map[]), Reached(v, m))
    requires k in m && Root(m[k]) == k && Rest(m[k]) != ""
    ensures !FinitelyMany(views, start)
  {
    var p :| ChainFromTo(StepsIn(views), p, Reached(v, map[]), Reached(v, m));
    Provenance(views, p, k);
    var a: Slot, b: Slot :| SlotLeads(views, Slot(v, k), a) && GrowingEdge(views, a, b) && SlotLeads(views, b, Slot(v, k));
    SlotTrans(views, b, Slot(v, k), a);
    var q :| SlotPathFromTo(views, q, Slot(v, k), a);
    SlotPathLinks(views, q);
    ArrivesByLinks(views, start, v);
    ConnectedTrans(Links(views), start, v, a.view);
    GrowingIsInfinite(views, start);
  }

  lemma {:induction false} SlotTrans(views: ViewTable, r: Slot, s: Slot, t: Slot)
    requires SlotLeads(views, r, s) && SlotLeads(views, s, t)
    ensures SlotLeads(views, r, t)
  {
    var p :| SlotPathFromTo(views, p, s, t);
    var k := 0;
    while k < |p| - 1
      invariant 0 <= k < |p| && SlotLeads(views, r, p[k])
    {
      assert SlotEdge(views, p[k], p[k + 1]);
      SlotOneMore(views, r, p[k], p[k + 1]);
      k := k + 1;
    }
  }

  const NODE := Name("node")

  /** A view that includes itself for the children of what it was given. */
  const TREE := View([], [Include(Id("tree"), map[NODE := Path("node.children")])], [])

  /** The shortest such table: one view, included by itself. */
  lemma TreeIsInfinite()
    ensures !FinitelyMany(map[Id("tree") := TREE], Id("tree"))
  {
    var views: ViewTable, tree := map[Id("tree") := TREE], Id("tree");
    var m: Rebind := map[NODE := Path("node.children")];
    IndexOfIs("node.children", '.', 4);
    assert "node.children"[..4] == "node" && "node.children"[5..] == "children";
    DerivesSelf(StepsIn(views), Reached(tree, map[]));
    IncludeIsStep(views, Reached(tree, map[]), TREE.includes[0]);
    ComposeIdentity(m);
    DerivesLast(StepsIn(views), Reached(tree, map[]), Reached(tree, map[]), Reached(tree, m));
    LengtheningIsInfinite(views, tree, tree, m, NODE);
  }
}
