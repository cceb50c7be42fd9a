/** A view's own graph: the views it extends and the views it includes, each under the
    renamings accumulated on the way. */
module ViewGraph {
  import opened Ir
  import opened Rebinding
  import opened Chains

  /** An include, with the paths it gives the names of the view it draws in. */
  datatype Include = Include(view: Id, rebind: Rebind)

  /** An interpolation. */
  datatype ViewRead = ViewRead(path: Path, escaped: bool, context: string, removedAt: Removal, loc: Loc)

  /** Where the words that turned escaping off are written, when somebody wrote them. */
  datatype Removal = Kept | RemovedAt(at: Loc)

  datatype View = View(extends_: seq<Id>, includes: seq<Include>, reads_: seq<ViewRead>)

  type ViewTable = map<Id, View>

  /** A view under the renamings it was reached by. */
  datatype Reached = Reached(id: Id, rebind: Rebind)

  /** What rendering one reached view renders in turn. */
  function Steps(views: ViewTable, n: Reached): seq<Reached> {
    if n.id !in views then []
    else
      var v := views[n.id];
      Parents(v, n.rebind) + Drawn(v, n.rebind)
  }

  function Parents(v: View, rebind: Rebind): seq<Reached> {
    seq(|v.extends_|, i requires 0 <= i < |v.extends_| => Reached(v.extends_[i], rebind))
  }

  function Drawn(v: View, rebind: Rebind): seq<Reached> {
    seq(|v.includes|, i requires 0 <= i < |v.includes| =>
      Reached(v.includes[i].view, Compose(v.includes[i].rebind, rebind)))
  }

  ghost function StepsIn(views: ViewTable): Reached -> seq<Reached> {
    n => Steps(views, n)
  }

  /** One reached view follows from another by extends and includes. */
  ghost predicate Derivable(views: ViewTable, from: Reached, to: Reached) {
    Derives(StepsIn(views), from, to)
  }

  ghost predicate ClosedUnderSteps(views: ViewTable, s: set<Reached>) {
    ClosedUnder(StepsIn(views), s)
  }

  lemma ParentStep(views: ViewTable, n: Reached, i: nat)
    requires n.id in views && i < |views[n.id].extends_|
    ensures i < |Steps(views, n)| && Steps(views, n)[i] == Reached(views[n.id].extends_[i], n.rebind)
    ensures |Steps(views, n)| == |views[n.id].extends_| + |views[n.id].includes|
  {
    assert Steps(views, n)[i] == Parents(views[n.id], n.rebind)[i];
  }

  lemma IncludeSteps(views: ViewTable, n: Reached, i: nat)
    requires n.id in views && i < |views[n.id].includes|
    ensures var v := views[n.id];
            && |v.extends_| + i < |Steps(views, n)|
            && Steps(views, n)[|v.extends_| + i] == Reached(v.includes[i].view, Compose(v.includes[i].rebind, n.rebind))
    ensures |Steps(views, n)| == |views[n.id].extends_| + |views[n.id].includes|
  {
    var v := views[n.id];
    assert Steps(views, n)[|v.extends_| + i] == Drawn(v, n.rebind)[i];
  }

  /** One step from a view: up to one it extends, or down to one it includes. */
  datatype Hop = Up(parent: Id) | Down(drawn: Include) {
    function To(): Id {
      if Up? then parent else drawn.view
    }
  }

  predicate HopFrom(views: ViewTable, id: Id, hop: Hop) {
    id in views &&
    match hop
    case Up(parent) => parent in views[id].extends_
    case Down(drawn) => drawn in views[id].includes
  }

  /** Where a hop leads: up under the same renaming, down under the renaming composed. */
  function Hopped(n: Reached, hop: Hop): Reached {
    Reached(hop.To(), if hop.Up? then n.rebind else Compose(hop.drawn.rebind, n.rebind))
  }

  lemma StepIsHop(views: ViewTable, n: Reached, m: Reached) returns (hop: Hop)
    requires m in Steps(views, n)
    ensures HopFrom(views, n.id, hop) && m == Hopped(n, hop)
  {
    var k :| 0 <= k < |Steps(views, n)| && Steps(views, n)[k] == m;
    var v := views[n.id];
    if k < |v.extends_| {
      ParentStep(views, n, k);
      hop := Up(v.extends_[k]);
    } else {
      IncludeSteps(views, n, k - |v.extends_|);
      hop := Down(v.includes[k - |v.extends_|]);
    }
  }

  lemma HopIsStep(views: ViewTable, n: Reached, hop: Hop)
    requires HopFrom(views, n.id, hop)
    ensures Hopped(n, hop) in Steps(views, n)
  {
    match hop
    case Up(parent) => ExtendsIsStep(views, n, parent);
    case Down(drawn) => IncludeIsStep(views, n, drawn);
  }

  lemma ExtendsIsStep(views: ViewTable, n: Reached, e: Id)
    requires n.id in views && e in views[n.id].extends_
    ensures Reached(e, n.rebind) in Steps(views, n)
  {
    var k :| 0 <= k < |views[n.id].extends_| && views[n.id].extends_[k] == e;
    ParentStep(views, n, k);
  }

  lemma IncludeIsStep(views: ViewTable, n: Reached, i: Include)
    requires n.id in views && i in views[n.id].includes
    ensures Reached(i.view, Compose(i.rebind, n.rebind)) in Steps(views, n)
  {
    var k :| 0 <= k < |views[n.id].includes| && views[n.id].includes[k] == i;
    IncludeSteps(views, n, k);
  }
}
