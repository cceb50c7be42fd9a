/** Joining renders to templates: every interpolation a render reaches gains the values the
    render binds to it. */
module Join {
  import opened Ir
  import opened Rebinding
  import opened Chains
  import opened ViewGraph
  import opened Growth
  import opened Views
  import opened Trails
  import opened Sinks

  /** A render with its view found and all its names bound. */
  datatype Resolved = Resolved(view: Id, function_: Id, block: Id, bind: map<Name, Id>)

  /** The keys of a run, in order. */
  function Keys(log: seq<Sink>): seq<string> {
    seq(|log|, i requires 0 <= i < |log| => KeyOf(log[i]))
  }

  /** What was seen is the run's keys, and none was taken twice. */
  ghost predicate KeysSeen(log: seq<Sink>, seen: set<string>) {
    ListedOnce(Keys(log), seen)
  }

  ghost predicate ListedOnce<K>(keys: seq<K>, seen: set<K>) {
    if keys == [] then seen == {}
    else
      var k := keys[|keys| - 1];
      k in seen && ListedOnce(keys[..|keys| - 1], seen - {k})
  }

  class Function {
    const id: Id
    var values: seq<Value>
    var flows: seq<Flow>
    var calls: seq<Call>

    constructor (id_: Id, values_: seq<Value>, flows_: seq<Flow>, calls_: seq<Call>)
      ensures id == id_ && values == values_ && flows == flows_ && calls == calls_
    {
      id, values, flows, calls := id_, values_, flows_, calls_;
    }

    function Now(): Body
      reads this
    {
      Body(values, flows, calls)
    }
  }

  class Writer {
    const views: ViewTable
    const byId: map<Id, Function>
    var n: nat
    var seen: set<string>
    ghost const base: map<Id, Body>
    ghost var log: seq<Sink>

    /** The functions hold what they held at first, and then what the log says was
        written. */
    ghost predicate Valid()
      reads this, byId.Values
    {
      && base.Keys == byId.Keys
      && (forall id :: id in byId ==> byId[id].id == id)
      && (forall id :: id in byId ==> byId[id].Now() == Written(base[id], log, id))
      && (forall s :: s in log ==> s.fn in byId)
      && Counted(log, n) && KeysSeen(log, seen)
    }

    constructor (views_: ViewTable, byId_: map<Id, Function>)
      requires forall id :: id in byId_ ==> byId_[id].id == id
      ensures Valid() && views == views_ && byId == byId_ && log == []
      ensures base == Standing(byId)
    {
      views, byId := views_, byId_;
      n, seen, log := 0, {}, [];
      base := map id | id in byId_ :: byId_[id].Now();
    }

    lemma NowIsJoined()
      requires Valid()
      ensures Standing(byId) == Joined(base, log)
    {
    }

    /** Writes the sinks of every render, in order, and counts them. */
    method RenderAll(renders: seq<Resolved>) returns (sinks: nat)
      requires Valid() && log == []
      requires forall k :: 0 <= k < |renders| && renders[k].function_ in byId ==> Walkable(views, renders[k].view)
      modifies this, byId.Values
      ensures Valid() && sinks == |log| && DoneSoFar(views, renders, |renders|, byId.Keys, log, seen)
    {
      sinks := 0;
      for i := 0 to |renders|
        invariant Valid() && sinks == |log| && DoneSoFar(views, renders, i, byId.Keys, log, seen)
      {
        ghost var logBefore, seenBefore := log, seen;
        var more := Render(renders[i]);
        sinks := sinks + more;
        DoneNext(views, renders, i, byId.Keys, logBefore, seenBefore, log, seen);
      }
    }

    /** The next id, made of the function's own. */
    method NextId(fn: Id, kind: char) returns (id: Id)
      modifies this`n
      ensures n == old(n) + 1 && id == TplId(fn, kind, n)
    {
      n := n + 1;
      id := TplId(fn, kind, n);
    }

    /** Writes one sink: the field read below the root, the marker that took the escaping
        off, and the call. */
    method Write(fn: Function, read_: ViewRead, src: Id, rest: string, block: Id)
      modifies this`n, fn
      ensures var s := Sink(fn.id, read_, src, rest, block, old(n));
              n == s.End() && fn.Now() == Append(old(fn.Now()), s)
    {
      var value := WriteField(fn, read_, src, rest, block);
      var symbol := ChooseSymbol(read_);
      value := WriteMarker(fn, read_, value, block);
      var result := NextId(fn.id, 'v');
      fn.values := fn.values + [Value(result, "call-result", symbol, read_.loc, NOTHING, "", [])];
      var callId := NextId(fn.id, 'c');
      var call := Call(callId, read_.loc, Callee("external", "", symbol, NOTHING, []), "",
                       [Arg(0, "", value)], NOTHING, result, block);
      fn.calls := fn.calls + [call];
    }

    /** A field below the root becomes a value of its own, fed by the bound one. */
    method WriteField(fn: Function, read_: ViewRead, src: Id, rest: string, block: Id) returns (value: Id)
      modifies this`n, fn`values, fn`flows
      ensures n == old(n) + if rest != "" then 1 else 0
      ensures value == if rest != "" then TplId(fn.id, 'v', n) else src
      ensures fn.values == old(fn.values)
                + if rest != "" then [Value(value, "property", rest, read_.loc, src, rest, [])] else []
      ensures fn.flows == old(fn.flows)
                + if rest != "" then [Flow(src, value, "property", read_.loc, block)] else []
    {
      value := src;
      if rest != "" {
        value := NextId(fn.id, 'v');
        fn.values := fn.values + [Value(value, "property", rest, read_.loc, src, rest, [])];
        fn.flows := fn.flows + [Flow(src, value, "property", read_.loc, block)];
      }
    }

    /** The words that took the escaping off become a value between the two. */
    method WriteMarker(fn: Function, read_: ViewRead, from: Id, block: Id) returns (value: Id)
      modifies this`n, fn`values, fn`flows
      ensures var marked := read_.removedAt.RemovedAt? && !read_.escaped;
              && n == old(n) + (if marked then 1 else 0)
              && value == (if marked then TplId(fn.id, 'v', n) else from)
              && fn.values == old(fn.values)
                   + (if marked then [Value(value, "local", MARKER, read_.removedAt.at, NOTHING, "", [])] else [])
              && fn.flows == old(fn.flows)
                   + (if marked then [Flow(from, value, ENCODER_REMOVED, read_.removedAt.at, block)] else [])
    {
      value := from;
      if read_.removedAt.RemovedAt? && !read_.escaped {
        value := NextId(fn.id, 'v');
        fn.values := fn.values + [Value(value, "local", MARKER, read_.removedAt.at, NOTHING, "", [])];
        fn.flows := fn.flows + [Flow(from, value, ENCODER_REMOVED, read_.removedAt.at, block)];
      }
    }

    /** Reads the context an interpolation lands in. A context with no channel of its own
        stays on the markup path. */
    method ChooseSymbol(read_: ViewRead) returns (symbol: string)
      ensures symbol == Symbol(read_)
    {
      symbol := UNESCAPED;
      if read_.context == "url-target" {
        symbol := URL_TARGET;
      } else if read_.context == "url-part" {
        symbol := URL_PART;
      } else if read_.context == "script" {
        symbol := if read_.escaped then ESCAPED else SCRIPT;
      } else if read_.escaped {
        symbol := ESCAPED;
      }
    }

    /** Writes the sink unless the same interpolation already carries this value here, and
        says whether it did. */
    method WriteOnce(fnId: Id, read_: ViewRead, src: Id, rest: string, block: Id) returns (written: bool)
      requires Valid() && fnId in byId
      modifies this, byId.Values
      ensures Valid()
      ensures written == (SinkKey(fnId, read_.loc, src) !in old(seen))
      ensures seen == old(seen) + {SinkKey(fnId, read_.loc, src)}
      ensures log == if written then old(log) + [Sink(fnId, read_, src, rest, block, old(n))] else old(log)
    {
      var key := SinkKey(fnId, read_.loc, src);
      if key in seen {
        return false;
      }
      WriteNew(fnId, read_, src, rest, block, key);
      return true;
    }

    /** Writes a sink whose key was not seen. */
    method WriteNew(fnId: Id, read_: ViewRead, src: Id, rest: string, block: Id, key: string)
      requires Valid() && fnId in byId && key !in seen && key == SinkKey(fnId, read_.loc, src)
      modifies this, byId.Values
      ensures Valid() && seen == old(seen) + {key}
      ensures log == old(log) + [Sink(fnId, read_, src, rest, block, old(n))]
    {
      ghost var s := Sink(fnId, read_, src, rest, block, n);
      WriteInto(fnId, read_, src, rest, block);
      AllWritten(s);
      LogGrows(log, s, old(n), seen);
      seen := seen + {key};
      log := log + [s];
    }

    /** Where one sink more has been written, the functions hold what the longer log says. */
    twostate lemma AllWritten(s: Sink)
      requires old(Valid())
      requires forall id :: id in byId ==>
                 byId[id].Now() == if id == s.fn then Append(old(byId[id].Now()), s) else old(byId[id].Now())
      ensures forall id :: id in byId ==> byId[id].Now() == Written(base[id], old(log) + [s], id)
    {
      forall id | id in byId ensures byId[id].Now() == Written(base[id], old(log) + [s], id) {
        WrittenNext(base[id], old(log), s, id);
      }
    }

    /** Writes one sink into one function and leaves the others as they were. */
    method WriteInto(fnId: Id, read_: ViewRead, src: Id, rest: string, block: Id)
      requires fnId in byId && forall id :: id in byId ==> byId[id].id == id
      modifies this`n, byId[fnId]
      ensures var s := Sink(fnId, read_, src, rest, block, old(n));
              && n == s.End()
              && forall id :: id in byId ==>
                   byId[id].Now() == if id == fnId then Append(old(byId[id].Now()), s) else old(byId[id].Now())
    {
      Write(byId[fnId], read_, src, rest, block);
      assert forall id :: id in byId && id != fnId ==> byId[id] != byId[fnId];
    }

    /** Writes the sinks of one interpolation of a reached view, if the render binds the
        name it reads. */
    method Interpolate(r: Resolved, m: Reached, read_: ViewRead) returns (written: nat)
      requires Valid() && r.function_ in byId
      modifies this, byId.Values
      ensures Valid() && written <= 1
      ensures old(seen) <= seen && old(log) <= log && |log| == |old(log)| + written
      ensures |log| > |old(log)| ==> FromInterpolation(r, m, read_, log[|old(log)|])
      ensures Covered(r, m, read_, seen)
    {
      written := 0;
      var path := RebindPath(read_.path, m.rebind);
      if Root(path) !in r.bind || r.bind[Root(path)] == NOTHING {
        return;
      }
      var src := r.bind[Root(path)];
      var wrote := WriteOnce(r.function_, read_, src, Rest(path), r.block);
      if wrote {
        written := 1;
      }
    }

    /** Writes the sinks a single render asks for, and counts them. */
    method Render(r: Resolved) returns (written: nat)
      requires Valid() && (r.function_ in byId ==> Walkable(views, r.view))
      modifies this, byId.Values
      ensures Valid() && old(seen) <= seen && old(log) <= log && |log| == |old(log)| + written
      ensures AllFrom(views, r, log, |old(log)|)
      ensures r.function_ in byId ==> CoversRender(views, r, seen)
    {
      written := 0;
      if r.function_ !in byId {
        return;
      }
      var reached := Reach(views, r.view);
      for i := 0 to |reached|
        invariant Valid() && old(seen) <= seen && old(log) <= log && |log| == |old(log)| + written
        invariant AllFrom(views, r, log, |old(log)|)
        invariant CoversViews(views, r, reached[..i], seen)
      {
        assert reached[i] in reached;
        ghost var logBefore, seenBefore := log, seen;
        var more := RenderOne(r, reached[i]);
        written := written + more;
        AllFromNext(views, r, logBefore, log, |old(log)|);
        CoversViewsNext(views, r, reached, i, seenBefore, seen);
      }
      CoversAllReached(views, r, reached, seen);
    }

    /** Writes the sinks of one reached view. */
    method RenderOne(r: Resolved, m: Reached) returns (written: nat)
      requires Valid() && r.function_ in byId && m.id in views
      requires Derivable(views, Reached(r.view, map[]), m)
      modifies this, byId.Values
      ensures Valid() && old(seen) <= seen && old(log) <= log && |log| == |old(log)| + written
      ensures AllFrom(views, r, log, |old(log)|)
      ensures CoversReads(r, m, views[m.id].reads_, seen)
    {
      written := 0;
      var reads_ := views[m.id].reads_;
      for i := 0 to |reads_|
        invariant Valid() && old(seen) <= seen && old(log) <= log && |log| == |old(log)| + written
        invariant AllFrom(views, r, log, |old(log)|)
        invariant CoversReads(r, m, reads_[..i], seen)
      {
        ghost var logBefore, seenBefore := log, seen;
        var wrote := Interpolate(r, m, reads_[i]);
        written := written + wrote;
        FromNext(views, r, m, reads_[i], logBefore, log, |old(log)|);
        CoversNext(r, m, reads_, i, seenBefore, seen);
      }
      assert reads_[..|reads_|] == reads_;
    }
  }

  /** The walk from the view ends, and keys tell apart what it reaches. */
  ghost predicate Walkable(views: ViewTable, id: Id) {
    !GrowsRound(views, id) && KeysDistinct(views, id)
  }

  /** The render supplies a value for what the interpolation reads. */
  predicate Binds(r: Resolved, m: Reached, read_: ViewRead) {
    var root := Root(RebindPath(read_.path, m.rebind));
    root in r.bind && r.bind[root] != NOTHING
  }

  function Bound(r: Resolved, m: Reached, read_: ViewRead): Id
    requires Binds(r, m, read_)
  {
    r.bind[Root(RebindPath(read_.path, m.rebind))]
  }

  /** The render reaches the view, which reads something the render supplies. */
  ghost predicate Renders(views: ViewTable, r: Resolved, m: Reached, read_: ViewRead) {
    && m.id in views && Derivable(views, Reached(r.view, map[]), m)
    && read_ in views[m.id].reads_ && Binds(r, m, read_)
  }

  predicate FromInterpolation(r: Resolved, m: Reached, read_: ViewRead, s: Sink) {
    && s.fn == r.function_ && s.block == r.block && s.read_ == read_
    && Binds(r, m, read_) && s.src == Bound(r, m, read_)
    && s.rest == Rest(RebindPath(read_.path, m.rebind))
  }

  /** The sink is an interpolation the render reaches, carrying what the render bound. */
  ghost predicate FromRender(views: ViewTable, r: Resolved, s: Sink) {
    exists m :: Renders(views, r, m, s.read_) && FromInterpolation(r, m, s.read_, s)
  }

  /** A path's text divides at its first dot, if it has one. */
  predicate Divides(path: string, root: string, rest: string) {
    '.' !in root && ((path == root && rest == "") || path == root + "." + rest)
  }

  lemma DividesExactly(path: Path, root: string, rest: string)
    ensures Divides(path.text, root, rest) <==> Root(path).text == root && Rest(path) == rest
  {
    var k := IndexOf(path.text, '.');
    assert k < |path.text| ==> path.text == path.text[..k] + "." + path.text[k + 1..];
    if Divides(path.text, root, rest) {
      assert path.text[..|root|] == root;
      IndexOfIs(path.text, '.', |root|);
    }
  }

  /** The render asks for the sink by a trail: the trail leads to a view with the
      interpolation, and to the root of what its path comes to the render binds the sink's
      value; what is left of that path the sink reads below it. */
  ghost predicate AskedBy(views: ViewTable, r: Resolved, s: Sink, hops: seq<Hop>, root: string) {
    && Trail(views, r.view, hops) && EndOf(r.view, hops) in views && s.read_ in views[EndOf(r.view, hops)].reads_
    && Divides(RebindPath(s.read_.path, Accumulated(RebindsOf(hops))).text, root, s.rest)
    && Name(root) in r.bind && s.src == r.bind[Name(root)] && s.src.name != ""
    && s.fn == r.function_ && s.block == r.block
  }

  /** A sink comes from a render exactly when the render asks for it by some trail. */
  lemma FromRenderByTrail(views: ViewTable, r: Resolved, s: Sink)
    ensures FromRender(views, r, s) <==> exists hops, root :: AskedBy(views, r, s, hops, root)
  {
    assert s.src == Id(s.src.name);
    if FromRender(views, r, s) {
      var m :| Renders(views, r, m, s.read_) && FromInterpolation(r, m, s.read_, s);
      ReachedByTrail(views, r.view, m);
      var hops :| ByTrail(views, r.view, m, hops);
      var path := RebindPath(s.read_.path, m.rebind);
      DividesExactly(path, Root(path).text, s.rest);
      assert Root(path) == Name(Root(path).text);
      assert AskedBy(views, r, s, hops, Root(path).text);
    }
    if hops, root :| AskedBy(views, r, s, hops, root) {
      var m := Reached(EndOf(r.view, hops), Accumulated(RebindsOf(hops)));
      assert ByTrail(views, r.view, m, hops);
      ReachedByTrail(views, r.view, m);
      var path := RebindPath(s.read_.path, m.rebind);
      DividesExactly(path, root, s.rest);
      assert Root(path) == Name(root);
      assert Renders(views, r, m, s.read_) && FromInterpolation(r, m, s.read_, s);
    }
  }

  /** Whatever the render binds to the interpolation has its sink. */
  predicate Covered(r: Resolved, m: Reached, read_: ViewRead, seen: set<string>) {
    Binds(r, m, read_) ==> SinkKey(r.function_, read_.loc, Bound(r, m, read_)) in seen
  }

  ghost predicate CoversReads(r: Resolved, m: Reached, reads_: seq<ViewRead>, seen: set<string>) {
    forall k :: 0 <= k < |reads_| ==> Covered(r, m, reads_[k], seen)
  }

  ghost predicate CoversViews(views: ViewTable, r: Resolved, ms: seq<Reached>, seen: set<string>) {
    forall k :: 0 <= k < |ms| ==> ms[k].id in views && CoversReads(r, ms[k], views[ms[k].id].reads_, seen)
  }

  /** Every interpolation of every view the render reaches, under every renaming it is
      reached by, has a sink for what the render binds to it. */
  ghost predicate CoversRender(views: ViewTable, r: Resolved, seen: set<string>) {
    forall m: Reached :: m.id in views && Derivable(views, Reached(r.view, map[]), m) ==>
      CoversReads(r, m, views[m.id].reads_, seen)
  }

  lemma CoversNext(r: Resolved, m: Reached, reads_: seq<ViewRead>, i: nat, before: set<string>, seen: set<string>)
    requires i < |reads_| && before <= seen
    requires CoversReads(r, m, reads_[..i], before) && Covered(r, m, reads_[i], seen)
    ensures CoversReads(r, m, reads_[..i + 1], seen)
  {
    var after := reads_[..i + 1];
    forall k | 0 <= k < |after| ensures Covered(r, m, after[k], seen) {
      if k < i {
        assert Covered(r, m, reads_[..i][k], before);
      }
    }
  }

  lemma CoversMore(r: Resolved, m: Reached, reads_: seq<ViewRead>, before: set<string>, seen: set<string>)
    requires CoversReads(r, m, reads_, before) && before <= seen
    ensures CoversReads(r, m, reads_, seen)
  {
    forall k | 0 <= k < |reads_| ensures Covered(r, m, reads_[k], seen) {
      assert Covered(r, m, reads_[k], before);
    }
  }

  lemma CoversViewsNext(views: ViewTable, r: Resolved, ms: seq<Reached>, i: nat, before: set<string>, seen: set<string>)
    requires i < |ms| && before <= seen && ms[i].id in views
    requires CoversViews(views, r, ms[..i], before) && CoversReads(r, ms[i], views[ms[i].id].reads_, seen)
    ensures CoversViews(views, r, ms[..i + 1], seen)
  {
    var after := ms[..i + 1];
    forall k | 0 <= k < |after|
      ensures after[k].id in views && CoversReads(r, after[k], views[after[k].id].reads_, seen)
    {
      if k < i {
        assert ms[..i][k] == ms[k];
        CoversMore(r, ms[k], views[ms[k].id].reads_, before, seen);
      }
    }
  }

  lemma CoversAllReached(views: ViewTable, r: Resolved, ms: seq<Reached>, seen: set<string>)
    requires CoversViews(views, r, ms[..|ms|], seen)
    requires forall m: Reached :: m.id in views && Derivable(views, Reached(r.view, map[]), m) ==> m in ms
    ensures CoversRender(views, r, seen)
  {
    assert ms[..|ms|] == ms;
  }

  /** Every sink from a point on is one the render asked for. */
  ghost predicate AllFrom(views: ViewTable, r: Resolved, log: seq<Sink>, from: nat) {
    from <= |log| && forall k :: from <= k < |log| ==> FromRender(views, r, log[k])
  }

  lemma AllFromNext(views: ViewTable, r: Resolved, before: seq<Sink>, log: seq<Sink>, from: nat)
    requires AllFrom(views, r, before, from) && AllFrom(views, r, log, |before|) && before <= log
    ensures AllFrom(views, r, log, from)
  {
  }

  lemma FromNext(views: ViewTable, r: Resolved, m: Reached, read_: ViewRead, before: seq<Sink>, log: seq<Sink>, from: nat)
    requires AllFrom(views, r, before, from) && before <= log && |log| <= |before| + 1
    requires |log| > |before| ==> FromInterpolation(r, m, read_, log[|before|])
    requires m.id in views && Derivable(views, Reached(r.view, map[]), m) && read_ in views[m.id].reads_
    ensures AllFrom(views, r, log, from)
  {
    assert |log| > |before| ==> Renders(views, r, m, read_) && FromRender(views, r, log[|before|]);
  }

  lemma LogGrows(log: seq<Sink>, s: Sink, n: nat, seen: set<string>)
    requires Counted(log, n) && KeysSeen(log, seen) && s.at == n && KeyOf(s) !in seen
    ensures Counted(log + [s], s.End()) && KeysSeen(log + [s], seen + {KeyOf(s)})
  {
    assert (log + [s])[..|log|] == log;
    ListedNext(Keys(log), seen, KeyOf(s));
    assert Keys(log + [s]) == Keys(log) + [KeyOf(s)];
  }

  lemma ListedNext<K>(keys: seq<K>, seen: set<K>, k: K)
    requires ListedOnce(keys, seen) && k !in seen
    ensures ListedOnce(keys + [k], seen + {k})
  {
    assert (keys + [k])[..|keys|] == keys;
    assert seen + {k} - {k} == seen;
  }

  // --- the whole join ----------------------------------------------------

  datatype Report = Report(resolved: nat, sinks: nat)

  class Program {
    const views: ViewTable
    const byId: map<Id, Function>
    var viewsJoined: bool

    constructor (views_: ViewTable, byId_: map<Id, Function>)
      ensures views == views_ && byId == byId_ && !viewsJoined
    {
      views, byId, viewsJoined := views_, byId_, false;
    }

    /** The program's functions as they stand. */
    ghost function Now(): Bodies
      reads byId.Values
    {
      Standing(byId)
    }

    /** Runs the join, unless it has been run before or there is no view or no render. */
    method JoinViews(renderCount: nat, renders: seq<Resolved>) returns (rep: Report, ghost log: seq<Sink>)
      requires forall id :: id in byId ==> byId[id].id == id
      requires forall k :: 0 <= k < |renders| && renders[k].function_ in byId ==> Walkable(views, renders[k].view)
      modifies this, byId.Values
      ensures Now() == Joined(old(Now()), log)
      ensures rep.sinks == |log| && RunOf(views, renders, byId.Keys, log)
      ensures var skip := views == map[] || renderCount == 0 || old(viewsJoined);
              if skip then rep == Report(0, 0) && log == [] && viewsJoined == old(viewsJoined)
              else viewsJoined && rep.resolved == |renders| && CoversAll(views, renders, byId.Keys, log)
      ensures forall s :: s in log ==> s.fn in byId && InItsChannel(Now()[s.fn], s)
      ensures WellFormed(old(Now())) && Below(old(Now()), 0) && BindsExisting(renders, old(Now())) ==>
                SoundRun(old(Now()), log, Now())
    {
      rep, log := Report(0, 0), [];
      ghost var before := Now();
      if views == map[] || renderCount == 0 || viewsJoined {
        assert Now() == Joined(before, log);
      } else {
        viewsJoined := true;
        var sinks;
        sinks, log := WriteAll(renders);
        rep := Report(|renders|, sinks);
      }
      AllInChannels(before, log);
      RunIsSoundFor(before, views, renders, log);
    }

    /** Writes the sinks of every render, in order, and counts them. */
    method WriteAll(renders: seq<Resolved>) returns (sinks: nat, ghost log: seq<Sink>)
      requires forall id :: id in byId ==> byId[id].id == id
      requires forall k :: 0 <= k < |renders| && renders[k].function_ in byId ==> Walkable(views, renders[k].view)
      modifies byId.Values
      ensures Now() == Joined(old(Now()), log)
      ensures sinks == |log| && RunOf(views, renders, byId.Keys, log) && CoversAll(views, renders, byId.Keys, log)
    {
      var w := new Writer(views, byId);
      sinks := w.RenderAll(renders);
      log := w.log;
      DoneAll(views, renders, byId.Keys, log, w.seen, w.n);
      w.NowIsJoined();
    }
  }

  /** The functions as they stand. */
  ghost function Standing(byId: map<Id, Function>): Bodies
    reads byId.Values
  {
    map id | id in byId :: byId[id].Now()
  }

  /** The first n renders have asked for every sink so far, and are covered. */
  ghost predicate DoneSoFar(views: ViewTable, renders: seq<Resolved>, n: nat, functions: set<Id>, log: seq<Sink>, seen: set<string>)
  {
    n <= |renders| && AllAsked(views, renders[..n], log) && AllCovered(views, renders[..n], functions, seen)
  }

  lemma DoneNext(views: ViewTable, renders: seq<Resolved>, n: nat, functions: set<Id>,
                 before: seq<Sink>, seenBefore: set<string>, log: seq<Sink>, seen: set<string>)
    requires n < |renders| && DoneSoFar(views, renders, n, functions, before, seenBefore)
    requires before <= log && seenBefore <= seen && AllFrom(views, renders[n], log, |before|)
    requires renders[n].function_ in functions ==> CoversRender(views, renders[n], seen)
    ensures DoneSoFar(views, renders, n + 1, functions, log, seen)
  {
    AskedNext(views, renders, n, before, log);
    CoveredNext(views, renders, n, functions, seenBefore, seen);
  }

  lemma DoneAll(views: ViewTable, renders: seq<Resolved>, functions: set<Id>, log: seq<Sink>, seen: set<string>, n: nat)
    requires DoneSoFar(views, renders, |renders|, functions, log, seen)
    requires Counted(log, n) && KeysSeen(log, seen) && forall s :: s in log ==> s.fn in functions
    ensures RunOf(views, renders, functions, log) && CoversAll(views, renders, functions, log)
  {
    assert renders[..|renders|] == renders;
    KeysAreSeen(log, seen);
    CountedTotal(log, n);
  }

  /** The sinks of a run: each in a function of the program, counted one after another,
      none twice, and each asked for by some render. */
  ghost predicate RunOf(views: ViewTable, renders: seq<Resolved>, functions: set<Id>, log: seq<Sink>) {
    && (forall s :: s in log ==> s.fn in functions)
    && Counted(log, Total(log)) && NoSinkTwice(log)
    && AllAsked(views, renders, log)
  }

  /** Every render of a function the program has is covered, by the keys of the run. */
  ghost predicate CoversAll(views: ViewTable, renders: seq<Resolved>, functions: set<Id>, log: seq<Sink>) {
    AllCovered(views, renders, functions, KeysIn(log))
  }

  /** What the renders bind are values of the program, or nothing. */
  ghost predicate BindsExisting(renders: seq<Resolved>, p: Bodies) {
    forall k, name :: 0 <= k < |renders| && name in renders[k].bind ==>
      renders[k].bind[name] == NOTHING || renders[k].bind[name] in ValueIds(p)
  }

  lemma AllInChannels(p: Bodies, log: seq<Sink>)
    requires forall s :: s in log ==> s.fn in p
    ensures forall s :: s in log ==> InItsChannel(Joined(p, log)[s.fn], s)
  {
    forall s | s in log ensures InItsChannel(Joined(p, log)[s.fn], s) {
      RunInChannels(p[s.fn], log, s.fn, s);
    }
  }

  /** Given a well-formed program with no made-up ids, and renders that bind its values, the
      run is sound. */
  lemma RunIsSoundFor(p: Bodies, views: ViewTable, renders: seq<Resolved>, log: seq<Sink>)
    requires RunOf(views, renders, p.Keys, log)
    ensures WellFormed(p) && Below(p, 0) && BindsExisting(renders, p) ==> SoundRun(p, log, Joined(p, log))
  {
    if WellFormed(p) && Below(p, 0) && BindsExisting(renders, p) {
      forall s | s in log ensures s.src in ValueIds(p) {
        var k :| 0 <= k < |renders| && FromRender(views, renders[k], s);
        var m :| Renders(views, renders[k], m, s.read_) && FromInterpolation(renders[k], m, s.read_, s);
        assert Root(RebindPath(s.read_.path, m.rebind)) in renders[k].bind;
      }
      RunIsSound(p, log, Total(log));
    }
  }

  // --- what is covered ----------------------------------------------------

  /** The run has a sink for the interpolation and what the render binds to it. */
  ghost predicate HasSink(r: Resolved, m: Reached, read_: ViewRead, log: seq<Sink>)
    requires Binds(r, m, read_)
  {
    exists s :: s in log && s.fn == r.function_ && s.read_.loc == read_.loc && s.src == Bound(r, m, read_)
  }

  /** No file a page is written in has NUL in its name. */
  predicate PlainReads(views: ViewTable) {
    forall id, read_ :: id in views && read_ in views[id].reads_ ==> '\0' !in read_.loc.file
  }

  /** What the join promises of a run's sinks, in a program with no NUL in its names. */
  ghost predicate PlainRun(views: ViewTable, renders: seq<Resolved>, functions: set<Id>, log: seq<Sink>) {
    && RunOf(views, renders, functions, log) && CoversAll(views, renders, functions, log)
    && PlainReads(views) && forall f :: f in functions ==> '\0' !in f.name
  }

  lemma RunIsPlain(views: ViewTable, renders: seq<Resolved>, functions: set<Id>, log: seq<Sink>, s: Sink)
    requires PlainRun(views, renders, functions, log) && s in log
    ensures PlainPlace(s.fn, s.read_.loc)
  {
    var i :| 0 <= i < |renders| && FromRender(views, renders[i], s);
    var n :| Renders(views, renders[i], n, s.read_) && FromInterpolation(renders[i], n, s.read_, s);
  }

  /** Without NUL in function ids and file names, every interpolation a render reaches and
      binds a value to has a sink that carries that value in the render's function. */
  lemma CoveredHasSink(views: ViewTable, renders: seq<Resolved>, functions: set<Id>, log: seq<Sink>, r: Resolved, m: Reached, read_: ViewRead)
    ensures PlainRun(views, renders, functions, log) && r in renders && r.function_ in functions && Renders(views, r, m, read_) ==>
              HasSink(r, m, read_, log)
  {
    if PlainRun(views, renders, functions, log) && r in renders && r.function_ in functions && Renders(views, r, m, read_) {
      var k :| 0 <= k < |renders| && renders[k] == r;
      assert CoversReads(r, m, views[m.id].reads_, KeysIn(log));
      var j :| 0 <= j < |views[m.id].reads_| && views[m.id].reads_[j] == read_;
      assert Covered(r, m, read_, KeysIn(log));
      var s :| s in log && KeyOf(s) == SinkKey(r.function_, read_.loc, Bound(r, m, read_));
      RunIsPlain(views, renders, functions, log, s);
      SinkKeyInjective(s.fn, s.read_.loc, s.src, r.function_, read_.loc, Bound(r, m, read_));
    }
  }

  /** So whatever a render asks for by some trail is written: the run has a sink in the same
      function, for an interpolation at the same place, with the same value. */
  lemma AskedIsWritten(views: ViewTable, renders: seq<Resolved>, functions: set<Id>, log: seq<Sink>, r: Resolved, asked: Sink, hops: seq<Hop>, root: string)
    ensures PlainRun(views, renders, functions, log) && r in renders && r.function_ in functions && AskedBy(views, r, asked, hops, root) ==>
              exists s :: s in log && s.fn == asked.fn && s.read_.loc == asked.read_.loc && s.src == asked.src
  {
    if PlainRun(views, renders, functions, log) && r in renders && r.function_ in functions && AskedBy(views, r, asked, hops, root) {
      FromRenderByTrail(views, r, asked);
      var m :| Renders(views, r, m, asked.read_) && FromInterpolation(r, m, asked.read_, asked);
      CoveredHasSink(views, renders, functions, log, r, m, asked.read_);
    }
  }

  /** On a plain table with no cycle, or whose includes rename only to plain names, every
      walk a join makes ends and tells apart what it reaches. */
  lemma PlainIsWalkable(views: ViewTable, id: Id)
    requires PlainViews(views) && NUL !in id.name && (NoCycle(views) || RenamesPlainly(views))
    ensures Walkable(views, id)
  {
    PlainKeysDistinct(views, id);
    if NoCycle(views) {
      AcyclicIsFinite(views, id);
    } else {
      PlainRenamingIsFinite(views, id);
    }
  }

  /** Where the counter stands after a run. */
  function Total(log: seq<Sink>): nat {
    if log == [] then 0 else log[|log| - 1].End()
  }

  lemma CountedTotal(log: seq<Sink>, n: nat)
    requires Counted(log, n)
    ensures n == Total(log)
  {
  }

  /** No two sinks share a function, an interpolation and a value. */
  ghost predicate NoSinkTwice(log: seq<Sink>) {
    forall i, j :: 0 <= i < j < |log| ==>
      !(log[i].fn == log[j].fn && log[i].read_.loc == log[j].read_.loc && log[i].src == log[j].src)
  }

  ghost function KeysIn(log: seq<Sink>): set<string> {
    set s | s in log :: KeyOf(s)
  }

  lemma {:induction false} ListedIn<K>(keys: seq<K>, seen: set<K>, k: K)
    requires ListedOnce(keys, seen)
    ensures k in keys <==> k in seen
  {
    if keys != [] {
      var n := |keys| - 1;
      ListedIn(keys[..n], seen - {keys[n]}, k);
      assert keys == keys[..n] + [keys[n]];
    }
  }

  lemma {:induction false} ListedDiffer<K>(keys: seq<K>, seen: set<K>, i: nat, j: nat)
    requires ListedOnce(keys, seen) && i < j < |keys|
    ensures keys[i] != keys[j]
  {
    var n := |keys| - 1;
    if j == n {
      ListedIn(keys[..n], seen - {keys[n]}, keys[i]);
      assert keys[..n][i] in keys[..n];
    } else {
      ListedDiffer(keys[..n], seen - {keys[n]}, i, j);
    }
  }

  lemma KeysAreSeen(log: seq<Sink>, seen: set<string>)
    requires KeysSeen(log, seen)
    ensures KeysIn(log) == seen && NoSinkTwice(log)
  {
    forall key ensures key in KeysIn(log) <==> key in seen {
      ListedIn(Keys(log), seen, key);
      if key in KeysIn(log) {
        var s :| s in log && KeyOf(s) == key;
        var i :| 0 <= i < |log| && log[i] == s;
        assert Keys(log)[i] == key;
      }
    }
    forall i, j | 0 <= i < j < |log|
      ensures !(log[i].fn == log[j].fn && log[i].read_.loc == log[j].read_.loc && log[i].src == log[j].src)
    {
      ListedDiffer(Keys(log), seen, i, j);
      assert Keys(log)[i] == KeyOf(log[i]) && Keys(log)[j] == KeyOf(log[j]);
    }
  }

  ghost predicate AllAsked(views: ViewTable, renders: seq<Resolved>, log: seq<Sink>) {
    forall s :: s in log ==> exists k :: 0 <= k < |renders| && FromRender(views, renders[k], s)
  }

  lemma AskedNext(views: ViewTable, renders: seq<Resolved>, i: nat, before: seq<Sink>, log: seq<Sink>)
    requires i < |renders| && AllAsked(views, renders[..i], before) && before <= log
    requires AllFrom(views, renders[i], log, |before|)
    ensures AllAsked(views, renders[..i + 1], log)
  {
    var after := renders[..i + 1];
    forall s | s in log ensures exists k :: 0 <= k < |after| && FromRender(views, after[k], s) {
      var m :| 0 <= m < |log| && log[m] == s;
      if m < |before| {
        assert before[m] in before;
        var k :| 0 <= k < i && FromRender(views, renders[..i][k], s);
        assert after[k] == renders[..i][k];
      } else {
        assert after[i] == renders[i];
      }
    }
  }

  ghost predicate AllCovered(views: ViewTable, renders: seq<Resolved>, functions: set<Id>, seen: set<string>) {
    forall k :: 0 <= k < |renders| && renders[k].function_ in functions ==> CoversRender(views, renders[k], seen)
  }

  lemma CoveredNext(views: ViewTable, renders: seq<Resolved>, i: nat, functions: set<Id>, before: set<string>, seen: set<string>)
    requires i < |renders| && before <= seen && AllCovered(views, renders[..i], functions, before)
    requires renders[i].function_ in functions ==> CoversRender(views, renders[i], seen)
    ensures AllCovered(views, renders[..i + 1], functions, seen)
  {
    var after := renders[..i + 1];
    forall k | 0 <= k < |after| && after[k].function_ in functions ensures CoversRender(views, after[k], seen) {
      if k < i {
        assert renders[..i][k] == after[k];
        CoversRenderMore(views, after[k], before, seen);
      }
    }
  }

  lemma CoversRenderMore(views: ViewTable, r: Resolved, before: set<string>, seen: set<string>)
    requires CoversRender(views, r, before) && before <= seen
    ensures CoversRender(views, r, seen)
  {
    forall m: Reached | m.id in views && Derivable(views, Reached(r.view, map[]), m)
      ensures CoversReads(r, m, views[m.id].reads_, seen)
    {
      CoversMore(r, m, views[m.id].reads_, before, seen);
    }
  }
}
