/** Which names a mapping handed to a render carries, found by following how the mapping was
    built through assignments, calls and updates. */
module Mapping {
  import opened Ir
  import opened Rebinding

  type Bindings = map<Name, Id>

  /** How far construction is followed. */
  const MAPPING_HOPS: nat := 3

  /** The parts of a function that build mappings. */
  datatype Fn = Fn(flows: seq<Flow>, calls: seq<Call>, writes: seq<Write>, returns_: seq<Id>)

  datatype Index = Index(owner: map<Id, Fn>, valueById: map<Id, Value>, funcById: map<Id, Fn>)

  // --- what one step contributes -----------------------------------------

  function LastSegment(s: string): string {
    if s == "" then s
    else if s[|s| - 1] == '.' then ""
    else LastSegment(s[..|s| - 1]) + [s[|s| - 1]]
  }

  /** The part of a callee's text after its last dot. */
  function CalleeName(c: Call): string {
    var name := if c.callee.name == "" then c.callee.symbol else c.callee.name;
    LastSegment(if c.method_ != "" then c.method_ else name)
  }

  /** Where a call may go. */
  function CalleeFunctions(c: Call): seq<Id> {
    if c.callee.functionId != NOTHING then [c.callee.functionId] else c.callee.possibleFunctionIds
  }

  function FromEntries(entries: seq<Entry>): Bindings {
    if entries == [] then map[]
    else
      var e := entries[|entries| - 1];
      FromEntries(entries[..|entries| - 1])
      + if e.key != "" && e.valueId != NOTHING then map[Name(e.key) := e.valueId] else map[]
  }

  function FromKeywords(args: seq<Arg>): Bindings {
    if args == [] then map[]
    else
      var a := args[|args| - 1];
      FromKeywords(args[..|args| - 1])
      + if a.name != "" && a.valueId != NOTHING then map[Name(a.name) := a.valueId] else map[]
  }

  function FromWrites(writes: seq<Write>, id: Id): Bindings {
    if writes == [] then map[]
    else
      var w := writes[|writes| - 1];
      FromWrites(writes[..|writes| - 1], id)
      + if w.base == id && w.path != "" && w.from != NOTHING then map[Name(w.path) := w.from] else map[]
  }

  predicate Assigns(f: Flow, id: Id) {
    f.to == id && f.from != id
  }

  predicate Updates(c: Call, id: Id) {
    c.receiverId == id && c.method_ == "update"
  }

  predicate Positional(a: Arg) {
    a.name == "" && a.valueId != NOTHING
  }

  // --- the bindings, as a function ---------------------------------------

  /** The names one mapping value carries, following construction so many hops and never
      through a value already being resolved. What comes later in the list wins: the
      entries, what was assigned, what calls built, and last what was written into it. */
  function Carried(ix: Index, open: set<Id>, id: Id, hops: nat): Bindings
    decreases hops, 3, 0
  {
    if id == NOTHING || hops == 0 || id in open || id !in ix.owner then map[]
    else
      var fn := ix.owner[id];
      EntriesOf(ix, id)
      + FromFlows(ix, open + {id}, id, hops, fn.flows)
      + FromCalls(ix, open + {id}, id, hops, fn.calls)
      + FromWrites(fn.writes, id)
  }

  function EntriesOf(ix: Index, id: Id): Bindings {
    if id in ix.valueById then FromEntries(ix.valueById[id].entries) else map[]
  }

  function FromFlows(ix: Index, open: set<Id>, id: Id, hops: nat, flows: seq<Flow>): Bindings
    requires hops > 0
    decreases hops, 2, |flows|
  {
    if flows == [] then map[]
    else
      var f := flows[|flows| - 1];
      FromFlows(ix, open, id, hops, flows[..|flows| - 1])
      + if Assigns(f, id) then Carried(ix, open, f.from, hops - 1) else map[]
  }

  function FromCalls(ix: Index, open: set<Id>, id: Id, hops: nat, calls: seq<Call>): Bindings
    requires hops > 0
    decreases hops, 2, |calls|
  {
    if calls == [] then map[]
    else
      var c := calls[|calls| - 1];
      FromCalls(ix, open, id, hops, calls[..|calls| - 1]) + FromCall(ix, open, id, hops, c)
  }

  function FromCall(ix: Index, open: set<Id>, id: Id, hops: nat, c: Call): Bindings
    requires hops > 0
    decreases hops, 1, |c.args| + 1
  {
    (if c.resultId == id then Constructed(ix, open, c, hops) else map[])
    + (if Updates(c, id) then FromArgs(ix, open, hops, c.args) else map[])
  }

  lemma CallsNext(ix: Index, open: set<Id>, id: Id, hops: nat, calls: seq<Call>, i: nat)
    requires hops > 0 && i < |calls|
    ensures FromCalls(ix, open, id, hops, calls[..i + 1]) ==
            FromCalls(ix, open, id, hops, calls[..i]) + FromCall(ix, open, id, hops, calls[i])
  {
    assert calls[..i + 1][..i] == calls[..i];
  }

  function FromArgs(ix: Index, open: set<Id>, hops: nat, args: seq<Arg>): Bindings
    requires hops > 0
    decreases hops, 1, |args|
  {
    if args == [] then map[]
    else
      var a := args[|args| - 1];
      FromArgs(ix, open, hops, args[..|args| - 1])
      + if Positional(a) then Carried(ix, open, a.valueId, hops - 1) else map[]
  }

  /** The names a call gives the mapping it makes. */
  function Constructed(ix: Index, open: set<Id>, c: Call, hops: nat): Bindings
    requires hops > 0
    decreases hops, 1, 0
  {
    if CalleeName(c) == "dict" then FromKeywords(c.args)
    else FromReturns(ix, open, hops, ReturnsOf(ix, CalleeFunctions(c)))
  }

  /** Everything the given functions return, in order. A function the program does not have
      returns nothing. */
  function ReturnsOf(ix: Index, functions: seq<Id>): seq<Id> {
    if functions == [] then []
    else
      var f := functions[|functions| - 1];
      ReturnsOf(ix, functions[..|functions| - 1]) + if f in ix.funcById then ix.funcById[f].returns_ else []
  }

  function FromReturns(ix: Index, open: set<Id>, hops: nat, returns_: seq<Id>): Bindings
    requires hops > 0
    decreases hops, 0, |returns_|
  {
    if returns_ == [] then map[]
    else
      FromReturns(ix, open, hops, returns_[..|returns_| - 1])
      + Carried(ix, open, returns_[|returns_| - 1], hops - 1)
  }

  // --- the bindings, as the program computes them ------------------------

  /** The part of a text after its last dot, looked for from the end. */
  method AfterLastDot(s: string) returns (r: string)
    ensures r == LastSegment(s)
  {
    var i: nat := |s|;
    assert s[..i] == s && s[i..] == "";
    while i > 0
      invariant i <= |s| && LastSegment(s) == LastSegment(s[..i]) + s[i..]
    {
      i := i - 1;
      assert s[..i + 1][..i] == s[..i];
      if s[i] == '.' {
        return s[i + 1..];
      }
      assert s[i..] == [s[i]] + s[i + 1..];
    }
    assert s[..0] == "" && s[0..] == s;
    return s;
  }

  /** The last segment of a callee's text. */
  method NameOfCallee(c: Call) returns (r: string)
    ensures r == CalleeName(c)
  {
    var name := c.callee.name;
    if name == "" {
      name := c.callee.symbol;
    }
    if c.method_ != "" {
      name := c.method_;
    }
    r := AfterLastDot(name);
  }

  /** The members of a literal that have a key and a value, later ones over earlier. */
  method ReadEntries(entries: seq<Entry>) returns (out: Bindings)
    ensures out == FromEntries(entries)
  {
    out := map[];
    for i := 0 to |entries|
      invariant out == FromEntries(entries[..i])
    {
      assert entries[..i + 1][..i] == entries[..i];
      var e := entries[i];
      if e.key != "" && e.valueId != NOTHING {
        out := out[Name(e.key) := e.valueId];
      }
    }
    assert entries[..|entries|] == entries;
  }

  method ReadKeywords(args: seq<Arg>) returns (out: Bindings)
    ensures out == FromKeywords(args)
  {
    out := map[];
    for i := 0 to |args|
      invariant out == FromKeywords(args[..i])
    {
      assert args[..i + 1][..i] == args[..i];
      var a := args[i];
      if a.name != "" && a.valueId != NOTHING {
        out := out[Name(a.name) := a.valueId];
      }
    }
    assert args[..|args|] == args;
  }

  method ReadWrites(writes: seq<Write>, id: Id) returns (out: Bindings)
    ensures out == FromWrites(writes, id)
  {
    out := map[];
    for i := 0 to |writes|
      invariant out == FromWrites(writes[..i], id)
    {
      assert writes[..i + 1][..i] == writes[..i];
      var w := writes[i];
      if w.base == id && w.path != "" && w.from != NOTHING {
        out := out[Name(w.path) := w.from];
      }
    }
    assert writes[..|writes|] == writes;
  }

  class Resolver {
    const ix: Index
    var open: set<Id>

    constructor (ix_: Index)
      ensures ix == ix_ && open == {}
    {
      ix, open := ix_, {};
    }

    /** Resolves one mapping value. The set of values being resolved is put back as it
        was. */
    method Resolve(id: Id, hops: nat) returns (out: Bindings)
      modifies this
      ensures out == Carried(ix, old(open), id, hops) && open == old(open)
      decreases hops, 3
    {
      out := map[];
      if id == NOTHING || hops == 0 || id in open {
        return;
      }
      open := open + {id};
      if id in ix.owner {
        out := ResolveOpen(id, hops);
      }
      open := open - {id};
      assert open == old(open);
    }

    method ResolveOpen(id: Id, hops: nat) returns (out: Bindings)
      requires id in open && id in ix.owner && hops > 0 && id != NOTHING
      modifies this
      ensures out == Carried(ix, old(open) - {id}, id, hops) && open == old(open)
      decreases hops, 2
    {
      var fn := ix.owner[id];
      assert open - {id} + {id} == open;
      out := ReadEntries(if id in ix.valueById then ix.valueById[id].entries else []);
      var flowed := ResolveFlows(id, hops, fn.flows);
      out := out + flowed;
      var called := ResolveCalls(id, hops, fn.calls);
      out := out + called;
      var written := ReadWrites(fn.writes, id);
      out := out + written;
    }

    method ResolveFlows(id: Id, hops: nat, flows: seq<Flow>) returns (out: Bindings)
      requires hops > 0
      modifies this
      ensures out == FromFlows(ix, old(open), id, hops, flows) && open == old(open)
      decreases hops, 1
    {
      out := map[];
      for i := 0 to |flows|
        invariant out == FromFlows(ix, open, id, hops, flows[..i]) && open == old(open)
      {
        assert flows[..i + 1][..i] == flows[..i];
        if Assigns(flows[i], id) {
          var more := Resolve(flows[i].from, hops - 1);
          out := out + more;
        }
      }
      assert flows[..|flows|] == flows;
    }

    method ResolveCalls(id: Id, hops: nat, calls: seq<Call>) returns (out: Bindings)
      requires hops > 0
      modifies this
      ensures out == FromCalls(ix, old(open), id, hops, calls) && open == old(open)
      decreases hops, 1, 2
    {
      out := map[];
      for i := 0 to |calls|
        invariant out == FromCalls(ix, open, id, hops, calls[..i]) && open == old(open)
      {
        CallsNext(ix, open, id, hops, calls, i);
        var more := ResolveCall(id, hops, calls[i]);
        out := out + more;
      }
      assert calls[..|calls|] == calls;
    }

    /** What one call put into the value: what it constructed, then what it updated it with. */
    method ResolveCall(id: Id, hops: nat, c: Call) returns (out: Bindings)
      requires hops > 0
      modifies this
      ensures out == FromCall(ix, old(open), id, hops, c) && open == old(open)
      decreases hops, 1, 1
    {
      out := map[];
      if c.resultId == id {
        out := ResolveConstructed(c, hops);
      }
      if Updates(c, id) {
        var filled := ResolveArgs(c.args, hops);
        out := out + filled;
      }
    }

    method ResolveArgs(args: seq<Arg>, hops: nat) returns (out: Bindings)
      requires hops > 0
      modifies this
      ensures out == FromArgs(ix, old(open), hops, args) && open == old(open)
      decreases hops, 0
    {
      out := map[];
      for i := 0 to |args|
        invariant out == FromArgs(ix, open, hops, args[..i]) && open == old(open)
      {
        assert args[..i + 1][..i] == args[..i];
        if Positional(args[i]) {
          var more := Resolve(args[i].valueId, hops - 1);
          out := out + more;
        }
      }
      assert args[..|args|] == args;
    }

    method ResolveConstructed(c: Call, hops: nat) returns (out: Bindings)
      requires hops > 0
      modifies this
      ensures out == Constructed(ix, old(open), c, hops) && open == old(open)
      decreases hops, 1, 0
    {
      var name := NameOfCallee(c);
      if name == "dict" {
        out := ReadKeywords(c.args);
      } else {
        out := ResolveReturns(ReturnsOf(ix, CalleeFunctions(c)), hops);
      }
    }

    method ResolveReturns(returns_: seq<Id>, hops: nat) returns (out: Bindings)
      requires hops > 0
      modifies this
      ensures out == FromReturns(ix, old(open), hops, returns_) && open == old(open)
      decreases hops, 0
    {
      out := map[];
      for i := 0 to |returns_|
        invariant out == FromReturns(ix, open, hops, returns_[..i]) && open == old(open)
      {
        assert returns_[..i + 1][..i] == returns_[..i];
        var more := Resolve(returns_[i], hops - 1);
        out := out + more;
      }
      assert returns_[..|returns_|] == returns_;
    }

    /** Merges a render's mappings in order, each over those before it. */
    method Context(values: seq<Id>) returns (out: Bindings)
      requires open == {}
      modifies this
      ensures out == Supplied(ix, values) && open == {}
    {
      out := map[];
      for i := 0 to |values|
        invariant out == Supplied(ix, values[..i]) && open == {}
      {
        assert values[..i + 1][..i] == values[..i];
        var more := Resolve(values[i], MAPPING_HOPS);
        out := out + more;
      }
      assert values[..|values|] == values;
    }
  }

  function Supplied(ix: Index, values: seq<Id>): Bindings {
    if values == [] then map[]
    else Supplied(ix, values[..|values| - 1]) + Carried(ix, {}, values[|values| - 1], MAPPING_HOPS)
  }

  // --- the open set loses no name ----------------------------------------

  /** A member, a keyword or a write that gives the name a value. */
  predicate EntryGives(e: Entry, name: Name) {
    e.key == name.text && e.key != "" && e.valueId.name != ""
  }

  predicate KeywordGives(a: Arg, name: Name) {
    a.name == name.text && a.name != "" && a.valueId.name != ""
  }

  predicate WriteGives(w: Write, id: Id, name: Name) {
    w.base == id && w.path == name.text && w.path != "" && w.from.name != ""
  }

  /** The name is written at one value: as a member of its literal, as a keyword of a dict
      that made it, or by a write into it. */
  ghost predicate WrittenAt(ix: Index, id: Id, name: Name) {
    && id.name != "" && id in ix.owner
    && ((id in ix.valueById && exists e :: e in ix.valueById[id].entries && EntryGives(e, name))
        || (exists w :: w in ix.owner[id].writes && WriteGives(w, id, name))
        || (exists c, a :: c in ix.owner[id].calls && c.resultId == id && CalleeName(c) == "dict"
                           && a in c.args && KeywordGives(a, name)))
  }

  /** The function is one the call may enter: the one it names, or else any of those it might
      reach. */
  predicate MayEnter(c: Call, f: Id) {
    if c.callee.functionId.name != "" then f == c.callee.functionId else f in c.callee.possibleFunctionIds
  }

  /** The call makes the value with what some function it may enter returns, or updates it
      with an argument that has no name. */
  ghost predicate CallBuilds(ix: Index, c: Call, id: Id, source: Id) {
    || (c.resultId == id && CalleeName(c) != "dict"
        && exists f :: MayEnter(c, f) && f in ix.funcById && source in ix.funcById[f].returns_)
    || (c.receiverId == id && c.method_ == "update"
        && exists a :: a in c.args && a.name == "" && a.valueId.name != "" && a.valueId == source)
  }

  /** One value is built from another: assigned from it, returned as it, or updated by it. */
  ghost predicate BuiltFrom(ix: Index, id: Id, source: Id) {
    && id.name != "" && id in ix.owner
    && ((source != id && exists f :: f in ix.owner[id].flows && f.to == id && f.from == source)
        || (exists c :: c in ix.owner[id].calls && CallBuilds(ix, c, id, source)))
  }

  // --- what the lists give --------------------------------------------------

  /** The last member to give a name a value is the one that holds. */
  lemma {:induction false} LastEntryHolds(entries: seq<Entry>, k: nat, name: Name)
    requires k < |entries| && EntryGives(entries[k], name)
    requires forall j :: k < j < |entries| ==> !EntryGives(entries[j], name)
    ensures name in FromEntries(entries) && FromEntries(entries)[name] == entries[k].valueId
    decreases |entries|
  {
    var n := |entries| - 1;
    assert name == Name(name.text) && entries[n].valueId == Id(entries[n].valueId.name);
    if k < n {
      assert entries[..n][k] == entries[k] && forall j :: k < j < n ==> entries[..n][j] == entries[j];
      LastEntryHolds(entries[..n], k, name);
    }
  }

  /** And no other name is given one. */
  lemma {:induction false} EntryNames(entries: seq<Entry>, name: Name)
    ensures name in FromEntries(entries) <==> exists e :: e in entries && EntryGives(e, name)
    decreases |entries|
  {
    if entries != [] {
      var n := |entries| - 1;
      EntryNames(entries[..n], name);
      assert forall x :: x in entries <==> x in entries[..n] || x == entries[n] by {
        assert entries == entries[..n] + [entries[n]];
      }
      var e := entries[n];
      assert EntryGives(e, name) <==> e.key != "" && e.valueId != NOTHING && name == Name(e.key) by {
        assert name == Name(name.text) && e.valueId == Id(e.valueId.name);
      }
    }
  }

  /** The same of a dict's keywords. */
  lemma {:induction false} LastKeywordHolds(args: seq<Arg>, k: nat, name: Name)
    requires k < |args| && KeywordGives(args[k], name)
    requires forall j :: k < j < |args| ==> !KeywordGives(args[j], name)
    ensures name in FromKeywords(args) && FromKeywords(args)[name] == args[k].valueId
    decreases |args|
  {
    var n := |args| - 1;
    assert name == Name(name.text) && args[n].valueId == Id(args[n].valueId.name);
    if k < n {
      assert args[..n][k] == args[k] && forall j :: k < j < n ==> args[..n][j] == args[j];
      LastKeywordHolds(args[..n], k, name);
    }
  }

  lemma {:induction false} KeywordNames(args: seq<Arg>, name: Name)
    ensures name in FromKeywords(args) <==> exists a :: a in args && KeywordGives(a, name)
    decreases |args|
  {
    if args != [] {
      var n := |args| - 1;
      KeywordNames(args[..n], name);
      assert forall x :: x in args <==> x in args[..n] || x == args[n] by {
        assert args == args[..n] + [args[n]];
      }
      var a := args[n];
      assert KeywordGives(a, name) <==> a.name != "" && a.valueId != NOTHING && name == Name(a.name) by {
        assert name == Name(name.text) && a.valueId == Id(a.valueId.name);
      }
    }
  }

  lemma {:induction false} WriteNames(writes: seq<Write>, id: Id, name: Name)
    ensures name in FromWrites(writes, id) <==> exists w :: w in writes && WriteGives(w, id, name)
    decreases |writes|
  {
    if writes != [] {
      var n := |writes| - 1;
      WriteNames(writes[..n], id, name);
      assert forall x :: x in writes <==> x in writes[..n] || x == writes[n] by {
        assert writes == writes[..n] + [writes[n]];
      }
      var w := writes[n];
      assert WriteGives(w, id, name) <==> w.base == id && w.path != "" && w.from != NOTHING && name == Name(w.path) by {
        assert name == Name(name.text) && w.from == Id(w.from.name);
      }
    }
  }

  lemma {:induction false} ReturnsAre(ix: Index, functions: seq<Id>, v: Id)
    ensures v in ReturnsOf(ix, functions) <==> exists f :: f in functions && f in ix.funcById && v in ix.funcById[f].returns_
    decreases |functions|
  {
    if functions != [] {
      var n := |functions| - 1;
      ReturnsAre(ix, functions[..n], v);
      assert functions == functions[..n] + [functions[n]];
    }
  }

  lemma ReturnsEntered(ix: Index, c: Call, v: Id)
    ensures v in ReturnsOf(ix, CalleeFunctions(c)) <==>
            exists f :: MayEnter(c, f) && f in ix.funcById && v in ix.funcById[f].returns_
  {
    ReturnsAre(ix, CalleeFunctions(c), v);
    assert c.callee.functionId == Id(c.callee.functionId.name);
    assert forall f :: f in CalleeFunctions(c) <==> MayEnter(c, f);
  }

  // The same three predicates over the lists that are walked.

  ghost predicate ListedAt(ix: Index, id: Id, name: Name) {
    && id != NOTHING && id in ix.owner
    && (name in EntriesOf(ix, id)
        || name in FromWrites(ix.owner[id].writes, id)
        || exists c :: c in ix.owner[id].calls && c.resultId == id && CalleeName(c) == "dict" && name in FromKeywords(c.args))
  }

  ghost predicate Feeds(ix: Index, c: Call, id: Id, source: Id) {
    || (c.resultId == id && CalleeName(c) != "dict" && source in ReturnsOf(ix, CalleeFunctions(c)))
    || (Updates(c, id) && exists a :: a in c.args && Positional(a) && a.valueId == source)
  }

  ghost predicate FedFrom(ix: Index, id: Id, source: Id) {
    && id != NOTHING && id in ix.owner
    && ((exists f :: f in ix.owner[id].flows && Assigns(f, id) && f.from == source)
        || (exists c :: c in ix.owner[id].calls && Feeds(ix, c, id, source)))
  }

  lemma WrittenIsListed(ix: Index, id: Id, name: Name)
    ensures WrittenAt(ix, id, name) <==> ListedAt(ix, id, name)
  {
    assert id == Id(id.name);
    if id != NOTHING && id in ix.owner {
      if id in ix.valueById { EntryNames(ix.valueById[id].entries, name); }
      WriteNames(ix.owner[id].writes, id, name);
      forall c: Call ensures name in FromKeywords(c.args) <==> exists a :: a in c.args && KeywordGives(a, name) {
        KeywordNames(c.args, name);
      }
    }
  }

  lemma BuildsIsFeeds(ix: Index, c: Call, id: Id, v: Id)
    ensures CallBuilds(ix, c, id, v) <==> Feeds(ix, c, id, v)
  {
    ReturnsEntered(ix, c, v);
    assert forall a: Arg :: a.valueId == Id(a.valueId.name);
  }

  lemma BuiltIsFed(ix: Index, id: Id, v: Id)
    ensures BuiltFrom(ix, id, v) <==> FedFrom(ix, id, v)
  {
    assert id == Id(id.name);
    forall c ensures CallBuilds(ix, c, id, v) <==> Feeds(ix, c, id, v) {
      BuildsIsFeeds(ix, c, id, v);
    }
  }

  /** The text ends in this, after a dot. */
  predicate AfterDot(s: string, x: string) {
    |s| > |x| && s[|s| - |x| - 1] == '.' && s[|s| - |x|..] == x
  }

  lemma AfterDotShorter(s: string, x: string, c: char)
    ensures AfterDot(s + [c], x + [c]) <==> AfterDot(s, x)
  {
    var t, y := s + [c], x + [c];
    if |s| > |x| {
      assert t[|t| - |y|..] == s[|s| - |x|..] + [c];
      assert t[|t| - |y|..][..|x|] == s[|s| - |x|..] && y[..|x|] == x;
    }
  }

  lemma {:induction false} SegmentHasNoDot(s: string)
    ensures '.' !in LastSegment(s) && (LastSegment(s) == s || AfterDot(s, LastSegment(s)))
    decreases |s|
  {
    if s != "" && s[|s| - 1] != '.' {
      var before, c := s[..|s| - 1], s[|s| - 1];
      SegmentHasNoDot(before);
      assert s == before + [c];
      AfterDotShorter(before, LastSegment(before), c);
    }
  }

  lemma NoLongerAfterDot(s: string, x: string, y: string)
    requires '.' !in y && AfterDot(s, x) && (s == y || AfterDot(s, y))
    ensures |y| <= |x|
  {
    forall m | |s| - |y| <= m < |s| ensures s[m] != '.' {
      assert s[m] == y[m - (|s| - |y|)];
    }
  }

  lemma OneAfterDot(s: string, x: string, y: string)
    requires '.' !in x && '.' !in y && AfterDot(s, x) && (s == y || AfterDot(s, y))
    ensures x == y
  {
    NoLongerAfterDot(s, x, y);
    assert s != y;
    NoLongerAfterDot(s, y, x);
  }

  /** The text after the last dot: no dot is in it, and it is the whole or follows a dot. */
  lemma LastSegmentIs(s: string, x: string)
    ensures LastSegment(s) == x <==> '.' !in x && (s == x || AfterDot(s, x))
  {
    var y := LastSegment(s);
    SegmentHasNoDot(s);
    if '.' !in x && (s == x || AfterDot(s, x)) {
      if AfterDot(s, x) {
        OneAfterDot(s, x, y);
      } else if AfterDot(s, y) {
        OneAfterDot(s, y, x);
      }
    }
  }

  /** What a call is written as: its method; or, without one, the name it calls; or, without
      that, its symbol. */
  predicate WrittenAs(c: Call, text: string) {
    if c.method_ != "" then text == c.method_
    else if c.callee.name != "" then text == c.callee.name
    else text == c.callee.symbol
  }

  /** A call makes a dict exactly when it is written "dict", or to end in that after a dot. */
  lemma DictIsCalled(c: Call, text: string)
    requires WrittenAs(c, text)
    ensures CalleeName(c) == "dict" <==> text == "dict" || AfterDot(text, "dict")
  {
    LastSegmentIs(text, "dict");
  }

  /** Each value in the walk is built from the one after it. */
  ghost predicate Walk(ix: Index, p: seq<Id>) {
    p != [] && (|p| > 1 ==> BuiltFrom(ix, p[0], p[1]) && Walk(ix, p[1..]))
  }

  /** The name is written at the end of a walk of at most so many values from here. */
  ghost predicate Reachable(ix: Index, id: Id, hops: nat, name: Name) {
    exists p :: Walk(ix, p) && p[0] == id && |p| <= hops && WrittenAt(ix, p[|p| - 1], name)
  }

  lemma {:induction false} FlowNames(ix: Index, open: set<Id>, id: Id, hops: nat, flows: seq<Flow>, name: Name)
    requires hops > 0
    ensures name in FromFlows(ix, open, id, hops, flows) <==>
            exists f :: f in flows && Assigns(f, id) && name in Carried(ix, open, f.from, hops - 1)
    decreases |flows|
  {
    if flows != [] {
      var n := |flows| - 1;
      FlowNames(ix, open, id, hops, flows[..n], name);
      assert flows == flows[..n] + [flows[n]];
    }
  }

  lemma {:induction false} ArgNames(ix: Index, open: set<Id>, hops: nat, args: seq<Arg>, name: Name)
    requires hops > 0
    ensures name in FromArgs(ix, open, hops, args) <==>
            exists a :: a in args && Positional(a) && name in Carried(ix, open, a.valueId, hops - 1)
    decreases |args|
  {
    if args != [] {
      var n := |args| - 1;
      ArgNames(ix, open, hops, args[..n], name);
      assert args == args[..n] + [args[n]];
    }
  }

  lemma {:induction false} ReturnNames(ix: Index, open: set<Id>, hops: nat, returns_: seq<Id>, name: Name)
    requires hops > 0
    ensures name in FromReturns(ix, open, hops, returns_) <==>
            exists v :: v in returns_ && name in Carried(ix, open, v, hops - 1)
    decreases |returns_|
  {
    if returns_ != [] {
      var n := |returns_| - 1;
      ReturnNames(ix, open, hops, returns_[..n], name);
      assert returns_ == returns_[..n] + [returns_[n]];
      assert returns_[n] in returns_;
      if name in FromReturns(ix, open, hops, returns_[..n]) {
        var v :| v in returns_[..n] && name in Carried(ix, open, v, hops - 1);
        assert v in returns_;
      }
      if v :| v in returns_ && name in Carried(ix, open, v, hops - 1) {
        if v != returns_[n] {
          assert v in returns_[..n];
        }
      }
    }
  }

  /** One call supplies a name: as a dict's keyword, or through a value it is built from. */
  ghost predicate CallSupplies(ix: Index, open: set<Id>, c: Call, id: Id, hops: nat, name: Name)
    requires hops > 0
  {
    || (c.resultId == id && CalleeName(c) == "dict" && name in FromKeywords(c.args))
    || (exists v :: Feeds(ix, c, id, v) && name in Carried(ix, open, v, hops - 1))
  }

  lemma CallNamesOne(ix: Index, open: set<Id>, c: Call, id: Id, hops: nat, name: Name)
    requires hops > 0
    ensures CallSupplies(ix, open, c, id, hops, name) <==>
            || (c.resultId == id && name in Constructed(ix, open, c, hops))
            || (Updates(c, id) && name in FromArgs(ix, open, hops, c.args))
  {
    ArgNames(ix, open, hops, c.args, name);
    ReturnNames(ix, open, hops, ReturnsOf(ix, CalleeFunctions(c)), name);
    if Updates(c, id) && name in FromArgs(ix, open, hops, c.args) {
      var a :| a in c.args && Positional(a) && name in Carried(ix, open, a.valueId, hops - 1);
      assert Feeds(ix, c, id, a.valueId);
    }
    if c.resultId == id && CalleeName(c) != "dict" && name in Constructed(ix, open, c, hops) {
      var v :| v in ReturnsOf(ix, CalleeFunctions(c)) && name in Carried(ix, open, v, hops - 1);
      assert Feeds(ix, c, id, v);
    }
  }

  lemma {:induction false} CallNames(ix: Index, open: set<Id>, id: Id, hops: nat, calls: seq<Call>, name: Name)
    requires hops > 0
    ensures name in FromCalls(ix, open, id, hops, calls) <==>
            exists c :: c in calls && CallSupplies(ix, open, c, id, hops, name)
    decreases |calls|
  {
    if calls != [] {
      var n := |calls| - 1;
      CallNames(ix, open, id, hops, calls[..n], name);
      CallNamesOne(ix, open, calls[n], id, hops, name);
      assert calls == calls[..n] + [calls[n]];
    }
  }

  lemma CarriedFromLists(ix: Index, open: set<Id>, id: Id, hops: nat, name: Name)
    requires hops > 0 && id !in open
    ensures name in Carried(ix, open, id, hops) <==>
            || ListedAt(ix, id, name)
            || exists v :: FedFrom(ix, id, v) && name in Carried(ix, open + {id}, v, hops - 1)
  {
    if id != NOTHING && id in ix.owner {
      var fn := ix.owner[id];
      FlowNames(ix, open + {id}, id, hops, fn.flows, name);
      CallNames(ix, open + {id}, id, hops, fn.calls, name);
      if name in FromFlows(ix, open + {id}, id, hops, fn.flows) {
        var f :| f in fn.flows && Assigns(f, id) && name in Carried(ix, open + {id}, f.from, hops - 1);
        assert FedFrom(ix, id, f.from);
      }
      if name in FromCalls(ix, open + {id}, id, hops, fn.calls) {
        var c :| c in fn.calls && CallSupplies(ix, open + {id}, c, id, hops, name);
        if v :| Feeds(ix, c, id, v) && name in Carried(ix, open + {id}, v, hops - 1) {
          assert FedFrom(ix, id, v);
        }
      }
      if v :| FedFrom(ix, id, v) && name in Carried(ix, open + {id}, v, hops - 1) {
        BuiltSupplies(ix, open + {id}, id, hops, name, v);
      }
    }
  }

  lemma BuiltSupplies(ix: Index, open: set<Id>, id: Id, hops: nat, name: Name, v: Id)
    requires hops > 0 && FedFrom(ix, id, v) && name in Carried(ix, open, v, hops - 1)
    ensures name in FromFlows(ix, open, id, hops, ix.owner[id].flows) || name in FromCalls(ix, open, id, hops, ix.owner[id].calls)
  {
    var fn := ix.owner[id];
    FlowNames(ix, open, id, hops, fn.flows, name);
    CallNames(ix, open, id, hops, fn.calls, name);
    if c :| c in fn.calls && Feeds(ix, c, id, v) {
      assert CallSupplies(ix, open, c, id, hops, name);
    }
  }

  /** A value carries a name exactly when the name is written at it, or carried by a value
      it is built from. */
  lemma CarriedUnfold(ix: Index, open: set<Id>, id: Id, hops: nat, name: Name)
    requires hops > 0 && id !in open
    ensures name in Carried(ix, open, id, hops) <==>
            || WrittenAt(ix, id, name)
            || exists v :: BuiltFrom(ix, id, v) && name in Carried(ix, open + {id}, v, hops - 1)
  {
    CarriedFromLists(ix, open, id, hops, name);
    WrittenIsListed(ix, id, name);
    forall v ensures BuiltFrom(ix, id, v) <==> FedFrom(ix, id, v) {
      BuiltIsFed(ix, id, v);
    }
  }

  lemma ReachableStep(ix: Index, id: Id, v: Id, hops: nat, name: Name)
    requires BuiltFrom(ix, id, v) && Reachable(ix, v, hops, name)
    ensures Reachable(ix, id, hops + 1, name)
  {
    var p :| Walk(ix, p) && p[0] == v && |p| <= hops && WrittenAt(ix, p[|p| - 1], name);
    var q := [id] + p;
    assert q[1..] == p;
    assert Walk(ix, q);
    assert q[|q| - 1] == p[|p| - 1];
  }

  lemma WrittenReachable(ix: Index, id: Id, hops: nat, name: Name)
    requires WrittenAt(ix, id, name) && hops > 0
    ensures Reachable(ix, id, hops, name)
  {
    var p := [id];
    assert Walk(ix, p) && p[|p| - 1] == id;
  }

  lemma {:induction false} CarriedIsReachable(ix: Index, open: set<Id>, id: Id, hops: nat, name: Name)
    requires name in Carried(ix, open, id, hops)
    ensures Reachable(ix, id, hops, name)
    decreases hops, 1
  {
    if WrittenAt(ix, id, name) {
      WrittenReachable(ix, id, hops, name);
    } else {
      var v := CarriedSource(ix, open, id, hops, name);
      CarriedFurther(ix, open + {id}, id, v, hops, name);
    }
  }

  lemma {:induction false} CarriedFurther(ix: Index, open: set<Id>, id: Id, v: Id, hops: nat, name: Name)
    requires hops > 0 && BuiltFrom(ix, id, v) && name in Carried(ix, open, v, hops - 1)
    ensures Reachable(ix, id, hops, name)
    decreases hops, 0
  {
    CarriedIsReachable(ix, open, v, hops - 1, name);
    ReachableStep(ix, id, v, hops - 1, name);
  }

  lemma CarriedSource(ix: Index, open: set<Id>, id: Id, hops: nat, name: Name) returns (v: Id)
    requires name in Carried(ix, open, id, hops) && !WrittenAt(ix, id, name)
    ensures hops > 0 && BuiltFrom(ix, id, v) && name in Carried(ix, open + {id}, v, hops - 1)
  {
    CarriedUnfold(ix, open, id, hops, name);
    v :| BuiltFrom(ix, id, v) && name in Carried(ix, open + {id}, v, hops - 1);
  }

  lemma {:induction false} WalkSuffix(ix: Index, p: seq<Id>, k: nat)
    requires Walk(ix, p) && k < |p|
    ensures Walk(ix, p[k..])
  {
    if k > 0 {
      WalkSuffix(ix, p[1..], k - 1);
      assert p[1..][k - 1..] == p[k..];
    }
  }

  /** A walk that keeps clear of what is open supplies its name: where it comes back to a
      value, the part in between is not needed. */
  lemma {:induction false} WalkIsCarried(ix: Index, open: set<Id>, p: seq<Id>, hops: nat, name: Name)
    requires Walk(ix, p) && |p| <= hops && WrittenAt(ix, p[|p| - 1], name)
    requires forall k :: 0 <= k < |p| ==> p[k] !in open
    ensures name in Carried(ix, open, p[0], hops)
    decreases |p|
  {
    if |p| == 1 {
      CarriedUnfold(ix, open, p[0], hops, name);
    } else if k :| 1 <= k < |p| && p[k] == p[0] {
      WalkSuffix(ix, p, k);
      WalkIsCarried(ix, open, p[k..], hops, name);
    } else {
      FirstNotAgain(p, open);
      WalkIsCarried(ix, open + {p[0]}, p[1..], hops - 1, name);
      CarriedFromNext(ix, open, p[0], p[1], hops, name);
    }
  }

  lemma FirstNotAgain(p: seq<Id>, open: set<Id>)
    requires |p| > 1 && (forall k :: 0 <= k < |p| ==> p[k] !in open) && forall k :: 1 <= k < |p| ==> p[k] != p[0]
    ensures forall k :: 0 <= k < |p[1..]| ==> p[1..][k] !in open + {p[0]}
  {
    assert forall k :: 0 <= k < |p[1..]| ==> p[1..][k] == p[k + 1];
  }

  lemma CarriedFromNext(ix: Index, open: set<Id>, id: Id, next: Id, hops: nat, name: Name)
    requires BuiltFrom(ix, id, next) && hops > 0 && id !in open
    requires name in Carried(ix, open + {id}, next, hops - 1)
    ensures name in Carried(ix, open, id, hops)
  {
    CarriedUnfold(ix, open, id, hops, name);
  }

  /** Not walking through a value twice costs no name: a mapping carries exactly the names
      written within reach. */
  lemma OpenLosesNoName(ix: Index, id: Id, hops: nat, name: Name)
    ensures name in Carried(ix, {}, id, hops) <==> Reachable(ix, id, hops, name)
  {
    if name in Carried(ix, {}, id, hops) {
      CarriedIsReachable(ix, {}, id, hops, name);
    }
    if Reachable(ix, id, hops, name) {
      var p :| Walk(ix, p) && p[0] == id && |p| <= hops && WrittenAt(ix, p[|p| - 1], name);
      WalkIsCarried(ix, {}, p, hops, name);
    }
  }

  /** Looking further only ever adds names. */
  lemma MoreHopsMoreNames(ix: Index, id: Id, hops: nat, more: nat, name: Name)
    requires hops <= more && name in Carried(ix, {}, id, hops)
    ensures name in Carried(ix, {}, id, more)
  {
    OpenLosesNoName(ix, id, hops, name);
    OpenLosesNoName(ix, id, more, name);
  }

  /** The mapping at this place is the last of them within reach of which the name is
      written. */
  ghost predicate LastToCarry(ix: Index, values: seq<Id>, k: int, name: Name) {
    && 0 <= k < |values| && Reachable(ix, values[k], 3, name)
    && forall j :: k < j < |values| ==> !Reachable(ix, values[j], 3, name)
  }

  /** The binding is the one the mapping gives the name. */
  ghost predicate Gives(ix: Index, id: Id, name: Name, to: Id) {
    var m := Carried(ix, {}, id, 3);
    name in m && m[name] == to
  }

  /** The binding is the one the last mapping to carry the name gives it. */
  ghost predicate GivenLast(ix: Index, values: seq<Id>, name: Name, to: Id) {
    exists k :: LastToCarry(ix, values, k, name) && Gives(ix, values[k], name, to)
  }

  ghost predicate Somewhere(ix: Index, values: seq<Id>, name: Name) {
    exists v :: v in values && Reachable(ix, v, 3, name)
  }

  lemma GivenBefore(ix: Index, values: seq<Id>, last: Id, name: Name, to: Id)
    requires GivenLast(ix, values, name, to) && !Reachable(ix, last, 3, name)
    ensures GivenLast(ix, values + [last], name, to)
  {
    var k :| LastToCarry(ix, values, k, name) && Gives(ix, values[k], name, to);
    var all := values + [last];
    forall j | k < j < |all| ensures !Reachable(ix, all[j], 3, name) {
      assert all[j] == if j < |values| then values[j] else last;
    }
    assert all[k] == values[k];
    assert LastToCarry(ix, all, k, name) && Gives(ix, all[k], name, to);
  }

  lemma GivenHere(ix: Index, values: seq<Id>, last: Id, name: Name, to: Id)
    requires Gives(ix, last, name, to)
    ensures GivenLast(ix, values + [last], name, to)
  {
    OpenLosesNoName(ix, last, 3, name);
    assert (values + [last])[|values|] == last;
    assert LastToCarry(ix, values + [last], |values|, name);
  }

  ghost predicate SuppliesRight(ix: Index, values: seq<Id>, m: Bindings, name: Name) {
    && (name in m <==> Somewhere(ix, values, name))
    && (name in m ==> GivenLast(ix, values, name, m[name]))
  }

  lemma SuppliesNext(ix: Index, values: seq<Id>, last: Id, m: Bindings, name: Name)
    requires SuppliesRight(ix, values, m, name)
    ensures SuppliesRight(ix, values + [last], m + Carried(ix, {}, last, MAPPING_HOPS), name)
  {
    var more := Carried(ix, {}, last, MAPPING_HOPS);
    OpenLosesNoName(ix, last, 3, name);
    assert Somewhere(ix, values + [last], name) <==> Somewhere(ix, values, name) || Reachable(ix, last, 3, name) by {
      assert last in values + [last] && forall v :: v in values + [last] <==> v in values || v == last;
    }
    if name in more {
      GivenHere(ix, values, last, name, more[name]);
    } else if name in m {
      GivenBefore(ix, values, last, name, m[name]);
    }
  }

  /** A render's mappings supply exactly the names written within reach of one of them, and
      each with what the last mapping to carry it gives it. */
  lemma {:induction false} SuppliedIsLast(ix: Index, values: seq<Id>, name: Name)
    ensures SuppliesRight(ix, values, Supplied(ix, values), name)
    decreases |values|
  {
    if values != [] {
      var last, rest := values[|values| - 1], values[..|values| - 1];
      SuppliedIsLast(ix, rest, name);
      SuppliesNext(ix, rest, last, Supplied(ix, rest), name);
      assert values == rest + [last];
    }
  }

  /** What is written into a mapping replaces whatever it was built with, and the last
      write of a name is the one that holds. */
  lemma {:induction false} LastWriteHolds(writes: seq<Write>, id: Id, k: nat)
    requires k < |writes| && writes[k].base == id && writes[k].path != "" && writes[k].from != NOTHING
    requires forall j :: k < j < |writes| ==> !(writes[j].base == id && writes[j].path == writes[k].path && writes[j].from != NOTHING)
    ensures Name(writes[k].path) in FromWrites(writes, id) && FromWrites(writes, id)[Name(writes[k].path)] == writes[k].from
  {
    var n := |writes| - 1;
    if k < n {
      assert writes[..n][k] == writes[k];
      assert forall j :: k < j < n ==> writes[..n][j] == writes[j];
      LastWriteHolds(writes[..n], id, k);
    }
  }

  lemma WritesWin(ix: Index, open: set<Id>, id: Id, hops: nat, k: nat)
    requires id != NOTHING && hops > 0 && id !in open && id in ix.owner
    requires var ws := ix.owner[id].writes;
             && k < |ws| && ws[k].base == id && ws[k].path != "" && ws[k].from != NOTHING
             && forall j :: k < j < |ws| ==> !(ws[j].base == id && ws[j].path == ws[k].path && ws[j].from != NOTHING)
    ensures var w := ix.owner[id].writes[k];
            Name(w.path) in Carried(ix, open, id, hops) && Carried(ix, open, id, hops)[Name(w.path)] == w.from
  {
    LastWriteHolds(ix.owner[id].writes, id, k);
  }

  // --- the last source holds ------------------------------------------------

  function Merged(sources: seq<Bindings>): Bindings {
    if sources == [] then map[] else Merged(sources[..|sources| - 1]) + sources[|sources| - 1]
  }

  /** The binding is the one of the last source that has the name. */
  ghost predicate FromLast(sources: seq<Bindings>, name: Name, to: Id) {
    exists k :: 0 <= k < |sources| && name in sources[k] && sources[k][name] == to
                && forall j :: k < j < |sources| ==> name !in sources[j]
  }

  lemma {:induction false} MergedIsLast(sources: seq<Bindings>, name: Name)
    ensures name in Merged(sources) <==> exists k :: 0 <= k < |sources| && name in sources[k]
    ensures name in Merged(sources) ==> FromLast(sources, name, Merged(sources)[name])
    decreases |sources|
  {
    if sources != [] {
      var n := |sources| - 1;
      var before := sources[..n];
      MergedIsLast(before, name);
      if name in sources[n] {
        assert FromLast(sources, name, sources[n][name]);
      } else if name in Merged(before) {
        var k :| 0 <= k < n && name in before[k] && before[k][name] == Merged(before)[name]
                 && forall j :: k < j < n ==> name !in before[j];
        assert forall j :: k < j < |sources| ==> name !in sources[j] by {
          assert forall j :: k < j < n ==> sources[j] == before[j];
        }
        assert FromLast(sources, name, Merged(before)[name]);
      }
    }
  }

  lemma {:induction false} MergedParts(a: seq<Bindings>, b: seq<Bindings>)
    ensures Merged(a + b) == Merged(a) + Merged(b)
    decreases |b|
  {
    if b == [] {
      assert a + b == a;
    } else {
      var before, last := b[..|b| - 1], b[|b| - 1];
      MergedParts(a, before);
      assert a + b == (a + before) + [last];
      MergedNext(a + before, last);
    }
  }

  lemma MergedNext(sources: seq<Bindings>, last: Bindings)
    ensures Merged(sources + [last]) == Merged(sources) + last
  {
    assert (sources + [last])[..|sources|] == sources;
  }

  function FlowSource(ix: Index, open: set<Id>, id: Id, hops: nat, f: Flow): Bindings
    requires hops > 0
  {
    if Assigns(f, id) then Carried(ix, open, f.from, hops - 1) else map[]
  }

  function ArgSource(ix: Index, open: set<Id>, hops: nat, a: Arg): Bindings
    requires hops > 0
  {
    if Positional(a) then Carried(ix, open, a.valueId, hops - 1) else map[]
  }

  /** What each flow gives the value, in order. */
  function FlowSources(ix: Index, open: set<Id>, id: Id, hops: nat, flows: seq<Flow>): seq<Bindings>
    requires hops > 0
  {
    seq(|flows|, k requires 0 <= k < |flows| => FlowSource(ix, open, id, hops, flows[k]))
  }

  function ReturnSources(ix: Index, open: set<Id>, hops: nat, returns_: seq<Id>): seq<Bindings>
    requires hops > 0
  {
    seq(|returns_|, k requires 0 <= k < |returns_| => Carried(ix, open, returns_[k], hops - 1))
  }

  function ArgSources(ix: Index, open: set<Id>, hops: nat, args: seq<Arg>): seq<Bindings>
    requires hops > 0
  {
    seq(|args|, k requires 0 <= k < |args| => ArgSource(ix, open, hops, args[k]))
  }

  /** What a call gives: what it makes the value with, one source a returned value, then
      one source an argument it updates the value with. */
  function CallSources(ix: Index, open: set<Id>, id: Id, hops: nat, c: Call): seq<Bindings>
    requires hops > 0
  {
    (if c.resultId != id then []
     else if CalleeName(c) == "dict" then [FromKeywords(c.args)]
     else ReturnSources(ix, open, hops, ReturnsOf(ix, CalleeFunctions(c))))
    + (if Updates(c, id) then ArgSources(ix, open, hops, c.args) else [])
  }

  function AllCallSources(ix: Index, open: set<Id>, id: Id, hops: nat, calls: seq<Call>): seq<Bindings>
    requires hops > 0
    decreases |calls|
  {
    if calls == [] then []
    else
      AllCallSources(ix, open, id, hops, calls[..|calls| - 1]) + CallSources(ix, open, id, hops, calls[|calls| - 1])
  }

  /** Everything that gives a mapping names, weakest first. */
  function Sources(ix: Index, open: set<Id>, id: Id, hops: nat): seq<Bindings>
    requires hops > 0 && id in ix.owner
  {
    var fn := ix.owner[id];
    [EntriesOf(ix, id)] + FlowSources(ix, open + {id}, id, hops, fn.flows)
    + AllCallSources(ix, open + {id}, id, hops, fn.calls) + [FromWrites(fn.writes, id)]
  }

  lemma FlowSourcesNext(ix: Index, open: set<Id>, id: Id, hops: nat, flows: seq<Flow>)
    requires hops > 0 && flows != []
    ensures FlowSources(ix, open, id, hops, flows) ==
            FlowSources(ix, open, id, hops, flows[..|flows| - 1]) + [FlowSource(ix, open, id, hops, flows[|flows| - 1])]
  {
  }

  lemma ReturnSourcesNext(ix: Index, open: set<Id>, hops: nat, returns_: seq<Id>)
    requires hops > 0 && returns_ != []
    ensures ReturnSources(ix, open, hops, returns_) ==
            ReturnSources(ix, open, hops, returns_[..|returns_| - 1]) + [Carried(ix, open, returns_[|returns_| - 1], hops - 1)]
  {
  }

  lemma ArgSourcesNext(ix: Index, open: set<Id>, hops: nat, args: seq<Arg>)
    requires hops > 0 && args != []
    ensures ArgSources(ix, open, hops, args) ==
            ArgSources(ix, open, hops, args[..|args| - 1]) + [ArgSource(ix, open, hops, args[|args| - 1])]
  {
  }

  lemma {:induction false} FlowsMerge(ix: Index, open: set<Id>, id: Id, hops: nat, flows: seq<Flow>)
    requires hops > 0
    ensures FromFlows(ix, open, id, hops, flows) == Merged(FlowSources(ix, open, id, hops, flows))
    decreases |flows|
  {
    if flows != [] {
      var before, last := flows[..|flows| - 1], FlowSource(ix, open, id, hops, flows[|flows| - 1]);
      FlowsMerge(ix, open, id, hops, before);
      FlowSourcesNext(ix, open, id, hops, flows);
      MergedNext(FlowSources(ix, open, id, hops, before), last);
    }
  }

  lemma {:induction false} ReturnsMerge(ix: Index, open: set<Id>, hops: nat, returns_: seq<Id>)
    requires hops > 0
    ensures FromReturns(ix, open, hops, returns_) == Merged(ReturnSources(ix, open, hops, returns_))
    decreases |returns_|
  {
    if returns_ != [] {
      var before, last := returns_[..|returns_| - 1], Carried(ix, open, returns_[|returns_| - 1], hops - 1);
      ReturnsMerge(ix, open, hops, before);
      ReturnSourcesNext(ix, open, hops, returns_);
      MergedNext(ReturnSources(ix, open, hops, before), last);
    }
  }

  lemma {:induction false} ArgsMerge(ix: Index, open: set<Id>, hops: nat, args: seq<Arg>)
    requires hops > 0
    ensures FromArgs(ix, open, hops, args) == Merged(ArgSources(ix, open, hops, args))
    decreases |args|
  {
    if args != [] {
      var before, last := args[..|args| - 1], ArgSource(ix, open, hops, args[|args| - 1]);
      ArgsMerge(ix, open, hops, before);
      ArgSourcesNext(ix, open, hops, args);
      MergedNext(ArgSources(ix, open, hops, before), last);
    }
  }

  lemma CallMerges(ix: Index, open: set<Id>, id: Id, hops: nat, c: Call)
    requires hops > 0
    ensures FromCall(ix, open, id, hops, c) == Merged(CallSources(ix, open, id, hops, c))
  {
    var made := if c.resultId == id then Constructed(ix, open, c, hops) else map[];
    var makes := if c.resultId != id then []
                 else if CalleeName(c) == "dict" then [FromKeywords(c.args)]
                 else ReturnSources(ix, open, hops, ReturnsOf(ix, CalleeFunctions(c)));
    var fills := if Updates(c, id) then ArgSources(ix, open, hops, c.args) else [];
    assert made == Merged(makes) by {
      ReturnsMerge(ix, open, hops, ReturnsOf(ix, CalleeFunctions(c)));
      MergedOne(FromKeywords(c.args));
    }
    ArgsMerge(ix, open, hops, c.args);
    MergedParts(makes, fills);
  }

  lemma MergedOne(m: Bindings)
    ensures Merged([m]) == m
  {
    assert [m][..0] == [];
  }

  lemma {:induction false} CallsMerge(ix: Index, open: set<Id>, id: Id, hops: nat, calls: seq<Call>)
    requires hops > 0
    ensures FromCalls(ix, open, id, hops, calls) == Merged(AllCallSources(ix, open, id, hops, calls))
    decreases |calls|
  {
    if calls != [] {
      var before, c := calls[..|calls| - 1], calls[|calls| - 1];
      CallsMerge(ix, open, id, hops, before);
      CallMerges(ix, open, id, hops, c);
      MergedParts(AllCallSources(ix, open, id, hops, before), CallSources(ix, open, id, hops, c));
    }
  }

  /** One mapping gives a name what the last of its sources to have the name gives it:
      writes over calls, calls over flows, flows over entries, and later over earlier. */
  lemma LastSourceHolds(ix: Index, open: set<Id>, id: Id, hops: nat, name: Name)
    requires id != NOTHING && hops > 0 && id !in open && id in ix.owner
    ensures name in Carried(ix, open, id, hops) <==>
            exists k :: 0 <= k < |Sources(ix, open, id, hops)| && name in Sources(ix, open, id, hops)[k]
    ensures name in Carried(ix, open, id, hops) ==>
              FromLast(Sources(ix, open, id, hops), name, Carried(ix, open, id, hops)[name])
  {
    var fn := ix.owner[id];
    var entries, writes := EntriesOf(ix, id), FromWrites(fn.writes, id);
    var flows := FlowSources(ix, open + {id}, id, hops, fn.flows);
    var calls := AllCallSources(ix, open + {id}, id, hops, fn.calls);
    FlowsMerge(ix, open + {id}, id, hops, fn.flows);
    CallsMerge(ix, open + {id}, id, hops, fn.calls);
    MergedOne(entries);
    MergedOne(writes);
    MergedParts([entries], flows);
    MergedParts([entries] + flows, calls);
    MergedParts([entries] + flows + calls, [writes]);
    MergedIsLast(Sources(ix, open, id, hops), name);
  }
}
