/** What one sink adds to a function, and what any run of sinks keeps of a program: one call
    per interpolation per bound value, with the values and flows that lead to it. */
module Sinks {
  import opened Ir
  import opened ViewGraph

  const ESCAPED := "<template>.escaped"
  const UNESCAPED := "<template>.unescaped"
  const URL_TARGET := "<template>.url-target"
  const URL_PART := "<template>.url-part"
  const SCRIPT := "<template>.script"
  const ENCODER_REMOVED := "encoder removed"
  const MARKER := "escaping removed here"

  // --- the ids it makes up -----------------------------------------------

  function Digit(d: nat): char
    requires d < 10
  {
    '0' + d as char
  }

  function Decimal(n: nat): string {
    if n < 10 then [Digit(n)] else Decimal(n / 10) + [Digit(n % 10)]
  }

  function Signed(n: int): string {
    if n < 0 then "-" + Decimal(-n) else Decimal(n)
  }

  function TplId(fn: Id, kind: char, n: nat): Id {
    Id(fn.name + "$tpl" + [kind] + Decimal(n))
  }

  predicate IsDigit(c: char) { '0' <= c <= '9' }

  lemma {:induction false} DecimalDigits(n: nat)
    ensures Decimal(n) != [] && forall c :: c in Decimal(n) ==> IsDigit(c)
  {
    if n >= 10 {
      DecimalDigits(n / 10);
    }
  }

  lemma {:induction false} DecimalInjective(m: nat, n: nat)
    requires Decimal(m) == Decimal(n)
    ensures m == n
  {
    DecimalDigits(m / 10);
    DecimalDigits(n / 10);
    var a, b := Decimal(m), Decimal(n);
    assert a[|a| - 1] == Digit(m % 10) && b[|b| - 1] == Digit(n % 10);
    if m >= 10 && n >= 10 {
      assert a[..|a| - 1] == Decimal(m / 10) && b[..|b| - 1] == Decimal(n / 10);
      DecimalInjective(m / 10, n / 10);
    }
  }

  /** What follows the last character that is no digit. */
  lemma {:induction false} DigitSuffix(a: string, k: char, x: string, b: string, l: char, y: string)
    requires a + [k] + x == b + [l] + y && !IsDigit(k) && !IsDigit(l)
    requires (forall c :: c in x ==> IsDigit(c)) && (forall c :: c in y ==> IsDigit(c))
    ensures x == y
    decreases |x|
  {
    var s, t := a + [k] + x, b + [l] + y;
    assert s[|s| - 1] == if x == [] then k else x[|x| - 1];
    assert t[|t| - 1] == if y == [] then l else y[|y| - 1];
    assert x != [] ==> x[|x| - 1] in x;
    assert y != [] ==> y[|y| - 1] in y;
    if x != [] && y != [] {
      var x', y' := x[..|x| - 1], y[..|y| - 1];
      assert s[..|s| - 1] == a + [k] + x' && t[..|t| - 1] == b + [l] + y';
      DigitSuffix(a, k, x', b, l, y');
      assert x == x' + [x[|x| - 1]] && y == y' + [y[|y| - 1]];
    }
  }

  /** Two made-up ids with different counters differ, whatever functions they are for. */
  lemma TplIdCounts(f: Id, k: char, m: nat, g: Id, l: char, n: nat)
    requires !IsDigit(k) && !IsDigit(l) && TplId(f, k, m) == TplId(g, l, n)
    ensures m == n
  {
    DecimalDigits(m);
    DecimalDigits(n);
    DigitSuffix(f.name + "$tpl", k, Decimal(m), g.name + "$tpl", l, Decimal(n));
    DecimalInjective(m, n);
  }

  // --- one sink ----------------------------------------------------------

  /** One interpolation that gained a value, and where the counter stood before it. */
  datatype Sink = Sink(fn: Id, read_: ViewRead, src: Id, rest: string, block: Id, at: nat) {
    predicate HasField() { rest != "" }

    predicate HasMarker() { read_.removedAt.RemovedAt? && !read_.escaped }

    function FieldEnd(): nat { at + if HasField() then 1 else 0 }

    function MarkerEnd(): nat { FieldEnd() + if HasMarker() then 1 else 0 }

    /** Where the counter stands after it. */
    function End(): nat { MarkerEnd() + 2 }

    function FieldId(): Id { TplId(fn, 'v', FieldEnd()) }

    function MarkerId(): Id { TplId(fn, 'v', MarkerEnd()) }

    function ResultId(): Id { TplId(fn, 'v', MarkerEnd() + 1) }

    function CallId(): Id { TplId(fn, 'c', MarkerEnd() + 2) }

    /** The value below the root, if the interpolation reads a field of it. */
    function Read(): Id { if HasField() then FieldId() else src }

    /** The value the sink's call carries. */
    function Argument(): Id { if HasMarker() then MarkerId() else Read() }
  }

  /** The channel an interpolation writes into. */
  function Symbol(r: ViewRead): string {
    if r.context == "url-target" then URL_TARGET
    else if r.context == "url-part" then URL_PART
    else if r.context == "script" then if r.escaped then ESCAPED else SCRIPT
    else if r.escaped then ESCAPED
    else UNESCAPED
  }

  function NewValues(s: Sink): seq<Value> {
    (if s.HasField() then [Value(s.FieldId(), "property", s.rest, s.read_.loc, s.src, s.rest, [])] else [])
    + (if s.HasMarker() then [Value(s.MarkerId(), "local", MARKER, s.read_.removedAt.at, NOTHING, "", [])] else [])
    + [Value(s.ResultId(), "call-result", Symbol(s.read_), s.read_.loc, NOTHING, "", [])]
  }

  function NewFlows(s: Sink): seq<Flow> {
    (if s.HasField() then [Flow(s.src, s.FieldId(), "property", s.read_.loc, s.block)] else [])
    + (if s.HasMarker() then [Flow(s.Read(), s.MarkerId(), ENCODER_REMOVED, s.read_.removedAt.at, s.block)] else [])
  }

  function NewCall(s: Sink): Call {
    Call(s.CallId(), s.read_.loc, Callee("external", "", Symbol(s.read_), NOTHING, []), "",
         [Arg(0, "", s.Argument())], NOTHING, s.ResultId(), s.block)
  }

  /** What is written twice under this is one sink. */
  function SinkKey(fn: Id, loc: Loc, src: Id): string {
    fn.name + ['\0'] + LocText(loc) + ['\0'] + src.name
  }

  function LocText(loc: Loc): string {
    loc.file + ":" + Signed(loc.line) + ":" + Signed(loc.column)
  }

  function KeyOf(s: Sink): string {
    SinkKey(s.fn, s.read_.loc, s.src)
  }

  // --- a run of them -----------------------------------------------------

  /** A function's dataflow at one moment. */
  datatype Body = Body(values: seq<Value>, flows: seq<Flow>, calls: seq<Call>)

  function Append(b: Body, s: Sink): Body {
    Body(b.values + NewValues(s), b.flows + NewFlows(s), b.calls + [NewCall(s)])
  }

  /** A function's dataflow after the sinks meant for it have been written. */
  function Written(b: Body, log: seq<Sink>, fn: Id): Body {
    if log == [] then b
    else
      var s := log[|log| - 1];
      var before := Written(b, log[..|log| - 1], fn);
      if s.fn == fn then Append(before, s) else before
  }

  lemma WrittenNext(b: Body, log: seq<Sink>, s: Sink, fn: Id)
    ensures Written(b, log + [s], fn) == if s.fn == fn then Append(Written(b, log, fn), s) else Written(b, log, fn)
  {
    assert (log + [s])[..|log|] == log;
  }

  /** Each sink starts counting where the one before it stopped. */
  ghost predicate Counted(log: seq<Sink>, n: nat) {
    if log == [] then n == 0
    else
      var s := log[|log| - 1];
      n == s.End() && Counted(log[..|log| - 1], s.at)
  }

  /** The program's functions, by id. */
  type Bodies = map<Id, Body>

  /** The program after a run. */
  ghost function Joined(p: Bodies, log: seq<Sink>): Bodies {
    map f | f in p :: Written(p[f], log, f)
  }

  ghost predicate WithSink(p: Bodies, s: Sink, q: Bodies) {
    q.Keys == p.Keys && forall f :: f in p ==> q[f] == if f == s.fn then Append(p[f], s) else p[f]
  }

  lemma JoinedNext(p: Bodies, log: seq<Sink>)
    requires log != []
    ensures WithSink(Joined(p, log[..|log| - 1]), log[|log| - 1], Joined(p, log))
  {
  }

  // --- what a sink is remembered by ---------------------------------------

  lemma SignedText(n: int)
    ensures Signed(n) != "" && ':' !in Signed(n) && '\0' !in Signed(n)
    ensures Signed(n)[0] == '-' <==> n < 0
  {
    DecimalDigits(if n < 0 then -n else n);
    assert n >= 0 ==> Signed(n)[0] in Decimal(n);
  }

  lemma SignedInjective(m: int, n: int)
    requires Signed(m) == Signed(n)
    ensures m == n
  {
    SignedText(m);
    SignedText(n);
    if m < 0 {
      assert Signed(m)[1..] == Decimal(-m) && Signed(n)[1..] == Decimal(-n);
      DecimalInjective(-m, -n);
    } else {
      DecimalInjective(m, n);
    }
  }

  /** Text after a character it does not hold can be read back. */
  lemma CutAtLast(a: string, b: string, c: char, x: string, y: string)
    requires c !in x && c !in y && a + [c] + x == b + [c] + y
    ensures a == b && x == y
  {
    var s, t := a + [c] + x, b + [c] + y;
    assert forall k :: |a| < k < |s| ==> s[k] == x[k - |a| - 1] && x[k - |a| - 1] in x;
    assert forall k :: |b| < k < |t| ==> t[k] == y[k - |b| - 1] && y[k - |b| - 1] in y;
    assert s[|a|] == c && t[|b|] == c;
    assert |a| == |b|;
    assert s[..|a|] == a && t[..|b|] == b && s[|a| + 1..] == x && t[|b| + 1..] == y;
  }

  lemma LocTextInjective(a: Loc, b: Loc)
    requires LocText(a) == LocText(b)
    ensures a == b
  {
    SignedText(a.line);
    SignedText(a.column);
    SignedText(b.line);
    SignedText(b.column);
    CutAtLast(a.file + ":" + Signed(a.line), b.file + ":" + Signed(b.line), ':', Signed(a.column), Signed(b.column));
    CutAtLast(a.file, b.file, ':', Signed(a.line), Signed(b.line));
    SignedInjective(a.line, b.line);
    SignedInjective(a.column, b.column);
  }

  /** No NUL in the function's id or the file's name. */
  predicate PlainPlace(fn: Id, loc: Loc) {
    '\0' !in fn.name && '\0' !in loc.file
  }

  lemma LocTextPlain(loc: Loc)
    requires '\0' !in loc.file
    ensures '\0' !in LocText(loc)
  {
    SignedText(loc.line);
    SignedText(loc.column);
  }

  lemma CutAtFirst(a: string, b: string, c: char, x: string, y: string)
    requires c !in a && c !in b && a + [c] + x == b + [c] + y
    ensures a == b && x == y
  {
    var s, t := a + [c] + x, b + [c] + y;
    assert forall k :: 0 <= k < |a| ==> s[k] == a[k] && a[k] in a;
    assert forall k :: 0 <= k < |b| ==> t[k] == b[k] && b[k] in b;
    assert s[|a|] == c && t[|b|] == c;
    assert |a| == |b|;
    assert s[..|a|] == a && t[..|b|] == b && s[|a| + 1..] == x && t[|b| + 1..] == y;
  }

  lemma KeyParts(f: Id, a: Loc, x: Id)
    ensures SinkKey(f, a, x) == f.name + ['\0'] + (LocText(a) + ['\0'] + x.name)
  {
  }

  /** Without NUL in function ids and file names, what a sink is remembered by names one
      function, one place and one value. */
  lemma SinkKeyInjective(f: Id, a: Loc, x: Id, g: Id, b: Loc, y: Id)
    requires PlainPlace(f, a) && PlainPlace(g, b) && SinkKey(f, a, x) == SinkKey(g, b, y)
    ensures f == g && a == b && x == y
  {
    LocTextPlain(a);
    LocTextPlain(b);
    KeyParts(f, a, x);
    KeyParts(g, b, y);
    CutAtFirst(f.name, g.name, '\0', LocText(a) + ['\0'] + x.name, LocText(b) + ['\0'] + y.name);
    CutAtFirst(LocText(a), LocText(b), '\0', x.name, y.name);
    LocTextInjective(a, b);
  }

  // --- no id is made up twice ---------------------------------------------

  /** Made for some function, of some kind, with this counter. */
  ghost predicate CountsAs(id: Id, n: nat) {
    exists f, k :: !IsDigit(k) && id == TplId(f, k, n)
  }

  /** Two made-up ids with one counter are counted alike. */
  lemma CountsOnce(id: Id, m: nat, n: nat)
    requires CountsAs(id, m) && CountsAs(id, n)
    ensures m == n
  {
    var f, k :| !IsDigit(k) && id == TplId(f, k, m);
    var g, l :| !IsDigit(l) && id == TplId(g, l, n);
    TplIdCounts(f, k, m, g, l, n);
  }

  /** A sink's values and then its call are counted on from where it started. */
  lemma SinkCounts(s: Sink)
    ensures s.End() == s.at + |NewValues(s)| + 1
    ensures forall k :: 0 <= k < |NewValues(s)| ==> CountsAs(NewValues(s)[k].id, s.at + k + 1)
    ensures CountsAs(NewCall(s).id, s.End())
  {
    assert CountsAs(s.ResultId(), s.MarkerEnd() + 1) && CountsAs(s.CallId(), s.MarkerEnd() + 2);
    assert s.HasField() ==> CountsAs(s.FieldId(), s.at + 1);
    assert s.HasMarker() ==> CountsAs(s.MarkerId(), s.FieldEnd() + 1);
  }

  /** No two values share an id. */
  ghost predicate UniqueValues(p: Bodies) {
    forall f, g, i, j ::
      (f in p && g in p && 0 <= i < |p[f].values| && 0 <= j < |p[g].values|
       && p[f].values[i].id == p[g].values[j].id) ==> f == g && i == j
  }

  /** No two calls share an id. */
  ghost predicate UniqueCalls(p: Bodies) {
    forall f, g, i, j ::
      (f in p && g in p && 0 <= i < |p[f].calls| && 0 <= j < |p[g].calls|
       && p[f].calls[i].id == p[g].calls[j].id) ==> f == g && i == j
  }

  ghost predicate CountedBelow(id: Id, n: nat) {
    forall m: nat :: CountsAs(id, m) ==> m <= n
  }

  /** No id in the program is counted past n. */
  ghost predicate Below(p: Bodies, n: nat) {
    && (forall f, i :: f in p && 0 <= i < |p[f].values| ==> CountedBelow(p[f].values[i].id, n))
    && (forall f, i :: f in p && 0 <= i < |p[f].calls| ==> CountedBelow(p[f].calls[i].id, n))
  }

  lemma CountsBelow(id: Id, m: nat, n: nat)
    requires CountsAs(id, m) && m <= n
    ensures CountedBelow(id, n)
  {
    forall k: nat | CountsAs(id, k) ensures k <= n {
      CountsOnce(id, k, m);
    }
  }

  /** One value of the program with a sink written: an old one, or one counted past it. */
  lemma ValueWithSink(p: Bodies, s: Sink, q: Bodies, f: Id, i: nat)
    requires WithSink(p, s, q) && Below(p, s.at) && f in q && i < |q[f].values|
    ensures if i < |p[f].values| then q[f].values[i] == p[f].values[i] && CountedBelow(q[f].values[i].id, s.at)
            else f == s.fn && i - |p[f].values| < |NewValues(s)| && CountsAs(q[f].values[i].id, s.at + (i - |p[f].values|) + 1)
  {
    SinkCounts(s);
  }

  lemma CallWithSink(p: Bodies, s: Sink, q: Bodies, f: Id, i: nat)
    requires WithSink(p, s, q) && Below(p, s.at) && f in q && i < |q[f].calls|
    ensures if i < |p[f].calls| then q[f].calls[i] == p[f].calls[i] && CountedBelow(q[f].calls[i].id, s.at)
            else f == s.fn && i == |p[f].calls| && CountsAs(q[f].calls[i].id, s.End())
  {
    SinkCounts(s);
  }

  lemma ValuesStayUnique(p: Bodies, s: Sink, q: Bodies)
    requires WithSink(p, s, q) && Below(p, s.at) && UniqueValues(p)
    ensures UniqueValues(q)
  {
    forall f, g, i, j | f in q && g in q && 0 <= i < |q[f].values| && 0 <= j < |q[g].values|
      && q[f].values[i].id == q[g].values[j].id
      ensures f == g && i == j
    {
      ValueWithSink(p, s, q, f, i);
      ValueWithSink(p, s, q, g, j);
      var id := q[f].values[i].id;
      if i >= |p[f].values| && j >= |p[g].values| {
        CountsOnce(id, s.at + (i - |p[f].values|) + 1, s.at + (j - |p[g].values|) + 1);
      }
    }
  }

  lemma CallsStayUnique(p: Bodies, s: Sink, q: Bodies)
    requires WithSink(p, s, q) && Below(p, s.at) && UniqueCalls(p)
    ensures UniqueCalls(q)
  {
    SinkCounts(s);
    forall f, g, i, j | f in q && g in q && 0 <= i < |q[f].calls| && 0 <= j < |q[g].calls|
      && q[f].calls[i].id == q[g].calls[j].id
      ensures f == g && i == j
    {
      CallWithSink(p, s, q, f, i);
      CallWithSink(p, s, q, g, j);
    }
  }

  lemma StaysBelow(p: Bodies, s: Sink, q: Bodies)
    requires WithSink(p, s, q) && Below(p, s.at)
    ensures Below(q, s.End())
  {
    SinkCounts(s);
    forall f, i | f in q && 0 <= i < |q[f].values| ensures CountedBelow(q[f].values[i].id, s.End()) {
      ValueWithSink(p, s, q, f, i);
      if i >= |p[f].values| {
        CountsBelow(q[f].values[i].id, s.at + (i - |p[f].values|) + 1, s.End());
      }
    }
    forall f, i | f in q && 0 <= i < |q[f].calls| ensures CountedBelow(q[f].calls[i].id, s.End()) {
      CallWithSink(p, s, q, f, i);
      if i >= |p[f].calls| {
        CountsBelow(q[f].calls[i].id, s.End(), s.End());
      }
    }
  }

  /** A run makes up no id twice, and none the program had: ids stay unique. */
  lemma {:induction false} RunKeepsUnique(p: Bodies, log: seq<Sink>, n: nat)
    requires UniqueValues(p) && UniqueCalls(p) && Below(p, 0) && Counted(log, n)
    ensures UniqueValues(Joined(p, log)) && UniqueCalls(Joined(p, log)) && Below(Joined(p, log), n)
    decreases |log|
  {
    if log == [] {
      assert Joined(p, log) == p;
    } else {
      var before, s := log[..|log| - 1], log[|log| - 1];
      RunKeepsUnique(p, before, s.at);
      JoinedNext(p, log);
      ValuesStayUnique(Joined(p, before), s, Joined(p, log));
      CallsStayUnique(Joined(p, before), s, Joined(p, log));
      StaysBelow(Joined(p, before), s, Joined(p, log));
    }
  }

  // --- every reference names a value --------------------------------------

  /** The ids of every value in the program. */
  ghost function ValueIds(p: Bodies): set<Id> {
    set f, v | f in p && v in p[f].values :: v.id
  }

  /** Every flow names values the program has, and so does every argument and every result
      that names one: an argument may name a function instead. */
  ghost predicate Grounded(p: Bodies) {
    forall f :: f in p ==> BodyGrounded(p[f], ValueIds(p))
  }

  ghost predicate BodyGrounded(b: Body, ids: set<Id>) {
    && (forall e :: e in b.flows ==> e.from in ids && e.to in ids)
    && (forall c, a :: c in b.calls && a in c.args ==> a.valueId == NOTHING || a.valueId in ids)
    && (forall c :: c in b.calls ==> c.resultId == NOTHING || c.resultId in ids)
  }

  /** Every flow a sink adds, and the call's argument and result, name the value the render
      bound or a value the sink adds. */
  lemma NewFlowsGrounded(s: Sink)
    ensures var ids := set v | v in NewValues(s) :: v.id;
            && (forall f :: f in NewFlows(s) ==> (f.from == s.src || f.from in ids) && f.to in ids)
            && (s.Argument() == s.src || s.Argument() in ids) && s.ResultId() in ids
  {
    var vs := NewValues(s);
    assert vs[|vs| - 1].id == s.ResultId();
    if s.HasField() { assert vs[0].id == s.FieldId(); }
    if s.HasMarker() { assert vs[|vs| - 2].id == s.MarkerId(); }
  }

  lemma AppendGrounded(p: Bodies, s: Sink, q: Bodies)
    requires Grounded(p) && s.fn in p && s.src in ValueIds(p) && WithSink(p, s, q)
    ensures Grounded(q) && ValueIds(p) <= ValueIds(q)
  {
    NewFlowsGrounded(s);
    var ids := ValueIds(q);
    forall f, v | f in p && v in p[f].values ensures v.id in ids {
      assert v in q[f].values;
    }
    forall v | v in NewValues(s) ensures v.id in ids {
      assert v in q[s.fn].values;
    }
    forall f | f in q ensures BodyGrounded(q[f], ids) {
      assert BodyGrounded(p[f], ValueIds(p));
    }
  }

  /** If every value a sink carries exists to begin with, the run leaves no flow, argument
      or result naming a value that does not exist. */
  lemma {:induction false} RunKeepsGrounded(p: Bodies, log: seq<Sink>)
    requires Grounded(p)
    requires forall s :: s in log ==> s.fn in p && s.src in ValueIds(p)
    ensures Grounded(Joined(p, log)) && ValueIds(p) <= ValueIds(Joined(p, log))
    decreases |log|
  {
    if log == [] {
      assert Joined(p, log) == p;
    } else {
      var before, s := log[..|log| - 1], log[|log| - 1];
      RunKeepsGrounded(p, before);
      JoinedNext(p, log);
      AppendGrounded(Joined(p, before), s, Joined(p, log));
    }
  }

  // --- nothing is lost and each sink is there -----------------------------

  /** How many calls the program makes. */
  ghost function CallCount(p: Bodies): nat {
    if p == map[] then 0
    else
      var f :| f in p;
      |p[f].calls| + CallCount(p - {f})
  }

  lemma {:induction false} CallCountPick(p: Bodies, f: Id)
    requires f in p
    ensures CallCount(p) == |p[f].calls| + CallCount(p - {f})
    decreases |p|
  {
    var g :| g in p && CallCount(p) == |p[g].calls| + CallCount(p - {g});
    if f != g {
      CallCountPick(p - {g}, f);
      CallCountPick(p - {f}, g);
      assert p - {f} - {g} == p - {g} - {f};
    }
  }

  lemma {:induction false} RunAddsCalls(p: Bodies, log: seq<Sink>)
    requires forall s :: s in log ==> s.fn in p
    ensures CallCount(Joined(p, log)) == CallCount(p) + |log|
    decreases |log|
  {
    if log == [] {
      assert Joined(p, log) == p;
    } else {
      var before, s := log[..|log| - 1], log[|log| - 1];
      RunAddsCalls(p, before);
      JoinedNext(p, log);
      var q, r := Joined(p, before), Joined(p, log);
      CallCountPick(q, s.fn);
      CallCountPick(r, s.fn);
      assert q - {s.fn} == r - {s.fn};
    }
  }

  /** The flows lead from one value to the other. */
  ghost predicate FlowsTo(flows: seq<Flow>, from: Id, to: Id) {
    exists hops: seq<Id> :: FlowChain(flows, hops) && hops[0] == from && hops[|hops| - 1] == to
  }

  ghost predicate FlowChain(flows: seq<Flow>, hops: seq<Id>) {
    hops != []
    && forall i, j {:trigger hops[i], hops[j]} :: 0 <= i && j == i + 1 < |hops| ==> FlowHop(flows, hops[i], hops[j])
  }

  predicate FlowHop(flows: seq<Flow>, from: Id, to: Id) {
    exists f :: f in flows && f.from == from && f.to == to
  }

  /** The function has the sink's values and flows, and makes its call, on a value those
      flows alone lead to from the bound one. */
  ghost predicate Carries(b: Body, s: Sink) {
    && (forall v :: v in NewValues(s) ==> v in b.values)
    && (forall f :: f in NewFlows(s) ==> f in b.flows)
    && exists c :: c in b.calls && c == NewCall(s) && |c.args| == 1 && FlowsTo(NewFlows(s), s.src, c.args[0].valueId)
  }

  lemma {:induction false} NothingLost(b: Body, log: seq<Sink>, fn: Id)
    ensures b.values <= Written(b, log, fn).values
    ensures b.flows <= Written(b, log, fn).flows
    ensures b.calls <= Written(b, log, fn).calls
  {
    if log != [] {
      NothingLost(b, log[..|log| - 1], fn);
    }
  }

  /** The flows a sink adds lead from the bound value to the call's argument. */
  lemma SinkReached(s: Sink) returns (hops: seq<Id>)
    ensures hops != [] && hops[0] == s.src && hops[|hops| - 1] == s.Argument()
    ensures |NewFlows(s)| == |hops| - 1
    ensures forall k :: 0 <= k < |hops| - 1 ==>
              NewFlows(s)[k].from == hops[k] && NewFlows(s)[k].to == hops[k + 1]
  {
    hops := [s.src] + (if s.HasField() then [s.FieldId()] else [])
                    + (if s.HasMarker() then [s.MarkerId()] else []);
  }

  lemma ChainOfFlows(flows: seq<Flow>, hops: seq<Id>)
    requires |flows| == |hops| - 1
    requires forall k :: 0 <= k < |hops| - 1 ==> flows[k].from == hops[k] && flows[k].to == hops[k + 1]
    ensures FlowChain(flows, hops)
  {
    forall i, j {:trigger hops[i], hops[j]} | 0 <= i && j == i + 1 < |hops| ensures FlowHop(flows, hops[i], hops[j]) {
      assert flows[i] in flows;
    }
  }

  lemma AppendCarries(b: Body, s: Sink)
    ensures Carries(Append(b, s), s)
  {
    var after, c := Append(b, s), NewCall(s);
    var hops := SinkReached(s);
    ChainOfFlows(NewFlows(s), hops);
    assert after.calls[|b.calls|] == c;
    assert FlowsTo(NewFlows(s), s.src, c.args[0].valueId);
  }

  lemma CarriesMore(b: Body, after: Body, s: Sink)
    requires Carries(b, s) && b.values <= after.values && b.flows <= after.flows && b.calls <= after.calls
    ensures Carries(after, s)
  {
    assert NewCall(s) in after.calls;
  }

  /** Every sink of a run is in its function afterwards, whole. */
  lemma {:induction false} RunCarries(b: Body, log: seq<Sink>, fn: Id, s: Sink)
    requires s in log && s.fn == fn
    ensures Carries(Written(b, log, fn), s)
    decreases |log|
  {
    var before, last := log[..|log| - 1], log[|log| - 1];
    if s == last {
      AppendCarries(Written(b, before, fn), s);
    } else {
      assert s in before;
      RunCarries(b, before, fn, s);
      if last.fn == fn {
        CarriesMore(Written(b, before, fn), Append(Written(b, before, fn), last), s);
      }
    }
  }

  // --- the channel it is written into --------------------------------------

  /** Which channel an interpolation is written into, by name: a whole link or part of one by
      its context alone, whether or not it is escaped; every other one by whether it is, and
      the unescaped inside a script apart. A context that is none of these is markup. */
  lemma SymbolByContext(r: ViewRead)
    ensures Symbol(r) == "<template>.url-target" <==> r.context == "url-target"
    ensures Symbol(r) == "<template>.url-part" <==> r.context == "url-part"
    ensures Symbol(r) == "<template>.script" <==> r.context == "script" && !r.escaped
    ensures Symbol(r) == "<template>.escaped" <==> r.escaped && r.context != "url-target" && r.context != "url-part"
    ensures Symbol(r) == "<template>.unescaped" <==>
              !r.escaped && r.context != "url-target" && r.context != "url-part" && r.context != "script"
  {
  }

  /** The function calls the channel at the interpolation's place, in the render's block, with
      one value that the sink's flows lead to, and has the value the call results in. */
  ghost predicate CallsChannel(b: Body, s: Sink, channel: string) {
    exists c, v ::
      && c in b.calls && c.loc == s.read_.loc && c.block == s.block
      && c.callee.kind == "external" && c.callee.symbol == channel && c.callee.functionId.name == ""
      && |c.args| == 1 && c.args[0].index == 0 && c.args[0].name == "" && FlowsTo(NewFlows(s), s.src, c.args[0].valueId)
      && v in b.values && v.id == c.resultId && v.kind == "call-result" && v.name == channel
  }

  lemma CarriedCallsChannel(b: Body, s: Sink)
    requires Carries(b, s)
    ensures CallsChannel(b, s, Symbol(s.read_))
  {
    var v := NewValues(s)[|NewValues(s)| - 1];
    assert v in NewValues(s) && NewCall(s) in b.calls;
  }

  /** The function calls the channel the context and the escaping of the sink name. */
  ghost predicate InItsChannel(b: Body, s: Sink) {
    var context, escaped := s.read_.context, s.read_.escaped;
    && (context == "url-target" ==> CallsChannel(b, s, "<template>.url-target"))
    && (context == "url-part" ==> CallsChannel(b, s, "<template>.url-part"))
    && (context == "script" && !escaped ==> CallsChannel(b, s, "<template>.script"))
    && (context !in {"url-target", "url-part"} && escaped ==> CallsChannel(b, s, "<template>.escaped"))
    && (context !in {"url-target", "url-part", "script"} && !escaped ==> CallsChannel(b, s, "<template>.unescaped"))
  }

  /** After any run every sink is in its channel. */
  lemma RunInChannels(b: Body, log: seq<Sink>, fn: Id, s: Sink)
    requires s in log && s.fn == fn
    ensures InItsChannel(Written(b, log, fn), s)
  {
    RunCarries(b, log, fn, s);
    CarriedCallsChannel(Written(b, log, fn), s);
    SymbolByContext(s.read_);
  }

  /** One value is made of another by a flow of this kind at this place. */
  ghost predicate Makes(b: Body, from: Id, v: Value, kind: string, at: Loc, block: Id) {
    v in b.values && v.loc == at && exists f :: f in b.flows && f.from == from && f.to == v.id && f.kind == kind && f.loc == at && f.block == block
  }

  /** A field below the bound value is a property of it, read where the interpolation is. */
  ghost predicate ReadsField(b: Body, s: Sink, v: Value) {
    Makes(b, s.src, v, "property", s.read_.loc, s.block) && v.kind == "property" && v.base == s.src && v.path == s.rest && v.name == s.rest
  }

  /** Words that took the escaping off are a value of their own, made where they stand. */
  ghost predicate MarksRemoval(b: Body, s: Sink, from: Id, v: Value) {
    s.read_.removedAt.RemovedAt? && Makes(b, from, v, "encoder removed", s.read_.removedAt.at, s.block)
    && v.kind == "local" && v.name == "escaping removed here"
  }

  /** What the call of a sink carries: the bound value, or the field read of it where a path
      is left below the root; and past that the marker, exactly where somebody took off the
      escaping of an interpolation that is not escaped. */
  lemma SinkCarriesWhat(b: Body, s: Sink) returns (read_: Id, argument: Id)
    requires Carries(b, s)
    ensures NewCall(s) in b.calls && NewCall(s).args[0].valueId == argument
    ensures if s.rest == "" then read_ == s.src else exists v :: ReadsField(b, s, v) && v.id == read_
    ensures if s.read_.removedAt.RemovedAt? && !s.read_.escaped
            then exists v :: MarksRemoval(b, s, read_, v) && v.id == argument else argument == read_
  {
    read_, argument := s.Read(), s.Argument();
    var vs, fs := NewValues(s), NewFlows(s);
    if s.rest != "" {
      assert vs[0] in vs && fs[0] in fs;
      assert ReadsField(b, s, vs[0]);
    }
    if s.read_.removedAt.RemovedAt? && !s.read_.escaped {
      var v, f := vs[|vs| - 2], fs[|fs| - 1];
      assert v in vs && f in fs;
      assert MarksRemoval(b, s, read_, v);
    }
  }

  /** How a made-up id is written. */
  lemma TplIdWritten()
    ensures TplId(Id("app.page"), 'v', 10) == Id("app.page$tplv10") && TplId(Id("f"), 'c', 207) == Id("f$tplc207")
  {
    assert Decimal(10) == "10";
    assert Decimal(20) == "20" && Decimal(207) == "207";
  }

  // --- the program stays well formed --------------------------------------

  ghost predicate WellFormed(p: Bodies) {
    Grounded(p) && UniqueValues(p) && UniqueCalls(p)
  }

  /** Everything the sink refers to is a value of the program. */
  ghost predicate Named(p: Bodies, s: Sink) {
    var ids := ValueIds(p);
    && s.src in ids && s.Argument() in ids && s.ResultId() in ids
    && forall f :: f in NewFlows(s) ==> f.from in ids && f.to in ids
  }

  lemma CarriedIsNamed(p: Bodies, s: Sink)
    requires s.fn in p && Carries(p[s.fn], s) && s.src in ValueIds(p)
    ensures Named(p, s)
  {
    NewFlowsGrounded(s);
    var ids := set v | v in NewValues(s) :: v.id;
    forall id | id in ids ensures id in ValueIds(p) {
      var v :| v in NewValues(s) && v.id == id;
      assert v in p[s.fn].values;
    }
  }

  /** What a run leaves: a well-formed program with everything it had, one more call for
      each sink, and each sink whole, referring only to values there are. */
  ghost predicate SoundRun(p: Bodies, log: seq<Sink>, q: Bodies) {
    && WellFormed(q)
    && q.Keys == p.Keys
    && (forall f :: f in p ==> p[f].values <= q[f].values && p[f].flows <= q[f].flows && p[f].calls <= q[f].calls)
    && CallCount(q) == CallCount(p) + |log|
    && (forall s :: s in log ==> s.fn in q && Carries(q[s.fn], s) && Named(q, s))
  }

  /** No value a sound run adds has the id of one the program had. */
  lemma NewIdsFresh(p: Bodies, log: seq<Sink>, q: Bodies, f: Id, i: nat)
    requires SoundRun(p, log, q) && f in p && |p[f].values| <= i < |q[f].values|
    ensures q[f].values[i].id !in ValueIds(p)
  {
    forall g, v | g in p && v in p[g].values ensures v.id != q[f].values[i].id {
      var j :| 0 <= j < |p[g].values| && p[g].values[j] == v;
      assert q[g].values[j] == v;
    }
  }

  /** A well-formed program with no made-up ids stays well formed over any run whose sinks
      carry values it has. */
  lemma RunIsSound(p: Bodies, log: seq<Sink>, n: nat)
    requires WellFormed(p) && Below(p, 0) && Counted(log, n)
    requires forall s :: s in log ==> s.fn in p && s.src in ValueIds(p)
    ensures SoundRun(p, log, Joined(p, log))
  {
    RunKeepsGrounded(p, log);
    RunKeepsUnique(p, log, n);
    RunAddsCalls(p, log);
    forall f | f in p
      ensures p[f].values <= Joined(p, log)[f].values && p[f].flows <= Joined(p, log)[f].flows && p[f].calls <= Joined(p, log)[f].calls
    {
      NothingLost(p[f], log, f);
    }
    forall s | s in log ensures Carries(Joined(p, log)[s.fn], s) && Named(Joined(p, log), s) {
      RunCarries(p[s.fn], log, s.fn, s);
      CarriedIsNamed(Joined(p, log), s);
    }
  }
}
