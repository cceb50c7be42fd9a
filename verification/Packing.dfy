/** Cutting the findings to be adjudicated into slices small enough to read: first pairing
    likely duplicates, then packing the pairs greedily. */
module Packing {
  import opened Tally

  datatype File = File(path: string)

  /** The weakness class a finding names. */
  datatype Weakness = Weakness(cwe: string)

  /** What a record without a location names as its file. */
  const NO_FILE := File("")

  /** A finding from either reader. */
  datatype Record = Record(primary: File, line: int, cwe: Weakness, files: set<File>)

  type Unit = seq<Record>

  /** How large a slice may be: how many records, and how many bytes of source. */
  datatype Limits = Limits(sizes: map<File, nat>, maxFindings: int, maxBytes: int)

  // --- sizes -------------------------------------------------------------

  /** A file that cannot be read weighs nothing. */
  function SizeOf(sizes: map<File, nat>, f: File): nat {
    if f in sizes then sizes[f] else 0
  }

  ghost function Bytes(sizes: map<File, nat>, files: set<File>): nat {
    if files == {} then 0
    else
      var f :| f in files;
      SizeOf(sizes, f) + Bytes(sizes, files - {f})
  }

  /** The total does not depend on which file is counted first. */
  lemma {:induction false} BytesPick(sizes: map<File, nat>, files: set<File>, f: File)
    requires f in files
    ensures Bytes(sizes, files) == SizeOf(sizes, f) + Bytes(sizes, files - {f})
    decreases files
  {
    var g :| g in files && Bytes(sizes, files) == SizeOf(sizes, g) + Bytes(sizes, files - {g});
    if f != g {
      BytesPick(sizes, files - {g}, f);
      BytesPick(sizes, files - {f}, g);
      assert files - {g} - {f} == files - {f} - {g};
    }
  }

  lemma {:induction false} BytesMonotone(sizes: map<File, nat>, small: set<File>, large: set<File>)
    requires small <= large
    ensures Bytes(sizes, small) <= Bytes(sizes, large)
    decreases small
  {
    if small != {} {
      var f :| f in small;
      BytesPick(sizes, small, f);
      BytesPick(sizes, large, f);
      BytesMonotone(sizes, small - {f}, large - {f});
    }
  }

  /** Adds up the sizes of the files, in no particular order. */
  method BytesFor(sizes: map<File, nat>, files: set<File>) returns (total: nat)
    ensures total == Bytes(sizes, files)
  {
    total := 0;
    var rest := files;
    while rest != {}
      invariant rest <= files && total + Bytes(sizes, rest) == Bytes(sizes, files)
    {
      var f :| f in rest;
      BytesPick(sizes, rest, f);
      total := total + SizeOf(sizes, f);
      rest := rest - {f};
    }
  }

  /** What a set of files weighs: one file what it is known to, one that is not nothing, and
      two sets apart as much as both. */
  lemma {:induction false} BytesAdd(sizes: map<File, nat>, a: set<File>, b: set<File>)
    requires a !! b
    ensures Bytes(sizes, a + b) == Bytes(sizes, a) + Bytes(sizes, b)
    decreases a
  {
    if a == {} {
      assert a + b == b;
    } else {
      var f :| f in a;
      BytesPick(sizes, a, f);
      BytesPick(sizes, a + b, f);
      BytesAdd(sizes, a - {f}, b);
      assert a + b - {f} == (a - {f}) + b;
    }
  }

  lemma BytesOfOne(sizes: map<File, nat>, f: File)
    ensures f in sizes ==> Bytes(sizes, {f}) == sizes[f]
    ensures f !in sizes ==> Bytes(sizes, {f}) == 0
  {
    BytesPick(sizes, {f}, f);
    assert {f} - {f} == {};
  }

  // --- pairing -----------------------------------------------------------

  predicate SameFile(r: Record, e: Record) {
    r.primary != NO_FILE && r.primary == e.primary
  }

  function Distance(r: Record, e: Record): nat {
    if r.line < e.line then e.line - r.line else r.line - e.line
  }

  /** The two records could be the same finding. */
  predicate Plausible(r: Record, e: Record) {
    && (SameFile(r, e) || r.files * e.files != {})
    && (r.cwe == e.cwe || (SameFile(r, e) && Distance(r, e) <= 5))
  }

  /** How good a pairing is: the same file first, then the same class, then the distance,
      then the place in the list. Smaller is better. */
  datatype Rank = Rank(otherFile: bool, otherClass: bool, distance: nat, index: nat)

  function RankOf(r: Record, e: Record, index: nat): Rank {
    Rank(!SameFile(r, e), r.cwe != e.cwe, Distance(r, e), index)
  }

  predicate Better(a: Rank, b: Rank) {
    if a.otherFile != b.otherFile then b.otherFile
    else if a.otherClass != b.otherClass then b.otherClass
    else if a.distance != b.distance then a.distance < b.distance
    else a.index < b.index
  }

  /** Whether two records may be one finding: in one file, they name one class or are at most
      five lines apart; otherwise they share some file and name one class. */
  lemma PlausibleExactly(r: Record, e: Record)
    ensures Plausible(r, e) <==>
            if r.primary.path != "" && r.primary == e.primary
            then r.cwe == e.cwe || -5 <= r.line - e.line <= 5
            else r.cwe == e.cwe && exists f :: f in r.files && f in e.files
  {
    assert r.primary == File(r.primary.path);
    if f :| f in r.files && f in e.files { assert f in r.files * e.files; }
    if r.files * e.files != {} {
      var f :| f in r.files * e.files;
    }
  }

  datatype Choice = Paired(index: nat) | Alone

  predicate InOneFile(r: Record, e: Record) {
    r.primary.path != "" && r.primary == e.primary
  }

  /** How many lines apart. */
  function Apart(r: Record, e: Record): nat {
    if r.line >= e.line then r.line - e.line else e.line - r.line
  }

  /** The one engine record is the better match: in the review record's file where the other
      is not; or alike in that, of its class where the other is not; or alike in both, nearer;
      or just as near, and earlier in the list. */
  predicate Preferred(r: Record, a: Record, i: nat, b: Record, j: nat) {
    || (InOneFile(r, a) && !InOneFile(r, b))
    || (InOneFile(r, a) == InOneFile(r, b)
        && ((r.cwe == a.cwe && r.cwe != b.cwe)
            || ((r.cwe == a.cwe <==> r.cwe == b.cwe)
                && (Apart(r, a) < Apart(r, b) || (Apart(r, a) == Apart(r, b) && i < j)))))
  }

  /** The chosen record is preferred to every other plausible one that was available, and
      none is chosen only where none was plausible. */
  lemma ChosenIsPreferred(engine: seq<Record>, available: set<nat>, r: Record, c: Choice)
    requires BestChoice(engine, available, r, c)
    ensures c.Paired? ==> c.index in available && c.index < |engine| && Plausible(r, engine[c.index])
    ensures forall i :: i in available && i < |engine| && Plausible(r, engine[i]) && c != Paired(i) ==>
              c.Paired? && Preferred(r, engine[c.index], c.index, engine[i], i)
  {
    assert forall e: Record :: InOneFile(r, e) <==> SameFile(r, e) by {
      assert r.primary == File(r.primary.path);
    }
    forall i | i in available && i < |engine| && Plausible(r, engine[i]) && c != Paired(i)
      ensures c.Paired? && Preferred(r, engine[c.index], c.index, engine[i], i)
    {
      assert Better(RankOf(r, engine[c.index], c.index), RankOf(r, engine[i], i));
    }
  }

  /** The choice is the best plausible engine record still available, if there is one. */
  ghost predicate BestChoice(engine: seq<Record>, available: set<nat>, r: Record, c: Choice) {
    match c
    case Alone => forall i :: i in available && i < |engine| ==> !Plausible(r, engine[i])
    case Paired(index) =>
      && index in available && index < |engine| && Plausible(r, engine[index])
      && forall i :: i in available && i < |engine| && Plausible(r, engine[i]) && i != index ==>
           Better(RankOf(r, engine[index], index), RankOf(r, engine[i], i))
  }

  /** Looks through the available engine records, in no particular order. */
  method Choose(engine: seq<Record>, available: set<nat>, r: Record) returns (c: Choice)
    requires forall i :: i in available ==> i < |engine|
    ensures BestChoice(engine, available, r, c)
  {
    c := Alone;
    var rest := available;
    while rest != {}
      invariant rest <= available
      invariant BestChoice(engine, available - rest, r, c)
    {
      var i :| i in rest;
      assert available - (rest - {i}) == (available - rest) + {i};
      rest := rest - {i};
      if !Plausible(r, engine[i]) {
        continue;
      }
      if c == Alone || Better(RankOf(r, engine[i], i), RankOf(r, engine[c.index], c.index)) {
        c := Paired(i);
      }
    }
    assert available - rest == available;
  }

  function Taken(choices: seq<Choice>): set<nat> {
    set c | c in choices && c.Paired? :: c.index
  }

  /** Each review record takes, in turn, the best of the engine records no earlier one
      took. */
  ghost predicate ChosenInTurn(engine: seq<Record>, review: seq<Record>, choices: seq<Choice>) {
    && |choices| == |review|
    && forall k :: 0 <= k < |choices| ==>
         BestChoice(engine, Positions(|engine|) - Taken(choices[..k]), review[k], choices[k])
  }

  function UnitFor(engine: seq<Record>, r: Record, c: Choice): Unit
    requires c.Paired? ==> c.index < |engine|
  {
    match c
    case Paired(index) => [engine[index], r]
    case Alone => [r]
  }

  /** Pairs each review record with the likeliest engine record still unpaired; what is
      left of the engine's follows, in order. */
  method PairRecords(engine: seq<Record>, review: seq<Record>) returns (units: seq<Unit>, ghost choices: seq<Choice>)
    ensures ChosenInTurn(engine, review, choices)
    ensures |units| >= |review| && UnitsFollow(engine, review, units[..|review|], choices)
    ensures units[|review|..] == Leftovers(engine, Positions(|engine|) - Taken(choices), |engine|)
    ensures forall u :: u in units ==> 1 <= |u| <= 2
    ensures multiset(Flatten(units)) == multiset(engine) + multiset(review)
  {
    var paired, available;
    paired, available, choices := PairEach(engine, review);
    units := AppendLeft(engine, available, paired);
    PairedEnd(engine, review, paired, choices, Leftovers(engine, available, |engine|));
  }

  /** Appends what is left of the engine's records, each on its own. */
  method AppendLeft(engine: seq<Record>, available: set<nat>, paired: seq<Unit>) returns (units: seq<Unit>)
    ensures units == paired + Leftovers(engine, available, |engine|)
    ensures units[..|paired|] == paired
  {
    units := paired;
    for j := 0 to |engine|
      invariant units == paired + Leftovers(engine, available, j)
    {
      if j in available {
        units := units + [[engine[j]]];
      }
    }
  }

  /** The pass over the review records. */
  method PairEach(engine: seq<Record>, review: seq<Record>)
    returns (units: seq<Unit>, available: set<nat>, ghost choices: seq<Choice>)
    ensures PairedSoFar(engine, review, units, choices)
    ensures available == Positions(|engine|) - Taken(choices)
  {
    units, choices := [], [];
    available := Positions(|engine|);
    PairedStart(engine);
    for k := 0 to |review|
      invariant PairedSoFar(engine, review[..k], units, choices)
      invariant available == Positions(|engine|) - Taken(choices)
    {
      var c := Choose(engine, available, review[k]);
      PairedNext(engine, review, k, units, choices, c);
      TakenNext(choices, c);
      units := units + [UnitFor(engine, review[k], c)];
      choices := choices + [c];
      available := available - if c.Paired? then {c.index} else {};
    }
    UnitsAll(review);
  }

  /** Each choice's unit, in order. */
  ghost predicate UnitsFollow(engine: seq<Record>, review: seq<Record>, units: seq<Unit>, choices: seq<Choice>) {
    && |units| == |choices| == |review|
    && forall k :: 0 <= k < |choices| ==>
         && (choices[k].Paired? ==> choices[k].index < |engine|)
         && units[k] == UnitFor(engine, review[k], choices[k])
  }

  /** Each unit is the engine's record and then the review's, or the review's alone. */
  lemma UnitsAre(engine: seq<Record>, review: seq<Record>, units: seq<Unit>, choices: seq<Choice>, k: nat)
    requires UnitsFollow(engine, review, units, choices) && k < |review|
    ensures choices[k].Paired? ==> choices[k].index < |engine| && units[k] == [engine[choices[k].index]] + [review[k]]
    ensures choices[k].Alone? ==> units[k] == [review[k]]
  {
  }

  /** The pairs made so far follow the choices, and hold each record placed once. */
  ghost predicate PairedSoFar(engine: seq<Record>, done: seq<Record>, units: seq<Unit>, choices: seq<Choice>) {
    && ChosenInTurn(engine, done, choices)
    && UnitsFollow(engine, done, units, choices)
    && Balanced(units, engine, Taken(choices), done)
  }

  lemma PairedStart(engine: seq<Record>)
    ensures PairedSoFar(engine, [], [], [])
    ensures Positions(|engine|) - Taken([]) == Positions(|engine|)
  {
    assert Taken([]) == {};
    KeysAtNone(Same, engine);
  }

  lemma TakenNext(choices: seq<Choice>, c: Choice)
    ensures Taken(choices + [c]) == Taken(choices) + if c.Paired? then {c.index} else {}
    ensures forall all: set<nat> :: all - Taken(choices + [c]) == (all - Taken(choices)) - if c.Paired? then {c.index} else {}
  {
    assert forall x :: x in choices + [c] <==> x in choices || x == c;
    if c.Paired? {
      assert c in choices + [c];
    }
    forall i | i in Taken(choices) ensures i in Taken(choices + [c]) {
      var x :| x in choices && x.Paired? && x.index == i;
      assert x in choices + [c];
    }
  }

  lemma PairedNext(engine: seq<Record>, review: seq<Record>, k: nat, units: seq<Unit>, choices: seq<Choice>, c: Choice)
    requires k < |review| && PairedSoFar(engine, review[..k], units, choices)
    requires BestChoice(engine, Positions(|engine|) - Taken(choices), review[k], c)
    ensures PairedSoFar(engine, review[..k + 1], units + [UnitFor(engine, review[k], c)], choices + [c])
  {
    TakenNext(choices, c);
    ChosenNext(engine, review, k, choices, c);
    UnitsNext(review, k);
    UnitsFollowNext(engine, review[..k], review[k], units, choices, c);
    match c {
      case Paired(index) =>
        BalancedPaired(units, engine, Taken(choices), review[..k], index, review[k]);
        assert Taken(choices + [c]) == Taken(choices) + {index};
      case Alone =>
        BalancedAlone(units, engine, Taken(choices), review[..k], review[k]);
        assert Taken(choices + [c]) == Taken(choices);
    }
  }

  lemma UnitsFollowNext(engine: seq<Record>, done: seq<Record>, r: Record, units: seq<Unit>, choices: seq<Choice>, c: Choice)
    requires UnitsFollow(engine, done, units, choices) && (c.Paired? ==> c.index < |engine|)
    ensures UnitsFollow(engine, done + [r], units + [UnitFor(engine, r, c)], choices + [c])
  {
  }

  lemma ChosenNext(engine: seq<Record>, review: seq<Record>, k: nat, choices: seq<Choice>, c: Choice)
    requires k < |review| && ChosenInTurn(engine, review[..k], choices)
    requires BestChoice(engine, Positions(|engine|) - Taken(choices), review[k], c)
    ensures ChosenInTurn(engine, review[..k + 1], choices + [c])
  {
    var after := choices + [c];
    forall j | 0 <= j < |after|
      ensures BestChoice(engine, Positions(|engine|) - Taken(after[..j]), review[..k + 1][j], after[j])
    {
      if j < k {
        assert after[..j] == choices[..j];
      } else {
        assert after[..j] == choices;
      }
    }
  }

  lemma PairedEnd(engine: seq<Record>, review: seq<Record>, paired: seq<Unit>, choices: seq<Choice>, left: seq<Unit>)
    requires PairedSoFar(engine, review, paired, choices)
    requires left == Leftovers(engine, Positions(|engine|) - Taken(choices), |engine|)
    ensures multiset(Flatten(paired + left)) == multiset(engine) + multiset(review)
    ensures forall u :: u in paired + left ==> 1 <= |u| <= 2
  {
    BalancedEnd(paired, engine, Taken(choices), review);
    LeftoversSingle(engine, Positions(|engine|) - Taken(choices), |engine|);
    forall u | u in paired ensures 1 <= |u| <= 2 {
      var k :| 0 <= k < |paired| && paired[k] == u;
    }
  }

  // --- packing -----------------------------------------------------------

  function FilesOf(records: seq<Record>): set<File> {
    set r, f | r in records && f in r.files :: f
  }

  function Join(groups: seq<seq<Unit>>): seq<Unit> {
    if groups == [] then [] else groups[0] + Join(groups[1..])
  }

  /** Few enough records, reading few enough bytes. */
  ghost predicate Fits(limits: Limits, records: seq<Record>) {
    |records| <= limits.maxFindings && Bytes(limits.sizes, FilesOf(records)) <= limits.maxBytes
  }

  /** A slice may break the bounds only by being a single unit. */
  ghost predicate Allowed(limits: Limits, group: seq<Unit>) {
    |group| == 1 || (|group| > 1 && Fits(limits, Flatten(group)))
  }

  ghost predicate AllAllowed(limits: Limits, groups: seq<seq<Unit>>) {
    forall i :: 0 <= i < |groups| ==> Allowed(limits, groups[i])
  }

  /** No slice is empty, and none could have taken the unit that starts the next one. */
  ghost predicate Greedy(limits: Limits, groups: seq<seq<Unit>>) {
    groups == []
    || var n := |groups| - 1;
       && groups[n] != []
       && Greedy(limits, groups[..n])
       && (n > 0 ==> !Fits(limits, Flatten(groups[n - 1] + [groups[n][0]])))
  }

  lemma {:induction false} GreedyAt(limits: Limits, groups: seq<seq<Unit>>, j: nat)
    requires Greedy(limits, groups) && j < |groups|
    ensures groups[j] != []
    ensures j > 0 ==> !Fits(limits, Flatten(groups[j - 1] + [groups[j][0]]))
  {
    if j < |groups| - 1 {
      GreedyAt(limits, groups[..|groups| - 1], j);
    }
  }

  /** A run of units inside another fits wherever the other does. */
  lemma FitsMonotone(limits: Limits, a: seq<Unit>, b: seq<Unit>, c: seq<Unit>)
    requires Fits(limits, Flatten(a + b + c))
    ensures Fits(limits, Flatten(b))
  {
    FlattenJoin(a + b, c);
    FlattenJoin(a, b);
    var small, large := Flatten(b), Flatten(a + b + c);
    assert forall r :: r in small ==> r in large;
    assert FilesOf(small) <= FilesOf(large);
    BytesMonotone(limits.sizes, FilesOf(small), FilesOf(large));
  }

  lemma {:induction false} JoinAppend(groups: seq<seq<Unit>>, g: seq<Unit>)
    ensures Join(groups + [g]) == Join(groups) + g
  {
    if groups == [] {
      assert groups + [g] == [g];
      assert Join([g]) == g + Join([]);
    } else {
      assert (groups + [g])[1..] == groups[1..] + [g];
      JoinAppend(groups[1..], g);
    }
  }

  ghost function FlattenAll(groups: seq<seq<Unit>>): seq<seq<Record>> {
    seq(|groups|, i requires 0 <= i < |groups| => Flatten(groups[i]))
  }

  /** What holds while packing: the closed slices and the open one are the units so far, in
      order, each within the rule, and none closed too early. */
  ghost predicate Packed(limits: Limits, done: seq<Unit>, groups: seq<seq<Unit>>, group: seq<Unit>)
  {
    && Join(groups) + group == done
    && (group == [] ==> groups == [])
    && AllAllowed(limits, groups)
    && (group != [] ==> Allowed(limits, group))
    && Greedy(limits, if group == [] then groups else groups + [group])
  }

  lemma PackedOpens(limits: Limits, done: seq<Unit>, groups: seq<seq<Unit>>, group: seq<Unit>, unit: Unit)
    requires Packed(limits, done, groups, group) && group != []
    requires !Fits(limits, Flatten(group + [unit]))
    ensures Packed(limits, done + [unit], groups + [group], [unit])
  {
    JoinAppend(groups, group);
    var after := groups + [group] + [[unit]];
    assert after[..|after| - 1] == groups + [group];
  }

  lemma GreedyGrows(limits: Limits, groups: seq<seq<Unit>>, group: seq<Unit>, unit: Unit)
    requires group != [] && Greedy(limits, groups + [group])
    ensures Greedy(limits, groups + [group + [unit]])
  {
    assert (groups + [group])[..|groups|] == groups;
    assert (groups + [group + [unit]])[..|groups|] == groups;
  }

  lemma PackedGrows(limits: Limits, done: seq<Unit>, groups: seq<seq<Unit>>, group: seq<Unit>, unit: Unit)
    requires Packed(limits, done, groups, group)
    requires group == [] || Fits(limits, Flatten(group + [unit]))
    ensures Packed(limits, done + [unit], groups, group + [unit])
  {
    assert Join(groups) + (group + [unit]) == (Join(groups) + group) + [unit];
    if group == [] {
      assert group + [unit] == [unit] && groups + [[unit]] == [[unit]];
    } else {
      GreedyGrows(limits, groups, group, unit);
    }
  }

  /** The open slice as the code keeps it: its records, their files and their number. */
  ghost predicate Tracked(group: seq<Unit>, current: seq<Record>, files: set<File>, count: int) {
    && current == Flatten(group) && files == FilesOf(current) && count == |current|
    && (group == [] <==> current == [])
  }

  lemma TrackedGrows(group: seq<Unit>, current: seq<Record>, files: set<File>, count: int, unit: Unit)
    requires Tracked(group, current, files, count) && unit != []
    ensures Tracked(group + [unit], current + unit, files + FilesOf(unit), count + |unit|)
  {
    FlattenAppend(group, unit);
    FilesOfAppend(current, unit);
  }

  /** The packing loop's variables: the closed slices, the open one, its files and count,
      and the units each is made of. */
  datatype State = State(slices: seq<seq<Record>>, current: seq<Record>, files: set<File>, count: int,
                         groups: seq<seq<Unit>>, group: seq<Unit>)

  const START := State([], [], {}, 0, [], [])

  /** One unit's turn: the open slice closes first if the unit would break a bound. */
  ghost function Step(limits: Limits, s: State, unit: Unit): State {
    var over := s.count + |unit| > limits.maxFindings
                || Bytes(limits.sizes, s.files + FilesOf(unit)) > limits.maxBytes;
    var t := if s.current != [] && over
             then State(s.slices + [s.current], [], {}, 0, s.groups + [s.group], []) else s;
    State(t.slices, t.current + unit, t.files + FilesOf(unit), t.count + |unit|, t.groups, t.group + [unit])
  }

  ghost function PackAll(limits: Limits, units: seq<Unit>): State {
    if units == [] then START else Step(limits, PackAll(limits, units[..|units| - 1]), units[|units| - 1])
  }

  ghost predicate Sound(limits: Limits, done: seq<Unit>, s: State) {
    && s.slices == FlattenAll(s.groups)
    && Tracked(s.group, s.current, s.files, s.count)
    && Packed(limits, done, s.groups, s.group)
  }

  lemma StepSound(limits: Limits, done: seq<Unit>, s: State, unit: Unit)
    requires Sound(limits, done, s) && unit != []
    ensures Sound(limits, done + [unit], Step(limits, s, unit))
  {
    TrackedGrows(s.group, s.current, s.files, s.count, unit);
    if s.current != [] && !Fits(limits, Flatten(s.group + [unit])) {
      PackedOpens(limits, done, s.groups, s.group, unit);
      FlattenAllAppend(s.groups, s.group);
      TrackedGrows([], [], {}, 0, unit);
      assert [] + [unit] == [unit];
    } else {
      PackedGrows(limits, done, s.groups, s.group, unit);
    }
  }

  lemma {:induction false} PackAllSound(limits: Limits, units: seq<Unit>, i: nat)
    requires i <= |units| && forall k :: 0 <= k < |units| ==> units[k] != []
    ensures Sound(limits, units[..i], PackAll(limits, units[..i]))
  {
    if i > 0 {
      PackAllSound(limits, units, i - 1);
      UnitsNext(units, i - 1);
      PackAllNext(limits, units, i - 1);
      StepSound(limits, units[..i - 1], PackAll(limits, units[..i - 1]), units[i - 1]);
    }
  }

  /** The units of each slice, once the last one is closed. */
  ghost function Slicing(limits: Limits, units: seq<Unit>): seq<seq<Unit>> {
    var s := PackAll(limits, units);
    if s.current != [] then s.groups + [s.group] else s.groups
  }

  /** The slices are the units in order, each slice within the rule, and none closed before
      it had to be. */
  lemma SlicingSound(limits: Limits, units: seq<Unit>)
    requires forall k :: 0 <= k < |units| ==> units[k] != []
    ensures Join(Slicing(limits, units)) == units
    ensures AllAllowed(limits, Slicing(limits, units)) && Greedy(limits, Slicing(limits, units))
  {
    var s := PackAll(limits, units);
    UnitsAll(units);
    PackAllSound(limits, units, |units|);
    PackedCloses(limits, units, s.groups, s.group);
  }

  /** Packs the units in order, starting a new slice when the next unit would break a bound. */
  method PackUnits(units: seq<Unit>, limits: Limits) returns (slices: seq<seq<Record>>)
    requires forall k :: 0 <= k < |units| ==> units[k] != []
    ensures slices == FlattenAll(Slicing(limits, units))
  {
    slices := [];
    var current: seq<Record> := [];
    var currentFiles: set<File> := {};
    var currentCount := 0;
    ghost var groups: seq<seq<Unit>>, group: seq<Unit> := [], [];
    for i := 0 to |units|
      invariant State(slices, current, currentFiles, currentCount, groups, group) == PackAll(limits, units[..i])
    {
      var unit := units[i];
      PackAllNext(limits, units, i);
      var unitFiles := FilesOf(unit);
      var nextFiles := currentFiles + unitFiles;
      var tooMany := currentCount + |unit| > limits.maxFindings;
      var bytes := BytesFor(limits.sizes, nextFiles);
      var tooLarge := bytes > limits.maxBytes;
      if current != [] && (tooMany || tooLarge) {
        slices, groups := slices + [current], groups + [group];
        current, currentFiles, currentCount, group := [], {}, 0, [];
      }
      current, group := current + unit, group + [unit];
      currentFiles := currentFiles + unitFiles;
      currentCount := currentCount + |unit|;
    }
    UnitsAll(units);
    PackAllSound(limits, units, |units|);
    if current != [] {
      FlattenAllAppend(groups, group);
      slices := slices + [current];
    }
  }

  lemma PackAllNext(limits: Limits, units: seq<Unit>, i: nat)
    requires i < |units|
    ensures PackAll(limits, units[..i + 1]) == Step(limits, PackAll(limits, units[..i]), units[i])
  {
    assert units[..i + 1][..i] == units[..i];
  }

  lemma UnitsAll<T>(units: seq<T>)
    ensures units[..|units|] == units
  {
  }

  lemma PackedCloses(limits: Limits, done: seq<Unit>, groups: seq<seq<Unit>>, group: seq<Unit>)
    requires Packed(limits, done, groups, group)
    ensures var all := if group == [] then groups else groups + [group];
            Join(all) == done && AllAllowed(limits, all) && Greedy(limits, all)
  {
    JoinAppend(groups, group);
  }

  lemma FilesOfAppend(a: seq<Record>, b: seq<Record>)
    ensures FilesOf(a + b) == FilesOf(a) + FilesOf(b)
  {
  }

  lemma FlattenAllAppend(groups: seq<seq<Unit>>, g: seq<Unit>)
    ensures FlattenAll(groups + [g]) == FlattenAll(groups) + [Flatten(g)]
  {
  }

  lemma UnitsNext<T>(units: seq<T>, i: nat)
    requires i < |units|
    ensures units[..i + 1] == units[..i] + [units[i]]
  {
  }

  // --- nothing is lost, and no packing does with fewer slices -------------

  /** The slices, laid end to end, are the units' records, laid end to end. */
  lemma {:induction false} SlicesKeepEverything(groups: seq<seq<Unit>>)
    ensures Flatten(FlattenAll(groups)) == Flatten(Join(groups))
    decreases |groups|
  {
    if groups != [] {
      var n := |groups| - 1;
      assert groups == groups[..n] + [groups[n]];
      SlicesKeepEverything(groups[..n]);
      FlattenAllAppend(groups[..n], groups[n]);
      FlattenAppend(FlattenAll(groups[..n]), Flatten(groups[n]));
      JoinAppend(groups[..n], groups[n]);
      FlattenJoin(Join(groups[..n]), groups[n]);
    }
  }

  lemma SkipWhole<T>(p: seq<T>, rest: seq<T>, skip: nat)
    requires |p| <= skip <= |p| + |rest|
    ensures (p + rest)[skip..] == rest[skip - |p|..]
  {
  }

  lemma SkipPart<T>(p: seq<T>, rest: seq<T>, skip: nat)
    requires skip <= |p|
    ensures (p + rest)[skip..] == p[skip..] + rest
  {
  }

  /** What is left once the first of two cuttings has passed the end of the other's piece. */
  lemma Passed<T>(left: seq<T>, rest: seq<T>, first: seq<T>, more: seq<T>)
    requires left + rest == first + more && |left| <= |first|
    ensures |first| - |left| <= |rest| && rest[|first| - |left|..] == more
  {
    assert (left + rest)[|first|..] == (first + more)[|first|..] == more;
    SkipWhole(left, rest, |first|);
  }

  lemma SkipFirst(limits: Limits, groups: seq<seq<Unit>>, other: seq<seq<Unit>>, skip: nat) returns (ahead: nat)
    requires Greedy(limits, groups) && groups != [] && other != []
    requires AllAllowed(limits, other) && skip < |other[0]|
    requires skip <= |Join(other)| && Join(other)[skip..] == Join(groups)
    ensures ahead <= |Join(other[1..])| && Join(other[1..])[ahead..] == Join(groups[1..])
  {
    var p, rest := other[0], Join(other[1..]);
    assert Allowed(limits, p);
    SkipPart(p, rest, skip);
    FirstReaches(limits, groups, p, skip, rest);
    Passed(p[skip..], rest, groups[0], Join(groups[1..]));
    ahead := |groups[0]| - |p[skip..]|;
  }

  /** Greedy packing stays ahead: when it still has only what the tail of another packing
      also holds to place, it uses no more slices than that packing does. */
  lemma {:induction false} GreedyStaysAhead(limits: Limits, groups: seq<seq<Unit>>, other: seq<seq<Unit>>, skip: nat)
    requires Greedy(limits, groups)
    requires AllAllowed(limits, other)
    requires skip <= |Join(other)| && Join(other)[skip..] == Join(groups)
    ensures |groups| <= |other|
    decreases |other|
  {
    if groups != [] {
      JoinNotEmpty(limits, groups);
      if |other[0]| <= skip {
        SkipWhole(other[0], Join(other[1..]), skip);
        GreedyStaysAhead(limits, groups, other[1..], skip - |other[0]|);
      } else {
        GreedyTail(limits, groups);
        var ahead := SkipFirst(limits, groups, other, skip);
        GreedyStaysAhead(limits, groups[1..], other[1..], ahead);
      }
    }
  }

  lemma JoinNotEmpty(limits: Limits, groups: seq<seq<Unit>>)
    requires Greedy(limits, groups) && groups != []
    ensures Join(groups) != []
  {
    GreedyAt(limits, groups, 0);
  }

  lemma {:induction false} GreedyTail(limits: Limits, groups: seq<seq<Unit>>)
    requires Greedy(limits, groups) && groups != []
    ensures Greedy(limits, groups[1..])
    decreases |groups|
  {
    var n := |groups| - 1;
    if n > 0 {
      GreedyTail(limits, groups[..n]);
      assert groups[1..][..n - 1] == groups[..n][1..];
    }
  }

  lemma SamePrefix(a: seq<Unit>, b: seq<Unit>, c: seq<Unit>, d: seq<Unit>)
    requires a + b == c + d && |c| <= |a|
    ensures a[..|c|] == c
  {
    assert forall k :: 0 <= k < |c| ==> a[k] == (a + b)[k] && c[k] == (c + d)[k];
  }

  lemma JoinStarts(groups: seq<seq<Unit>>)
    requires |groups| >= 2 && groups[1] != []
    ensures Join(groups) == (groups[0] + [groups[1][0]]) + (groups[1][1..] + Join(groups[2..]))
  {
    var t := groups[1..];
    assert t[0] == groups[1] && t[1..] == groups[2..];
    assert groups[1] == [groups[1][0]] + groups[1][1..];
  }

  lemma SplitAt(p: seq<Unit>, skip: nat, wanted: seq<Unit>)
    requires skip <= |p| && |wanted| <= |p| - skip && p[skip..][..|wanted|] == wanted
    ensures p == p[..skip] + wanted + p[skip + |wanted|..]
  {
  }

  /** The first greedy slice takes at least what is left of the other packing's slice. */
  lemma FirstReaches(limits: Limits, groups: seq<seq<Unit>>, p: seq<Unit>, skip: nat, rest: seq<Unit>)
    requires Greedy(limits, groups) && groups != []
    requires Allowed(limits, p) && skip < |p|
    requires p[skip..] + rest == Join(groups)
    ensures |p| - skip <= |groups[0]|
  {
    if |groups| == 1 {
      assert Join(groups) == groups[0] + Join([]);
    } else if |p| - skip > |groups[0]| {
      GreedyAt(limits, groups, 0);
      GreedyAt(limits, groups, 1);
      JoinStarts(groups);
      var wanted := groups[0] + [groups[1][0]];
      SamePrefix(p[skip..], rest, wanted, groups[1][1..] + Join(groups[2..]));
      SplitAt(p, skip, wanted);
      FitsMonotone(limits, p[..skip], wanted, p[skip + |wanted|..]);
    }
  }

  /** No way of cutting the units into consecutive slices that obeys the same rule uses
      fewer slices than packing greedily does. */
  lemma GreedyIsOptimal(limits: Limits, groups: seq<seq<Unit>>, other: seq<seq<Unit>>)
    requires Greedy(limits, groups)
    requires AllAllowed(limits, other) && Join(other) == Join(groups)
    ensures |groups| <= |other|
  {
    assert Join(other)[0..] == Join(other);
    GreedyStaysAhead(limits, groups, other, 0);
  }

  lemma FirstsAgree(limits: Limits, groups: seq<seq<Unit>>, other: seq<seq<Unit>>)
    requires groups != [] && other != [] && Join(groups) == Join(other)
    requires AllAllowed(limits, groups) && Greedy(limits, groups)
    requires AllAllowed(limits, other) && Greedy(limits, other)
    ensures groups[0] == other[0]
  {
    assert Allowed(limits, groups[0]) && Allowed(limits, other[0]);
    var p, q := groups[0], other[0];
    assert p[0..] == p && q[0..] == q;
    FirstReaches(limits, groups, q, 0, Join(other[1..]));
    FirstReaches(limits, other, p, 0, Join(groups[1..]));
    SamePrefix(p, Join(groups[1..]), q, Join(other[1..]));
  }

  lemma SameTail<T>(first: seq<T>, a: seq<T>, b: seq<T>)
    requires first + a == first + b
    ensures a == b
  {
    assert (first + a)[|first|..] == a && (first + b)[|first|..] == b;
  }

  lemma SameParts<T>(a: seq<T>, b: seq<T>)
    requires a != [] && b != [] && a[0] == b[0] && a[1..] == b[1..]
    ensures a == b
  {
    assert a == [a[0]] + a[1..] && b == [b[0]] + b[1..];
  }

  /** The rule decides the slices: only one cutting keeps to it and closes none too early. */
  lemma {:induction false} GreedyIsUnique(limits: Limits, groups: seq<seq<Unit>>, other: seq<seq<Unit>>)
    requires Join(groups) == Join(other)
    requires AllAllowed(limits, groups) && Greedy(limits, groups)
    requires AllAllowed(limits, other) && Greedy(limits, other)
    ensures groups == other
    decreases |groups|
  {
    if groups == [] || other == [] {
      GreedyIsOptimal(limits, groups, other);
      GreedyIsOptimal(limits, other, groups);
    } else {
      FirstsAgree(limits, groups, other);
      GreedyTail(limits, groups);
      GreedyTail(limits, other);
      SameTail(groups[0], Join(groups[1..]), Join(other[1..]));
      GreedyIsUnique(limits, groups[1..], other[1..]);
      SameParts(groups, other);
    }
  }

  /** With units of at most two records and room for two, every slice keeps to the count. */
  lemma SlicesWithinCount(limits: Limits, groups: seq<seq<Unit>>, i: nat)
    requires AllAllowed(limits, groups) && i < |groups| && limits.maxFindings >= 2
    requires forall u :: u in groups[i] ==> |u| <= 2
    ensures |FlattenAll(groups)[i]| <= limits.maxFindings
  {
    assert Allowed(limits, groups[i]);
    if |groups[i]| == 1 {
      assert groups[i] == [] + [groups[i][0]];
      FlattenAppend([], groups[i][0]);
    }
  }
}
