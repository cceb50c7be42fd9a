/** Comparisons guarded by tests that their own operands exist, and what a missing operand
    does to them. */
module Presence {
  import opened Paths
  import opened Worklist
  import opened Ir
  import opened Cfg
  import opened Conjuncts

  const NUL := '\0'

  /** How many property reads are followed back. */
  const DEPTH := 8

  // --- what a value reads ------------------------------------------------

  /** The fields read, one below another, from a root. */
  datatype Access = Access(root: Id, fields: seq<string>)

  /** The value is a field read from another. */
  predicate IsField(ix: map<Id, Value>, id: Id) {
    id in ix && ix[id].kind == "property" && ix[id].base != NOTHING && ix[id].path != ""
  }

  /** What a value reads, looking back through so many property reads. */
  function AccessOf(ix: map<Id, Value>, id: Id, depth: nat): Access
    decreases depth
  {
    if depth == 0 || !IsField(ix, id) then Access(id, [])
    else
      var base := AccessOf(ix, ix[id].base, depth - 1);
      Access(base.root, base.fields + [ix[id].path])
  }

  function FieldsText(fields: seq<string>): string {
    if fields == [] then "" else fields[0] + ([NUL] + FieldsText(fields[1..]))
  }

  function AccessText(a: Access): string {
    if a.fields == [] then a.root.name else a.root.name + ([NUL] + FieldsText(a.fields))
  }

  lemma FieldFirst(field: string, fields: seq<string>)
    ensures FieldsText([field] + fields) == field + ([NUL] + FieldsText(fields))
    ensures FieldsText([field] + fields) != ""
  {
    assert ([field] + fields)[1..] == fields;
  }

  /** One more read back: the fields found so far are below those still to be found. */
  lemma AccessBack(ix: map<Id, Value>, at: Id, depth: nat, fields: seq<string>)
    requires depth > 0 && IsField(ix, at)
    ensures var rest, base := AccessOf(ix, at, depth), AccessOf(ix, ix[at].base, depth - 1);
      Access(rest.root, rest.fields + fields) == Access(base.root, base.fields + ([ix[at].path] + fields))
  {
    var base := AccessOf(ix, ix[at].base, depth - 1);
    assert base.fields + [ix[at].path] + fields == base.fields + ([ix[at].path] + fields);
  }

  /** A property of some value, under some name. */
  predicate ReadsField(ix: map<Id, Value>, id: Id) {
    id in ix && ix[id].kind == "property" && ix[id].base.name != "" && ix[id].path != ""
  }

  /** The values read through, from the last field back to the root: each is a property of the
      next, and the names passed on the way are the fields. */
  ghost predicate ReadThrough(ix: map<Id, Value>, chain: seq<Id>, id: Id, a: Access) {
    && |chain| == |a.fields| + 1 && chain[0] == id && chain[|a.fields|] == a.root
    && forall k :: 0 <= k < |a.fields| ==>
         ReadsField(ix, chain[k]) && ix[chain[k]].base == chain[k + 1] && ix[chain[k]].path == a.fields[|a.fields| - 1 - k]
  }

  lemma {:induction false} AccessIsChain(ix: map<Id, Value>, id: Id, depth: nat) returns (chain: seq<Id>)
    ensures ReadThrough(ix, chain, id, AccessOf(ix, id, depth)) && |AccessOf(ix, id, depth).fields| <= depth
    ensures |AccessOf(ix, id, depth).fields| < depth ==> !ReadsField(ix, AccessOf(ix, id, depth).root)
    decreases depth
  {
    assert id in ix ==> ix[id].base == Id(ix[id].base.name);
    if depth == 0 || !IsField(ix, id) {
      chain := [id];
    } else {
      var below := AccessOf(ix, ix[id].base, depth - 1);
      var rest := AccessIsChain(ix, ix[id].base, depth - 1);
      chain := [id] + rest;
      var a := AccessOf(ix, id, depth);
      assert a == Access(below.root, below.fields + [ix[id].path]);
      forall k | 0 <= k < |a.fields|
        ensures ReadsField(ix, chain[k]) && ix[chain[k]].base == chain[k + 1] && ix[chain[k]].path == a.fields[|a.fields| - 1 - k]
      {
        if k > 0 { assert chain[k] == rest[k - 1] && chain[k + 1] == rest[k]; }
      }
    }
  }

  /** What a value denotes: it is read back through properties, eight at most, as far as they
      go. */
  lemma ReadingGoesBack(ix: map<Id, Value>, id: Id) returns (chain: seq<Id>)
    ensures ReadThrough(ix, chain, id, Reading(ix, id)) && |Reading(ix, id).fields| <= 8
    ensures |Reading(ix, id).fields| < 8 ==> !ReadsField(ix, Reading(ix, id).root)
  {
    chain := AccessIsChain(ix, id, 8);
  }

  /** Names what a value reads, from the outermost field inwards. */
  method Denotation(ix: map<Id, Value>, id: Id) returns (r: string)
    ensures r == AccessText(AccessOf(ix, id, DEPTH))
  {
    var path, at, i := "", id, 0;
    ghost var fields: seq<string> := [];
    while i < DEPTH
      invariant 0 <= i <= DEPTH && path == FieldsText(fields)
      invariant var rest := AccessOf(ix, at, DEPTH - i);
        AccessOf(ix, id, DEPTH) == Access(rest.root, rest.fields + fields)
      invariant fields == [] <==> path == ""
    {
      if !IsField(ix, at) {
        break;
      }
      AccessBack(ix, at, DEPTH - i, fields);
      FieldFirst(ix[at].path, fields);
      path := ix[at].path + ([NUL] + path);
      fields := [ix[at].path] + fields;
      at := ix[at].base;
      i := i + 1;
    }
    assert AccessOf(ix, at, DEPTH - i) == Access(at, []);
    assert [] + fields == fields;
    if path == "" {
      return at.name;
    }
    return at.name + ([NUL] + path);
  }

  /** No name of a root or a field holds NUL. */
  predicate PlainAccess(a: Access) {
    NUL !in a.root.name && forall k :: 0 <= k < |a.fields| ==> NUL !in a.fields[k]
  }

  lemma CutAtNul(a: string, b: string, x: string, y: string)
    requires NUL !in a && NUL !in b && a + ([NUL] + x) == b + ([NUL] + y)
    ensures a == b && x == y
  {
    var s, t := a + ([NUL] + x), b + ([NUL] + y);
    assert s[|a|] == NUL && t[|b|] == NUL;
    assert forall i :: 0 <= i < |a| ==> s[i] == a[i] && a[i] in a;
    assert forall i :: 0 <= i < |b| ==> t[i] == b[i] && b[i] in b;
    assert |a| == |b|;
    assert s[..|a|] == a && t[..|b|] == b;
    assert s[|a| + 1..] == x && t[|b| + 1..] == y;
  }

  lemma {:induction false} FieldsReadBack(a: seq<string>, b: seq<string>)
    requires FieldsText(a) == FieldsText(b)
    requires forall k :: 0 <= k < |a| ==> NUL !in a[k]
    requires forall k :: 0 <= k < |b| ==> NUL !in b[k]
    ensures a == b
    decreases |a|
  {
    assert a != [] ==> FieldsText(a) != "";
    assert b != [] ==> FieldsText(b) != "";
    if a != [] && b != [] {
      CutAtNul(a[0], b[0], FieldsText(a[1..]), FieldsText(b[1..]));
      FieldsReadBack(a[1..], b[1..]);
      assert a == [a[0]] + a[1..] && b == [b[0]] + b[1..];
    }
  }

  lemma NulMeansFields(a: Access)
    requires PlainAccess(a)
    ensures NUL in AccessText(a) <==> a.fields != []
  {
    if a.fields != [] {
      assert AccessText(a)[|a.root.name|] == NUL;
    }
  }

  /** Two values have one denotation exactly when they read the same fields of one root. */
  lemma DenotationTellsApart(a: Access, b: Access)
    requires PlainAccess(a) && PlainAccess(b)
    ensures AccessText(a) == AccessText(b) <==> a == b
  {
    NulMeansFields(a);
    NulMeansFields(b);
    assert a.root == Id(a.root.name) && b.root == Id(b.root.name);
    if AccessText(a) == AccessText(b) && a.fields != [] && b.fields != [] {
      CutAtNul(a.root.name, b.root.name, FieldsText(a.fields), FieldsText(b.fields));
      FieldsReadBack(a.fields, b.fields);
    }
  }

  // --- presence ----------------------------------------------------------

  predicate IsInequality(op: string) {
    op in {"!=", "!==", "<>", "NotEq", "IsNot", "is not"}
  }

  predicate NamedComparison(names: map<Id, string>, id: Id) {
    id in names && names[id] == "comparison"
  }

  /** What a value denotes. */
  function Reading(ix: map<Id, Value>, id: Id): Access {
    AccessOf(ix, id, DEPTH)
  }

  /** The test written here asks whether something differs from nothing; `absent` holds the
      values that are nothing. */
  predicate AsksFor(ix: map<Id, Value>, absent: set<Id>, test: Comparison, what: string) {
    IsInequality(test.op) &&
    ((test.right in absent && AccessText(Reading(ix, test.left)) == what)
     || (test.left in absent && AccessText(Reading(ix, test.right)) == what))
  }

  predicate AsksAt(ix: map<Id, Value>, absent: set<Id>, tests: seq<Comparison>, loc: Loc, what: string) {
    exists t :: t in tests && t.loc == loc && AsksFor(ix, absent, t, what)
  }

  /** A conjunct tests that something is there: it is that thing, or asks whether it differs
      from nothing. */
  predicate TestsPresence(ix: map<Id, Value>, names: map<Id, string>, absent: set<Id>, tests: seq<Comparison>, o: Id, what: string) {
    AccessText(Reading(ix, o)) == what
    || (NamedComparison(names, o) && o in ix && AsksAt(ix, absent, tests, ix[o].loc, what))
  }

  /** What the given conjuncts test the presence of. */
  ghost predicate PresentAfter(ix: map<Id, Value>, names: map<Id, string>, absent: set<Id>, tests: seq<Comparison>,
                               seen: set<Id>, present: set<string>) {
    forall what :: what in present <==> exists o :: o in seen && TestsPresence(ix, names, absent, tests, o, what)
  }

  ghost predicate AskedAfter(ix: map<Id, Value>, absent: set<Id>, tests: seq<Comparison>, loc: Loc, before: set<string>, present: set<string>) {
    forall what :: what in present <==> what in before || AsksAt(ix, absent, tests, loc, what)
  }

  lemma AskedNext(ix: map<Id, Value>, absent: set<Id>, tests: seq<Comparison>, i: nat, loc: Loc, what: string)
    requires i < |tests|
    ensures AsksAt(ix, absent, tests[..i + 1], loc, what)
      <==> AsksAt(ix, absent, tests[..i], loc, what) || (tests[i].loc == loc && AsksFor(ix, absent, tests[i], what))
  {
    TakeNext(tests, i);
    assert tests[i] in tests[..i + 1];
  }

  /** Adds what the tests written at one place ask for. */
  method AddAsked(ix: map<Id, Value>, absent: set<Id>, tests: seq<Comparison>, loc: Loc, before: set<string>) returns (present: set<string>)
    ensures AskedAfter(ix, absent, tests, loc, before, present)
  {
    present := before;
    for i := 0 to |tests|
      invariant AskedAfter(ix, absent, tests[..i], loc, before, present)
    {
      forall what ensures AsksAt(ix, absent, tests[..i + 1], loc, what)
        <==> AsksAt(ix, absent, tests[..i], loc, what) || (tests[i].loc == loc && AsksFor(ix, absent, tests[i], what)) {
        AskedNext(ix, absent, tests, i, loc, what);
      }
      var test := tests[i];
      if test.loc != loc || !IsInequality(test.op) {
        continue;
      }
      if test.right in absent {
        var left := Denotation(ix, test.left);
        present := present + {left};
      }
      if test.left in absent {
        var right := Denotation(ix, test.right);
        present := present + {right};
      }
    }
    assert tests[..|tests|] == tests;
  }

  /** Adds what one conjunct tests the presence of. */
  method AddPresent(ix: map<Id, Value>, names: map<Id, string>, absent: set<Id>, tests: seq<Comparison>, o: Id, before: set<string>)
    returns (present: set<string>)
    ensures forall what :: what in present <==> what in before || TestsPresence(ix, names, absent, tests, o, what)
  {
    var own := Denotation(ix, o);
    present := before + {own};
    if NamedComparison(names, o) && o in ix {
      present := AddAsked(ix, absent, tests, ix[o].loc, present);
    }
  }

  /** Whether the comparison is conjoined with a presence test of both its operands. */
  method SkippedByOperandPresence(ix: map<Id, Value>, absent: set<Id>, tests: seq<Comparison>, c: Conjunctions, cmp: Comparison)
    returns (r: bool)
    ensures r <==> Skippable(ix, c.into, c.from, c.name, c.cmpValue, absent, tests, cmp)
  {
    var operands := c.Operands(cmp.loc);
    var present: set<string> := {};
    var left := operands;
    while left != {}
      invariant left <= operands
      invariant PresentAfter(ix, c.name, absent, tests, operands - left, present)
    {
      var o :| o in left;
      ghost var seen := operands - left;
      present := AddPresent(ix, c.name, absent, tests, o, present);
      left := left - {o};
      assert operands - left == seen + {o};
    }
    assert operands - left == operands;
    var one := Denotation(ix, cmp.left);
    var other := Denotation(ix, cmp.right);
    return one in present && other in present;
  }

  /** Some other value under a conjunction above the comparison tests the presence. */
  ghost predicate Guarded(ix: map<Id, Value>, into: Digraph<Id>, from: Digraph<Id>, names: map<Id, string>, absent: set<Id>,
                          tests: seq<Comparison>, seed: Id, what: string) {
    exists o :: Conjoined(into, from, names, seed, o) && TestsPresence(ix, names, absent, tests, o, what)
  }

  ghost predicate Skippable(ix: map<Id, Value>, into: Digraph<Id>, from: Digraph<Id>, names: map<Id, string>, values: map<Loc, Id>,
                            absent: set<Id>, tests: seq<Comparison>, cmp: Comparison) {
    cmp.loc in values
    && Guarded(ix, into, from, names, absent, tests, values[cmp.loc], AccessText(Reading(ix, cmp.left)))
    && Guarded(ix, into, from, names, absent, tests, values[cmp.loc], AccessText(Reading(ix, cmp.right)))
  }

  /** Where something is missing, every test of its presence is false. */
  ghost predicate Missing(ix: map<Id, Value>, names: map<Id, string>, absent: set<Id>, tests: seq<Comparison>, holds: Id -> bool, what: string) {
    forall o :: TestsPresence(ix, names, absent, tests, o, what) ==> !holds(o)
  }

  /** The operator, in some frontend's spelling, asks whether two values differ. */
  predicate SaysDiffer(op: string) {
    op == "!=" || op == "!==" || op == "<>" || op == "NotEq" || op == "IsNot" || op == "is not"
  }

  /** Exactly what tests that something is there: a value that reads it, or a comparison by
      one of those operators of a value that reads it with one that is nothing. */
  lemma PresenceTestsAre(ix: map<Id, Value>, names: map<Id, string>, absent: set<Id>, tests: seq<Comparison>, o: Id, what: string)
    ensures TestsPresence(ix, names, absent, tests, o, what) <==>
            || AccessText(AccessOf(ix, o, 8)) == what
            || (o in names && names[o] == "comparison" && o in ix
                && exists t :: t in tests && t.loc == ix[o].loc && SaysDiffer(t.op)
                     && ((t.right in absent && AccessText(AccessOf(ix, t.left, 8)) == what)
                         || (t.left in absent && AccessText(AccessOf(ix, t.right, 8)) == what)))
  {
  }

  /** A value is nothing: it is one that always is, or what it reads is missing. */
  predicate IsNothing(ix: map<Id, Value>, absent: set<Id>, gone: set<string>, v: Id) {
    v in absent || AccessText(Reading(ix, v)) in gone
  }

  /** What the operators mean: a value that holds is something, and a comparison that asks
      whether two values differ does not hold when both are nothing. */
  ghost predicate Truthful(ix: map<Id, Value>, names: map<Id, string>, absent: set<Id>, tests: seq<Comparison>,
                           holds: Id -> bool, gone: set<string>) {
    && (forall o :: holds(o) ==> AccessText(Reading(ix, o)) !in gone)
    && (forall o, t :: holds(o) && NamedComparison(names, o) && o in ix && t in tests && t.loc == ix[o].loc && SaysDiffer(t.op) ==>
          !(IsNothing(ix, absent, gone, t.left) && IsNothing(ix, absent, gone, t.right)))
  }

  /** So where something is missing every test of its presence is false. */
  lemma MissingByMeaning(ix: map<Id, Value>, names: map<Id, string>, absent: set<Id>, tests: seq<Comparison>,
                         holds: Id -> bool, gone: set<string>, what: string)
    requires Truthful(ix, names, absent, tests, holds, gone) && what in gone
    ensures Missing(ix, names, absent, tests, holds, what)
  {
    forall o | TestsPresence(ix, names, absent, tests, o, what) ensures !holds(o) {
      PresenceTestsAre(ix, names, absent, tests, o, what);
    }
  }

  /** Leaving out either operand of a comparison found skippable makes a conjunction around
      it false, and everything above that: what the comparison decides is skipped. */
  lemma MissingOperandSkips(ix: map<Id, Value>, into: Digraph<Id>, from: Digraph<Id>, names: map<Id, string>, values: map<Loc, Id>,
                            absent: set<Id>, tests: seq<Comparison>, cmp: Comparison, holds: Id -> bool, side: Id) returns (b: Id)
    requires Skippable(ix, into, from, names, values, absent, tests, cmp)
    requires Valuation(from, holds) && Mirrored(into, from)
    requires side == cmp.left || side == cmp.right
    requires Missing(ix, names, absent, tests, holds, AccessText(Reading(ix, side)))
    ensures ConnectedByEdges(into, values[cmp.loc], b)
    ensures forall top :: Connected(into, b, top) ==> !holds(top)
  {
    var seed := values[cmp.loc];
    var o :| Conjoined(into, from, names, seed, o)
          && TestsPresence(ix, names, absent, tests, o, AccessText(Reading(ix, side)));
    b := AbsentOperandSkips(into, from, names, holds, seed, o);
  }
}
