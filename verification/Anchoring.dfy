/** What makes the body of a repeated group safe to repeat, read off its tree instead of
    its text. */
module Anchoring {
  import opened Regex
  import opened Scanner
  import opened Places

  // --- by the tree -------------------------------------------------------

  function Branches(a: Alts): (r: seq<Items>)
    ensures |r| > 0 && (a.One? <==> |r| == 1)
  {
    match a
    case One(items) => [items]
    case Or(first, rest) => [first] + Branches(rest)
  }

  /** One character, escape or class and nothing more. A class must not hold an escaped
      bracket, and a character must match itself. */
  predicate Single(items: Items) {
    items.Cons? && items.item.quant == Bare && items.rest == Empty &&
    match items.item.atom
    case Lit(c) => c !in {'.', '^', '$'}
    case Esc(_) => true
    case Class(members) => Escaped(']') !in members
    case Group(_, _) => false
  }

  predicate AllSingle(branches: seq<Items>) {
    forall k :: 0 <= k < |branches| ==> Single(branches[k])
  }

  predicate Apart(branches: seq<Items>) {
    forall j, k :: 0 <= j < k < |branches| ==> PrintItems(branches[j]) != PrintItems(branches[k])
  }

  /** The first thing that must match exactly once is a character, an escape or a class. */
  predicate MarkedItems(items: Items) {
    match items
    case Empty => false
    case Cons(Item(atom, quant), rest) =>
      match quant
      case Star(_) => MarkedItems(rest)
      case Optional(_) => MarkedItems(rest)
      case Plus(_) => false
      case Braces(text, _) => !UnboundedText(text) && !atom.Group?
      case Bare => !atom.Group?
  }

  /** The body is a choice of different single characters, or begins with a marker. */
  predicate AnchoredAlts(a: Alts) {
    match a
    case One(items) => MarkedItems(items)
    case Or(_, _) => AllSingle(Branches(a)) && Apart(Branches(a))
  }

  /** No class at any depth holds a bare parenthesis. */
  predicate PlainAlts(a: Alts) {
    match a
    case One(items) => PlainItems(items)
    case Or(first, rest) => PlainItems(first) && PlainAlts(rest)
  }

  predicate PlainItems(items: Items) {
    match items
    case Empty => true
    case Cons(item, rest) => PlainAtom(item.atom) && PlainItems(rest)
  }

  predicate PlainAtom(atom: Atom) {
    match atom
    case Class(members) => forall k :: 0 <= k < |members| ==> members[k] != Plain('(') && members[k] != Plain(')')
    case Group(_, body) => PlainAlts(body)
    case _ => true
  }

  // --- parentheses, as they are counted -----------------------------------

  /** The parentheses in a class, each counted as one. */
  function MemberTurns(members: seq<Member>): seq<int> {
    if members == [] then []
    else (if members[0] == Plain('(') then [1] else if members[0] == Plain(')') then [-1] else []) + MemberTurns(members[1..])
  }

  /** The parentheses the search for a group's end counts, in order: those of groups, and
      those that merely stand in classes. */
  function TurnsAlts(a: Alts): seq<int> {
    match a
    case One(items) => TurnsItems(items)
    case Or(first, rest) => TurnsItems(first) + TurnsAlts(rest)
  }

  function TurnsItems(items: Items): seq<int> {
    match items
    case Empty => []
    case Cons(item, rest) => TurnsAtom(item.atom) + TurnsItems(rest)
  }

  function TurnsAtom(atom: Atom): seq<int> {
    match atom
    case Class(members) => MemberTurns(members)
    case Group(_, body) => [1] + (TurnsAlts(body) + [-1])
    case _ => []
  }

  function Sum(turns: seq<int>): int {
    if turns == [] then 0 else turns[0] + Sum(turns[1..])
  }

  /** Counting from this depth comes to nothing somewhere along the way. */
  predicate ComesToZero(turns: seq<int>, depth: int) {
    turns != [] && (depth + turns[0] == 0 || ComesToZero(turns[1..], depth + turns[0]))
  }

  /** The parentheses inside a group cancel out and never close it early. */
  predicate Paired(atom: Atom) {
    atom.Group? ==> !ComesToZero(TurnsAlts(atom.body), 1) && Sum(TurnsAlts(atom.body)) == 0
  }

  /** The atoms up to the first that must match are paired. */
  predicate Readable(items: Items) {
    match items
    case Empty => true
    case Cons(item, rest) => Paired(item.atom) && (KindOf(item.quant) == Maybe ==> Readable(rest))
  }

  // --- bars --------------------------------------------------------------

  /** Neither a bar nor anything the search for one keeps track of. */
  predicate Level(c: char) {
    c !in {'\\', '[', '(', ')', '|'}
  }

  lemma {:induction false} BarAfterText(p: string, i: nat, depth: int, x: string, tail: string, k: nat)
    requires At(p, i, x, tail) && k == i + |x|
    requires forall c :: c in x ==> Level(c)
    ensures NextBar(p, i, depth, false) == NextBar(p, k, depth, false)
    decreases |x|
  {
    if x != "" {
      AtHead(p, i, x, tail);
      assert x[0] in x;
      BarAfterText(p, i + 1, depth, x[1..], tail, k);
    }
  }

  lemma {:induction false} BarAfterMembers(p: string, i: nat, depth: int, members: seq<Member>, tail: string, k: nat)
    requires At(p, i, PrintMembers(members), tail) && k == i + |PrintMembers(members)|
    requires forall k :: 0 <= k < |members| ==> WfMember(members[k])
    ensures NextBar(p, i, depth, true) == NextBar(p, k, depth, true)
    decreases |members|
  {
    if members != [] {
      assert WfMember(members[0]);
      var head := match members[0] case Plain(c) => [c] case Escaped(c) => ['\\', c];
      var rest := PrintMembers(members[1..]);
      AtSplit(p, i, head, rest, tail);
      AtHead(p, i, head, rest + tail);
      BarAfterMembers(p, i + |head|, depth, members[1..], tail, k);
    }
  }

  lemma ClassParts(p: string, i: nat, members: seq<Member>, tail: string)
    requires At(p, i, PrintAtom(Class(members)), tail)
    ensures i < |p| && p[i] == '[' && At(p, i + 1, PrintMembers(members), "]" + tail)
    ensures var end := i + 1 + |PrintMembers(members)|; end < |p| && p[end] == ']'
  {
    var text := PrintMembers(members);
    AtFirst(p, i, '[', text + "]", tail);
    AtSplit(p, i + 1, text, "]", tail);
    AtChar(p, i + 1 + |text|, ']', tail);
  }

  lemma BarAfterClass(p: string, i: nat, depth: int, members: seq<Member>, tail: string, k: nat)
    requires At(p, i, PrintAtom(Class(members)), tail) && k == i + |PrintMembers(members)| + 2
    requires WfAtom(Class(members))
    ensures NextBar(p, i, depth, false) == NextBar(p, k, depth, false)
  {
    ClassParts(p, i, members, tail);
    BarAfterMembers(p, i + 1, depth, members, "]" + tail, k - 1);
  }

  lemma QuantIsLevel(quant: Quant)
    requires WfQuant(quant)
    ensures forall c :: c in PrintQuant(quant) ==> Level(c)
  {
    if quant.Braces? {
      forall c | c in PrintQuant(quant) ensures Level(c) {
        assert c == '{' || c in quant.text || c in "}" + PrintMode(quant.mode);
      }
    }
  }

  lemma PrefixIsLevel(prefix: Prefix)
    requires WfPrefix(prefix)
    ensures forall c :: c in PrintPrefix(prefix) ==> Level(c)
  {
  }

  lemma {:induction false} BarAfterAtom(p: string, i: nat, depth: int, atom: Atom, tail: string, k: nat)
    requires At(p, i, PrintAtom(atom), tail) && WfAtom(atom) && depth >= 0 && k == i + |PrintAtom(atom)|
    ensures NextBar(p, i, depth, false) == NextBar(p, k, depth, false)
    decreases atom, 0
  {
    match atom
    case Lit(c) => AtChar(p, i, c, tail);
    case Esc(c) => AtHead(p, i, ['\\', c], tail);
    case Class(members) => BarAfterClass(p, i, depth, members, tail, k);
    case Group(prefix, body) => BarAfterGroup(p, i, depth, prefix, body, tail, k);
  }

  lemma {:induction false} BarAfterGroup(p: string, i: nat, depth: int, prefix: Prefix, body: Alts, tail: string, k: nat)
    requires At(p, i, PrintAtom(Group(prefix, body)), tail) && WfPrefix(prefix) && WfAlts(body) && depth >= 0
    requires k == i + |PrintAtom(Group(prefix, body))|
    ensures NextBar(p, i, depth, false) == NextBar(p, k, depth, false)
    decreases body, 4
  {
    var from := i + 1 + |PrintPrefix(prefix)|;
    var end := from + |PrintAlts(body)|;
    BarAtBody(p, i, depth, prefix, body, tail, from, end);
    BarAfterAlts(p, from, depth + 1, body, ")" + tail, end);
    BarAtEnd(p, end, depth);
    GroupLength(prefix, body);
  }

  lemma GroupLength(prefix: Prefix, body: Alts)
    ensures |PrintAtom(Group(prefix, body))| == |PrintPrefix(prefix)| + |PrintAlts(body)| + 2
  {
  }

  lemma BarAtEnd(p: string, end: nat, depth: int)
    requires end < |p| && p[end] == ')'
    ensures NextBar(p, end, depth + 1, false) == NextBar(p, end + 1, depth, false)
  {
  }

  lemma BarAtBody(p: string, i: nat, depth: int, prefix: Prefix, body: Alts, tail: string, from: nat, end: nat)
    requires At(p, i, PrintAtom(Group(prefix, body)), tail) && WfPrefix(prefix)
    requires from == i + 1 + |PrintPrefix(prefix)| && end == from + |PrintAlts(body)|
    ensures NextBar(p, i, depth, false) == NextBar(p, from, depth + 1, false)
    ensures At(p, from, PrintAlts(body), ")" + tail) && end < |p| && p[end] == ')'
  {
    GroupParts(p, i, prefix, body, tail);
    BarAtPrefix(p, i, depth, prefix, PrintAlts(body) + (")" + tail), from);
    GroupEnds(p, from, PrintAlts(body), tail);
  }

  lemma BarAtPrefix(p: string, i: nat, depth: int, prefix: Prefix, tail: string, from: nat)
    requires i < |p| && p[i] == '(' && At(p, i + 1, PrintPrefix(prefix), tail) && WfPrefix(prefix)
    requires from == i + 1 + |PrintPrefix(prefix)|
    ensures NextBar(p, i, depth, false) == NextBar(p, from, depth + 1, false)
  {
    PrefixIsLevel(prefix);
    BarAfterText(p, i + 1, depth + 1, PrintPrefix(prefix), tail, from);
  }

  lemma {:induction false} BarAfterItems(p: string, i: nat, depth: int, items: Items, tail: string, k: nat)
    requires At(p, i, PrintItems(items), tail) && WfItems(items) && depth >= 0 && k == i + |PrintItems(items)|
    ensures NextBar(p, i, depth, false) == NextBar(p, k, depth, false)
    decreases items, 2
  {
    match items
    case Empty =>
    case Cons(item, rest) =>
      var j := i + |PrintItem(item)|;
      AtSplit(p, i, PrintItem(item), PrintItems(rest), tail);
      BarAfterItem(p, i, depth, item, PrintItems(rest) + tail, j);
      BarAfterItems(p, j, depth, rest, tail, k);
  }

  lemma {:induction false} BarAfterItem(p: string, i: nat, depth: int, item: Item, tail: string, k: nat)
    requires At(p, i, PrintItem(item), tail) && WfAtom(item.atom) && WfQuant(item.quant) && depth >= 0
    requires k == i + |PrintItem(item)|
    ensures NextBar(p, i, depth, false) == NextBar(p, k, depth, false)
    decreases item, 1
  {
    var j := i + |PrintAtom(item.atom)|;
    AtSplit(p, i, PrintAtom(item.atom), PrintQuant(item.quant), tail);
    BarAfterAtom(p, i, depth, item.atom, PrintQuant(item.quant) + tail, j);
    QuantIsLevel(item.quant);
    BarAfterText(p, j, depth, PrintQuant(item.quant), tail, k);
  }

  /** The branches of a group are passed over: their bars are not at the outer level. */
  lemma {:induction false} BarAfterAlts(p: string, i: nat, depth: int, a: Alts, tail: string, k: nat)
    requires At(p, i, PrintAlts(a), tail) && WfAlts(a) && depth >= 1 && k == i + |PrintAlts(a)|
    ensures NextBar(p, i, depth, false) == NextBar(p, k, depth, false)
    decreases a, 3
  {
    match a
    case One(items) => BarAfterItems(p, i, depth, items, tail, k);
    case Or(first, rest) =>
      var j := i + |PrintItems(first)| + 1;
      BarAfterBranch(p, i, depth, first, PrintAlts(rest), tail, j);
      BarAfterAlts(p, j, depth, rest, tail, k);
  }

  lemma {:induction false} BarAfterBranch(p: string, i: nat, depth: int, first: Items, more: string, tail: string, j: nat)
    requires At(p, i, PrintItems(first) + ("|" + more), tail) && WfItems(first) && depth >= 1
    requires j == i + |PrintItems(first)| + 1
    ensures NextBar(p, i, depth, false) == NextBar(p, j, depth, false) && At(p, j, more, tail)
    decreases first, 3
  {
    BarParts(p, i, PrintItems(first), more, tail);
    BarAfterItems(p, i, depth, first, "|" + more + tail, j - 1);
  }

  /** The first bar of a choice is the one after its first branch. */
  lemma FirstBar(p: string, i: nat, a: Alts)
    requires At(p, i, PrintAlts(a), "") && WfAlts(a)
    ensures a.One? ==> NextBar(p, i, 0, false) == |p|
    ensures a.Or? ==>
      var j := i + |PrintItems(a.first)|;
      j < |p| && NextBar(p, i, 0, false) == j && p[i..j] == PrintItems(a.first) && At(p, j + 1, PrintAlts(a.rest), "")
  {
    match a
    case One(items) =>
      AtPiece(p, i, PrintItems(items), "");
      BarAfterItems(p, i, 0, items, "", |p|);
    case Or(first, rest) =>
      var j := i + |PrintItems(first)|;
      BarParts(p, i, PrintItems(first), PrintAlts(rest), "");
      AtPiece(p, i, PrintItems(first), "|" + PrintAlts(rest) + "");
      BarAfterItems(p, i, 0, first, "|" + PrintAlts(rest) + "", j);
  }

  /** The scan finds a choice exactly where the tree has one. */
  lemma BarMeansChoice(a: Alts)
    requires WfAlts(a)
    ensures HasBar(PrintAlts(a)) <==> a.Or?
  {
    AtMeans(PrintAlts(a), 0, PrintAlts(a), "");
    FirstBar(PrintAlts(a), 0, a);
  }

  // --- single characters -------------------------------------------------

  lemma {:induction false} BracketInMembers(members: seq<Member>)
    requires forall k :: 0 <= k < |members| ==> WfMember(members[k])
    ensures ']' in PrintMembers(members) <==> Escaped(']') in members
    decreases |members|
  {
    if members != [] {
      assert WfMember(members[0]);
      BracketInMembers(members[1..]);
      var head := match members[0] case Plain(c) => [c] case Escaped(c) => ['\\', c];
      assert PrintMembers(members) == head + PrintMembers(members[1..]);
      assert members == [members[0]] + members[1..];
      assert ']' in head <==> members[0] == Escaped(']');
    }
  }

  /** A text that begins with a class is that class alone exactly when the first closing
      bracket is its last character. */
  lemma ClassAlone(members: seq<Member>, more: string)
    requires WfAtom(Class(members))
    ensures var text := PrintAtom(Class(members)) + more;
      Find(text, ']', 0) == |text| - 1 <==> more == "" && Escaped(']') !in members
  {
    var inner := PrintMembers(members);
    var text := PrintAtom(Class(members)) + more;
    BracketInMembers(members);
    var n := 1 + |inner|;
    assert text == "[" + inner + "]" + more;
    assert text[n] == ']';
    assert text[1..n] == inner;
    var k := Find(text, ']', 0);
    if ']' in inner {
      var j :| 0 <= j < |inner| && inner[j] == ']';
      assert text[1..n][j] == ']';
      assert k <= j + 1 < |text| - 1;
    } else {
      assert forall j :: 1 <= j < n ==> text[j] == text[1..n][j - 1] && text[1..n][j - 1] in inner;
      assert k == n;
    }
  }

  lemma ItemsNotEmpty(items: Items)
    ensures PrintItems(items) == "" <==> items == Empty
  {
    if items.Cons? {
      assert |PrintAtom(items.item.atom)| > 0;
      assert |PrintItems(items)| > 0;
    }
  }

  lemma RestIsEmpty(item: Item, rest: Items)
    ensures PrintQuant(item.quant) + PrintItems(rest) == "" <==> item.quant == Bare && rest == Empty
  {
    ItemsNotEmpty(rest);
  }

  /** The text of a branch is one atom exactly when the branch is. */
  lemma SingleText(items: Items)
    requires WfItems(items)
    ensures SingleAtom(PrintItems(items)) <==> Single(items)
  {
    match items
    case Empty =>
    case Cons(item, rest) =>
      var more := PrintQuant(item.quant) + PrintItems(rest);
      assert PrintItems(items) == PrintAtom(item.atom) + more;
      RestIsEmpty(item, rest);
      match item.atom {
        case Lit(c) => assert PrintItems(items)[0] == c;
        case Esc(c) => assert PrintItems(items)[0] == '\\';
        case Class(members) =>
          ClassAlone(members, more);
          assert PrintItems(items)[0] == '[';
        case Group(_, _) => assert PrintItems(items)[0] == '(';
      }
  }

  predicate Fresh(branches: seq<Items>, seen: set<string>) {
    forall k :: 0 <= k < |branches| ==> PrintItems(branches[k]) !in seen
  }

  lemma PrependSingle(first: Items, rest: seq<Items>)
    ensures AllSingle([first] + rest) <==> Single(first) && AllSingle(rest)
  {
    var all := [first] + rest;
    assert all[0] == first;
    if AllSingle(all) {
      forall k | 0 <= k < |rest| ensures Single(rest[k]) {
        assert all[k + 1] == rest[k];
      }
    }
    if Single(first) && AllSingle(rest) {
      forall k | 0 <= k < |all| ensures Single(all[k]) {
        if k > 0 { assert all[k] == rest[k - 1]; }
      }
    }
  }

  lemma PrependFresh(first: Items, rest: seq<Items>, seen: set<string>)
    ensures Apart([first] + rest) && Fresh([first] + rest, seen)
      <==> PrintItems(first) !in seen && Apart(rest) && Fresh(rest, seen + {PrintItems(first)})
  {
    var all := [first] + rest;
    assert all[0] == first;
    assert forall k :: 0 <= k < |rest| ==> all[k + 1] == rest[k];
    assert forall k :: 1 <= k < |all| ==> all[k] == rest[k - 1];
    if Apart(all) && Fresh(all, seen) {
      forall k | 0 <= k < |rest| ensures PrintItems(rest[k]) !in seen + {PrintItems(first)} {
        assert all[k + 1] == rest[k];
      }
      forall j, k | 0 <= j < k < |rest| ensures PrintItems(rest[j]) != PrintItems(rest[k]) {
        assert all[j + 1] == rest[j] && all[k + 1] == rest[k];
      }
    }
    if PrintItems(first) !in seen && Apart(rest) && Fresh(rest, seen + {PrintItems(first)}) {
      forall j, k | 0 <= j < k < |all| ensures PrintItems(all[j]) != PrintItems(all[k]) {
        assert all[k] == rest[k - 1];
        if j > 0 { assert all[j] == rest[j - 1]; }
      }
    }
  }

  /** The branches are single characters, all different and none seen before. */
  predicate Different(branches: seq<Items>, seen: set<string>) {
    AllSingle(branches) && Apart(branches) && Fresh(branches, seen)
  }

  lemma PrependDifferent(first: Items, rest: seq<Items>, seen: set<string>)
    ensures Different([first] + rest, seen)
      <==> Single(first) && PrintItems(first) !in seen && Different(rest, seen + {PrintItems(first)})
  {
    PrependSingle(first, rest);
    PrependFresh(first, rest, seen);
  }

  lemma DistinctLast(p: string, i: nat, items: Items, seen: set<string>)
    requires At(p, i, PrintItems(items), "") && WfItems(items)
    ensures i <= |p|
    ensures Distinct(p, i, seen) <==> Single(items) && PrintItems(items) !in seen
  {
    FirstBar(p, i, One(items));
    AtPiece(p, i, PrintItems(items), "");
    assert i + |PrintItems(items)| == |p|;
    SingleText(items);
  }

  lemma OneBranch(items: Items, seen: set<string>)
    ensures Different([items], seen) <==> Single(items) && PrintItems(items) !in seen
  {
    assert [items][0] == items;
  }

  lemma DistinctStep(p: string, i: nat, j: nat, first: Items, seen: set<string>)
    requires i <= j < |p| && NextBar(p, i, 0, false) == j && p[i..j] == PrintItems(first) && WfItems(first)
    ensures Distinct(p, i, seen)
      == (Single(first) && PrintItems(first) !in seen && Distinct(p, j + 1, seen + {PrintItems(first)}))
  {
    SingleText(first);
  }

  lemma FirstBarOfOr(p: string, i: nat, first: Items, rest: Alts, j: nat)
    requires At(p, i, PrintAlts(Or(first, rest)), "") && WfItems(first) && WfAlts(rest) && j == i + |PrintItems(first)|
    ensures i <= j < |p| && NextBar(p, i, 0, false) == j && p[i..j] == PrintItems(first) && At(p, j + 1, PrintAlts(rest), "")
  {
    FirstBar(p, i, Or(first, rest));
  }

  /** The branches' texts pass exactly when the branches are different single characters. */
  lemma {:induction false} DistinctFrom(p: string, i: nat, a: Alts, seen: set<string>)
    requires At(p, i, PrintAlts(a), "") && WfAlts(a) && i <= |p|
    ensures Distinct(p, i, seen) == Different(Branches(a), seen)
    decreases a, 1
  {
    match a
    case One(items) => DistinctOne(p, i, items, seen);
    case Or(first, rest) => DistinctChoice(p, i, first, rest, seen, i + |PrintItems(first)|);
  }

  lemma {:induction false} DistinctChoice(p: string, i: nat, first: Items, rest: Alts, seen: set<string>, j: nat)
    requires At(p, i, PrintAlts(Or(first, rest)), "") && WfItems(first) && WfAlts(rest) && i <= |p|
    requires j == i + |PrintItems(first)|
    ensures Distinct(p, i, seen) == Different(Branches(Or(first, rest)), seen)
    decreases rest, 2
  {
    RestOfOr(p, i, first, rest, j);
    DistinctFrom(p, j + 1, rest, seen + {PrintItems(first)});
    DistinctOr(p, i, j, first, rest, seen);
  }

  lemma RestOfOr(p: string, i: nat, first: Items, rest: Alts, j: nat)
    requires At(p, i, PrintAlts(Or(first, rest)), "") && WfItems(first) && WfAlts(rest) && j == i + |PrintItems(first)|
    ensures j < |p| && At(p, j + 1, PrintAlts(rest), "")
  {
    FirstBarOfOr(p, i, first, rest, j);
  }

  lemma DistinctOne(p: string, i: nat, items: Items, seen: set<string>)
    requires At(p, i, PrintItems(items), "") && WfItems(items) && i <= |p|
    ensures Distinct(p, i, seen) == Different(Branches(One(items)), seen)
  {
    DistinctLast(p, i, items, seen);
    OneBranch(items, seen);
  }

  lemma DistinctOr(p: string, i: nat, j: nat, first: Items, rest: Alts, seen: set<string>)
    requires At(p, i, PrintAlts(Or(first, rest)), "") && WfItems(first) && WfAlts(rest) && j == i + |PrintItems(first)| < |p|
    requires Distinct(p, j + 1, seen + {PrintItems(first)}) == Different(Branches(rest), seen + {PrintItems(first)})
    ensures i <= |p|
    ensures Distinct(p, i, seen) == Different(Branches(Or(first, rest)), seen)
  {
    FirstBarOfOr(p, i, first, rest, j);
    DistinctStep(p, i, j, first, seen);
    PrependDifferent(first, Branches(rest), seen);
  }

  /** The scan's test for different characters is the tree's. */
  lemma DistinctByTree(a: Alts)
    requires WfAlts(a)
    ensures Distinct(PrintAlts(a), 0, {}) <==> Different(Branches(a), {})
  {
    AtMeans(PrintAlts(a), 0, PrintAlts(a), "");
    DistinctFrom(PrintAlts(a), 0, a, {});
  }

  // --- atoms -------------------------------------------------------------

  lemma {:induction false} ClassEndAfter(p: string, i: nat, members: seq<Member>, tail: string, k: nat)
    requires At(p, i, PrintMembers(members), tail) && k == i + |PrintMembers(members)|
    requires forall k :: 0 <= k < |members| ==> WfMember(members[k])
    ensures ClassEnd(p, i) == ClassEnd(p, k)
    decreases |members|
  {
    if members != [] {
      assert WfMember(members[0]);
      var head := match members[0] case Plain(c) => [c] case Escaped(c) => ['\\', c];
      var rest := PrintMembers(members[1..]);
      AtSplit(p, i, head, rest, tail);
      AtHead(p, i, head, rest + tail);
      ClassEndAfter(p, i + |head|, members[1..], tail, k);
    }
  }

  /** Nothing the search for a closing parenthesis keeps track of. */
  predicate Unpaired(c: char) {
    c !in {'\\', '(', ')'}
  }

  lemma {:induction false} EndAfterText(p: string, i: nat, depth: int, x: string, tail: string, k: nat)
    requires At(p, i, x, tail) && k == i + |x|
    requires forall c :: c in x ==> Unpaired(c)
    ensures GroupEnd(p, i, depth) == GroupEnd(p, k, depth)
    decreases |x|
  {
    if x != "" {
      AtHead(p, i, x, tail);
      assert x[0] in x;
      EndAfterText(p, i + 1, depth, x[1..], tail, k);
    }
  }

  /** The search from one place at this depth, past these parentheses: it ends before the
      other place, or goes on there at the depth they leave. */
  predicate Passes(p: string, i: nat, depth: int, turns: seq<int>, k: nat) {
    if ComesToZero(turns, depth) then i < GroupEnd(p, i, depth) <= k
    else depth + Sum(turns) >= 1 && GroupEnd(p, i, depth) == GroupEnd(p, k, depth + Sum(turns))
  }

  lemma {:induction false} SumAppend(a: seq<int>, b: seq<int>)
    ensures Sum(a + b) == Sum(a) + Sum(b)
    decreases |a|
  {
    if a == [] {
      assert a + b == b;
    } else {
      assert (a + b)[1..] == a[1..] + b;
      SumAppend(a[1..], b);
    }
  }

  lemma {:induction false} ZeroAppend(a: seq<int>, b: seq<int>, depth: int)
    ensures ComesToZero(a + b, depth) <==> ComesToZero(a, depth) || ComesToZero(b, depth + Sum(a))
    decreases |a|
  {
    if a == [] {
      assert a + b == b;
    } else {
      assert (a + b)[1..] == a[1..] + b;
      ZeroAppend(a[1..], b, depth + a[0]);
    }
  }

  lemma PassesBoth(p: string, i: nat, j: nat, k: nat, depth: int, a: seq<int>, b: seq<int>, both: seq<int>)
    requires i <= j <= k && Passes(p, i, depth, a, j) && both == a + b && !ComesToZero(a, depth)
    requires Passes(p, j, depth + Sum(a), b, k)
    ensures Passes(p, i, depth, both, k)
  {
    SumAppend(a, b);
    ZeroAppend(a, b, depth);
  }

  lemma PassesEarly(p: string, i: nat, j: nat, k: nat, depth: int, a: seq<int>, b: seq<int>, both: seq<int>)
    requires i <= j <= k && Passes(p, i, depth, a, j) && both == a + b && ComesToZero(a, depth)
    ensures Passes(p, i, depth, both, k)
  {
    ZeroAppend(a, b, depth);
  }

  lemma PassesText(p: string, i: nat, depth: int, x: string, tail: string, k: nat)
    requires At(p, i, x, tail) && k == i + |x| && depth >= 1
    requires forall c :: c in x ==> Unpaired(c)
    ensures Passes(p, i, depth, [], k)
  {
    EndAfterText(p, i, depth, x, tail, k);
  }

  lemma PassesOpen(p: string, i: nat, depth: int)
    requires i < |p| && p[i] == '(' && depth >= 1
    ensures Passes(p, i, depth, [1], i + 1)
  {
    assert Sum([1][1..]) == 0 && !ComesToZero([1][1..], depth + 1);
  }

  lemma PassesClose(p: string, i: nat, depth: int)
    requires i < |p| && p[i] == ')' && depth >= 1
    ensures Passes(p, i, depth, [-1], i + 1)
  {
    assert Sum([-1][1..]) == 0 && !ComesToZero([-1][1..], depth - 1);
  }

  function MemberText(m: Member): string {
    match m case Plain(c) => [c] case Escaped(c) => ['\\', c]
  }

  function MemberTurn(m: Member): seq<int> {
    if m == Plain('(') then [1] else if m == Plain(')') then [-1] else []
  }

  lemma PassesMember(p: string, i: nat, depth: int, m: Member, tail: string)
    requires At(p, i, MemberText(m), tail) && WfMember(m) && depth >= 1
    ensures Passes(p, i, depth, MemberTurn(m), i + |MemberText(m)|)
  {
    AtHead(p, i, MemberText(m), tail);
    if m == Plain('(') {
      PassesOpen(p, i, depth);
    } else if m == Plain(')') {
      PassesClose(p, i, depth);
    }
  }

  lemma MembersFirst(members: seq<Member>)
    requires members != []
    ensures PrintMembers(members) == MemberText(members[0]) + PrintMembers(members[1..])
    ensures MemberTurns(members) == MemberTurn(members[0]) + MemberTurns(members[1..])
  {
  }

  lemma {:induction false} PassesMembers(p: string, i: nat, depth: int, members: seq<Member>, tail: string, k: nat, turns: seq<int>)
    requires At(p, i, PrintMembers(members), tail) && WfAtom(Class(members)) && depth >= 1
    requires k == i + |PrintMembers(members)| && turns == MemberTurns(members)
    ensures Passes(p, i, depth, turns, k)
    decreases |members|, 0
  {
    if members != [] {
      var m, rest := members[0], members[1..];
      var j, first, others := i + |MemberText(m)|, MemberTurn(m), MemberTurns(rest);
      assert WfMember(m);
      MembersFirst(members);
      AtSplit(p, i, MemberText(m), PrintMembers(rest), tail);
      PassesMember(p, i, depth, m, PrintMembers(rest) + tail);
      PassesOnMembers(p, i, depth, first, j, rest, tail, k, others, turns);
    }
  }

  lemma {:induction false} PassesOnMembers(p: string, i: nat, depth: int, first: seq<int>, j: nat, rest: seq<Member>, tail: string, k: nat,
                                           others: seq<int>, turns: seq<int>)
    requires i <= j && Passes(p, i, depth, first, j) && turns == first + others
    requires At(p, j, PrintMembers(rest), tail) && WfAtom(Class(rest))
    requires k == j + |PrintMembers(rest)| && others == MemberTurns(rest)
    ensures Passes(p, i, depth, turns, k)
    decreases |rest|, 1
  {
    if ComesToZero(first, depth) {
      PassesEarly(p, i, j, k, depth, first, others, turns);
    } else {
      PassesMembers(p, j, depth + Sum(first), rest, tail, k, others);
      PassesBoth(p, i, j, k, depth, first, others, turns);
    }
  }

  lemma PassesClass(p: string, i: nat, depth: int, members: seq<Member>, tail: string, k: nat)
    requires At(p, i, PrintAtom(Class(members)), tail) && WfAtom(Class(members)) && depth >= 1
    requires k == i + |PrintMembers(members)| + 2
    ensures Passes(p, i, depth, MemberTurns(members), k)
  {
    ClassParts(p, i, members, tail);
    PassesMembers(p, i + 1, depth, members, "]" + tail, k - 1, MemberTurns(members));
    assert GroupEnd(p, i, depth) == GroupEnd(p, i + 1, depth);
    var after := depth + Sum(MemberTurns(members));
    assert GroupEnd(p, k - 1, after) == GroupEnd(p, k, after);
  }

  lemma {:induction false} PassesAtom(p: string, i: nat, depth: int, atom: Atom, tail: string, k: nat, turns: seq<int>)
    requires At(p, i, PrintAtom(atom), tail) && WfAtom(atom) && depth >= 1 && k == i + |PrintAtom(atom)|
    requires turns == TurnsAtom(atom)
    ensures Passes(p, i, depth, turns, k)
    decreases atom, 0
  {
    match atom
    case Lit(c) => AtChar(p, i, c, tail);
    case Esc(c) => AtHead(p, i, ['\\', c], tail);
    case Class(members) => PassesClass(p, i, depth, members, tail, k);
    case Group(prefix, body) =>
      GroupLength(prefix, body);
      PassesGroup(p, i, depth, prefix, body, tail, k - 1, TurnsAlts(body));
  }

  /** Where a group's text has its parts, and the search up to its body. */
  lemma EndAtBody(p: string, i: nat, depth: int, prefix: Prefix, body: Alts, tail: string, from: nat, end: nat)
    requires At(p, i, PrintAtom(Group(prefix, body)), tail) && WfPrefix(prefix)
    requires from == i + 1 + |PrintPrefix(prefix)| && end == from + |PrintAlts(body)|
    ensures GroupEnd(p, i, depth) == GroupEnd(p, from, depth + 1)
    ensures i < |p| && p[i] == '(' && At(p, from, PrintAlts(body), ")" + tail) && end < |p| && p[end] == ')'
  {
    GroupParts(p, i, prefix, body, tail);
    EndAtPrefix(p, i, depth, prefix, PrintAlts(body) + (")" + tail), from);
    GroupEnds(p, from, PrintAlts(body), tail);
  }

  lemma EndAtPrefix(p: string, i: nat, depth: int, prefix: Prefix, tail: string, from: nat)
    requires i < |p| && p[i] == '(' && At(p, i + 1, PrintPrefix(prefix), tail) && WfPrefix(prefix)
    requires from == i + 1 + |PrintPrefix(prefix)|
    ensures GroupEnd(p, i, depth) == GroupEnd(p, from, depth + 1)
  {
    PrefixIsLevel(prefix);
    EndAfterText(p, i + 1, depth + 1, PrintPrefix(prefix), tail, from);
  }

  lemma PassesUp(p: string, i: nat, from: nat, depth: int)
    requires i < from && depth >= 1 && GroupEnd(p, i, depth) == GroupEnd(p, from, depth + 1)
    ensures Passes(p, i, depth, [1], from)
  {
    assert Sum([1][1..]) == 0 && !ComesToZero([1][1..], depth + 1);
  }

  lemma {:induction false} PassesGroup(p: string, i: nat, depth: int, prefix: Prefix, body: Alts, tail: string, end: nat, turns: seq<int>)
    requires At(p, i, PrintAtom(Group(prefix, body)), tail) && WfPrefix(prefix) && WfAlts(body) && depth >= 1
    requires end == i + 1 + |PrintPrefix(prefix)| + |PrintAlts(body)| && turns == TurnsAlts(body)
    ensures Passes(p, i, depth, [1] + (turns + [-1]), end + 1)
    decreases body, 4
  {
    var from := i + 1 + |PrintPrefix(prefix)|;
    EndAtBody(p, i, depth, prefix, body, tail, from, end);
    PassesUp(p, i, from, depth);
    PassesBody(p, from, depth + 1, body, tail, end, turns);
    assert Sum([1]) == 1 && [1][1..] == [];
    PassesBoth(p, i, from, end + 1, depth, [1], turns + [-1], [1] + (turns + [-1]));
  }

  lemma {:induction false} PassesBody(p: string, from: nat, depth: int, body: Alts, tail: string, end: nat, turns: seq<int>)
    requires At(p, from, PrintAlts(body), ")" + tail) && WfAlts(body) && depth >= 1 && end < |p| && p[end] == ')'
    requires end == from + |PrintAlts(body)| && turns == TurnsAlts(body)
    ensures Passes(p, from, depth, turns + [-1], end + 1)
    decreases body, 3, 1
  {
    PassesAlts(p, from, depth, body, ")" + tail, end, turns);
    if ComesToZero(turns, depth) {
      PassesEarly(p, from, end, end + 1, depth, turns, [-1], turns + [-1]);
    } else {
      PassesClose(p, end, depth + Sum(turns));
      PassesBoth(p, from, end, end + 1, depth, turns, [-1], turns + [-1]);
    }
  }

  lemma {:induction false} PassesItem(p: string, i: nat, depth: int, item: Item, tail: string, j: nat, k: nat, turns: seq<int>)
    requires At(p, i, PrintItem(item), tail) && WfAtom(item.atom) && WfQuant(item.quant) && depth >= 1
    requires j == i + |PrintAtom(item.atom)| && k == i + |PrintItem(item)| && turns == TurnsAtom(item.atom)
    ensures Passes(p, i, depth, turns, k)
    decreases item, 1
  {
    AtSplit(p, i, PrintAtom(item.atom), PrintQuant(item.quant), tail);
    PassesAtom(p, i, depth, item.atom, PrintQuant(item.quant) + tail, j, turns);
    PassesQuant(p, i, depth, turns, item.quant, tail, j, k);
  }

  lemma PassesQuant(p: string, i: nat, depth: int, turns: seq<int>, quant: Quant, tail: string, j: nat, k: nat)
    requires i <= j && Passes(p, i, depth, turns, j) && At(p, j, PrintQuant(quant), tail) && WfQuant(quant)
    requires k == j + |PrintQuant(quant)|
    ensures Passes(p, i, depth, turns, k)
  {
    QuantIsLevel(quant);
    if ComesToZero(turns, depth) {
      PassesEarly(p, i, j, k, depth, turns, [], turns);
    } else {
      PassesText(p, j, depth + Sum(turns), PrintQuant(quant), tail, k);
      PassesBoth(p, i, j, k, depth, turns, [], turns);
    }
  }

  lemma {:induction false} PassesItems(p: string, i: nat, depth: int, items: Items, tail: string, k: nat, turns: seq<int>)
    requires At(p, i, PrintItems(items), tail) && WfItems(items) && depth >= 1 && k == i + |PrintItems(items)|
    requires turns == TurnsItems(items)
    ensures Passes(p, i, depth, turns, k)
    decreases items, 2
  {
    match items
    case Empty =>
    case Cons(item, rest) =>
      var j := i + |PrintItem(item)|;
      var first, others := TurnsAtom(item.atom), TurnsItems(rest);
      PassesFirst(p, i, depth, item, rest, tail, j, first);
      PassesOnItems(p, i, depth, first, j, rest, tail, k, others, turns);
  }

  lemma {:induction false} PassesFirst(p: string, i: nat, depth: int, item: Item, rest: Items, tail: string, j: nat, first: seq<int>)
    requires At(p, i, PrintItem(item) + PrintItems(rest), tail) && WfAtom(item.atom) && WfQuant(item.quant) && depth >= 1
    requires j == i + |PrintItem(item)| && first == TurnsAtom(item.atom)
    ensures Passes(p, i, depth, first, j) && At(p, j, PrintItems(rest), tail)
    decreases item, 2
  {
    AtSplit(p, i, PrintItem(item), PrintItems(rest), tail);
    PassesItem(p, i, depth, item, PrintItems(rest) + tail, i + |PrintAtom(item.atom)|, j, first);
  }

  lemma {:induction false} PassesOnItems(p: string, i: nat, depth: int, first: seq<int>, j: nat, rest: Items, tail: string, k: nat,
                                         others: seq<int>, turns: seq<int>)
    requires i <= j && Passes(p, i, depth, first, j) && turns == first + others
    requires At(p, j, PrintItems(rest), tail) && WfItems(rest) && k == j + |PrintItems(rest)| && others == TurnsItems(rest)
    ensures Passes(p, i, depth, turns, k)
    decreases rest, 3
  {
    if ComesToZero(first, depth) {
      PassesEarly(p, i, j, k, depth, first, others, turns);
    } else {
      PassesItems(p, j, depth + Sum(first), rest, tail, k, others);
      PassesBoth(p, i, j, k, depth, first, others, turns);
    }
  }

  lemma {:induction false} PassesBranch(p: string, i: nat, depth: int, first: Items, more: string, tail: string, j: nat, turns: seq<int>)
    requires At(p, i, PrintItems(first) + ("|" + more), tail) && WfItems(first) && depth >= 1
    requires j == i + |PrintItems(first)| + 1 && turns == TurnsItems(first)
    ensures Passes(p, i, depth, turns, j) && At(p, j, more, tail)
    decreases first, 3
  {
    BarParts(p, i, PrintItems(first), more, tail);
    PassesItems(p, i, depth, first, "|" + more + tail, j - 1, turns);
    var after := depth + Sum(turns);
    assert GroupEnd(p, j - 1, after) == GroupEnd(p, j, after);
  }

  lemma {:induction false} PassesAlts(p: string, i: nat, depth: int, a: Alts, tail: string, k: nat, turns: seq<int>)
    requires At(p, i, PrintAlts(a), tail) && WfAlts(a) && depth >= 1 && k == i + |PrintAlts(a)|
    requires turns == TurnsAlts(a)
    ensures Passes(p, i, depth, turns, k)
    decreases a, 3, 0
  {
    match a
    case One(items) => PassesItems(p, i, depth, items, tail, k, turns);
    case Or(first, rest) =>
      var j, here, others := i + |PrintItems(first)| + 1, TurnsItems(first), TurnsAlts(rest);
      PassesBranch(p, i, depth, first, PrintAlts(rest), tail, j, here);
      PassesOnAlts(p, i, depth, here, j, rest, tail, k, others, turns);
  }

  lemma {:induction false} PassesOnAlts(p: string, i: nat, depth: int, here: seq<int>, j: nat, rest: Alts, tail: string, k: nat,
                                        others: seq<int>, turns: seq<int>)
    requires i <= j && Passes(p, i, depth, here, j) && turns == here + others
    requires At(p, j, PrintAlts(rest), tail) && WfAlts(rest) && k == j + |PrintAlts(rest)| && others == TurnsAlts(rest)
    ensures Passes(p, i, depth, turns, k)
    decreases rest, 4
  {
    if ComesToZero(here, depth) {
      PassesEarly(p, i, j, k, depth, here, others, turns);
    } else {
      PassesAlts(p, j, depth + Sum(here), rest, tail, k, others);
      PassesBoth(p, i, j, k, depth, here, others, turns);
    }
  }

  lemma GroupEndIs(p: string, i: nat, prefix: Prefix, body: Alts, tail: string, k: nat)
    requires At(p, i, PrintAtom(Group(prefix, body)), tail) && WfPrefix(prefix) && WfAlts(body)
    requires k == i + |PrintAtom(Group(prefix, body))|
    ensures i < |p| && p[i] == '('
    ensures AtomEnd(p, i) == k <==> Paired(Group(prefix, body))
  {
    var from, turns := i + 1 + |PrintPrefix(prefix)|, TurnsAlts(body);
    var end := from + |PrintAlts(body)|;
    GroupLength(prefix, body);
    EndAtBody(p, i, 0, prefix, body, tail, from, end);
    PassesAlts(p, from, 1, body, ")" + tail, end, turns);
    assert AtomEnd(p, i) == GroupEnd(p, from, 1);
  }

  /** The text search finds an atom's end exactly when the parentheses inside it, counted
      wherever they stand, cancel out and never close it early. */
  lemma AtomEndIs(p: string, i: nat, atom: Atom, tail: string, k: nat)
    requires At(p, i, PrintAtom(atom), tail) && WfAtom(atom) && k == i + |PrintAtom(atom)|
    ensures i < |p| && (p[i] == '(' <==> atom.Group?)
    ensures AtomEnd(p, i) == k <==> Paired(atom)
  {
    match atom
    case Lit(c) => AtChar(p, i, c, tail);
    case Esc(c) => AtHead(p, i, ['\\', c], tail); AtPiece(p, i, ['\\', c], tail);
    case Class(members) =>
      ClassParts(p, i, members, tail);
      ClassEndAfter(p, i + 1, members, "]" + tail, k - 1);
    case Group(prefix, body) => GroupEndIs(p, i, prefix, body, tail, k);
  }

  // --- where no class holds a bare parenthesis ----------------------------

  lemma {:induction false} PlainMembers(members: seq<Member>)
    requires PlainAtom(Class(members))
    ensures MemberTurns(members) == []
    decreases |members|
  {
    if members != [] {
      assert members[0] != Plain('(') && members[0] != Plain(')');
      assert PlainAtom(Class(members[1..]));
      PlainMembers(members[1..]);
    }
  }

  /** The parentheses cancel out from any depth without coming to nothing. */
  ghost predicate Balanced(turns: seq<int>) {
    Sum(turns) == 0 && forall depth: int :: depth >= 1 ==> !ComesToZero(turns, depth)
  }

  lemma LevelBoth(a: seq<int>, b: seq<int>)
    requires Balanced(a) && Balanced(b)
    ensures Balanced(a + b)
  {
    SumAppend(a, b);
    forall depth: int | depth >= 1 ensures !ComesToZero(a + b, depth) {
      ZeroAppend(a, b, depth);
    }
  }

  lemma LevelAround(turns: seq<int>)
    requires Balanced(turns)
    ensures Balanced([1] + (turns + [-1]))
  {
    var all, inner := [1] + (turns + [-1]), turns + [-1];
    assert all[1..] == inner && Sum([-1]) == -1 by { assert Sum([-1][1..]) == 0; }
    SumAppend(turns, [-1]);
    forall depth: int | depth >= 1 ensures !ComesToZero(all, depth) {
      ZeroAppend(turns, [-1], depth + 1);
      assert [-1][1..] == [];
    }
  }

  lemma {:induction false} PlainIsLevel(a: Alts)
    requires PlainAlts(a)
    ensures Balanced(TurnsAlts(a))
    decreases a, 2
  {
    match a
    case One(items) => PlainItemsLevel(items);
    case Or(first, rest) =>
      PlainItemsLevel(first);
      PlainIsLevel(rest);
      LevelBoth(TurnsItems(first), TurnsAlts(rest));
  }

  lemma {:induction false} PlainItemsLevel(items: Items)
    requires PlainItems(items)
    ensures Balanced(TurnsItems(items))
    decreases items, 1
  {
    match items
    case Empty =>
    case Cons(item, rest) =>
      PlainItemsLevel(rest);
      match item.atom {
        case Class(members) => PlainMembers(members);
        case Group(_, body) =>
          PlainIsLevel(body);
          LevelAround(TurnsAlts(body));
        case _ =>
      }
      LevelBoth(TurnsAtom(item.atom), TurnsItems(rest));
  }

  /** An atom is paired where no class in it holds a bare parenthesis. */
  lemma PlainIsPaired(atom: Atom)
    requires PlainAtom(atom)
    ensures Paired(atom)
  {
    if atom.Group? {
      PlainIsLevel(atom.body);
    }
  }

  // --- quantifiers -------------------------------------------------------

  function KindOf(quant: Quant): Quantifier {
    match quant
    case Bare => Once
    case Star(_) => Maybe
    case Optional(_) => Maybe
    case Plus(_) => Repeatable
    case Braces(text, _) => if UnboundedText(text) then Repeatable else Once
  }

  lemma KindIsRead(p: string, i: nat, quant: Quant, tail: string)
    requires At(p, i, PrintQuant(quant), tail) && WfQuant(quant) && TailOk(tail)
    ensures QuantifierAt(p, i) == KindOf(quant)
  {
    if quant.Bare? {
      AtNothing(p, i, tail);
    } else {
      SignAndMode(quant);
      AtSplit(p, i, PrintSign(quant), PrintMode(quant.mode), tail);
      match quant {
        case Braces(text, mode) => BraceIsUnbounded(p, i, text, PrintMode(mode) + tail);
        case _ => AtHead(p, i, PrintQuant(quant), tail);
      }
    }
  }

  /** A quantifier that lets its atom be left out is skipped whole. */
  lemma WidthIsRead(p: string, i: nat, quant: Quant, tail: string)
    requires At(p, i, PrintQuant(quant), tail) && WfQuant(quant) && TailOk(tail) && (quant.Star? || quant.Optional?)
    ensures i + QuantifierWidth(p, i) == i + |PrintQuant(quant)|
  {
    SignAndMode(quant);
    assert i < |p| && (p[i] == '*' || p[i] == '?') && At(p, i + 1, PrintMode(quant.mode), tail) by {
      AtFirst(p, i, PrintSign(quant)[0], PrintMode(quant.mode), tail);
    }
    ModeIsRead(p, i + 1, quant.mode, tail);
  }

  lemma ModeIsRead(p: string, i: nat, mode: Mode, tail: string)
    requires At(p, i, PrintMode(mode), tail) && TailOk(tail)
    ensures i < |p| && (p[i] == '?' || p[i] == '+') <==> mode != Greedy
    ensures |PrintMode(mode)| == if mode == Greedy then 0 else 1
  {
    if mode == Greedy {
      AtNothing(p, i, tail);
    } else {
      AtHead(p, i, PrintMode(mode), tail);
    }
  }

  // --- the answer --------------------------------------------------------

  /** An atom and its quantifier are read off the text as the tree has them. */
  lemma ItemIsRead(p: string, i: nat, item: Item, tail: string, j: nat, k: nat)
    requires At(p, i, PrintItem(item), tail) && TailOk(tail)
    requires WfAtom(item.atom) && WfQuant(item.quant) && Paired(item.atom)
    requires j == i + |PrintAtom(item.atom)| && k == i + |PrintItem(item)|
    ensures i < |p| && AtomEnd(p, i) == j && (p[i] == '(' <==> item.atom.Group?)
    ensures QuantifierAt(p, j) == KindOf(item.quant)
    ensures KindOf(item.quant) == Maybe ==> j + QuantifierWidth(p, j) == k
  {
    AtSplit(p, i, PrintAtom(item.atom), PrintQuant(item.quant), tail);
    AtomEndIs(p, i, item.atom, PrintQuant(item.quant) + tail, j);
    KindIsRead(p, j, item.quant, tail);
    if item.quant.Star? || item.quant.Optional? {
      WidthIsRead(p, j, item.quant, tail);
    }
  }

  lemma MarkedStep(p: string, i: nat, j: nat, k: nat, kind: Quantifier)
    requires i < |p| && AtomEnd(p, i) == j && QuantifierAt(p, j) == kind && i < j
    requires kind == Maybe ==> k == j + QuantifierWidth(p, j)
    ensures Marked(p, i) == match kind case Maybe => Marked(p, k) case Repeatable => false case Once => p[i] != '('
  {
  }

  lemma MarkedCons(item: Item, rest: Items)
    ensures MarkedItems(Cons(item, rest))
      == match KindOf(item.quant) case Maybe => MarkedItems(rest) case Repeatable => false case Once => !item.atom.Group?
  {
  }

  /** The walk over a body's text to its marker follows the tree. */
  lemma {:induction false} MarkedFrom(p: string, i: nat, items: Items)
    requires At(p, i, PrintItems(items), "") && WfItems(items) && Readable(items)
    ensures Marked(p, i) == MarkedItems(items)
    decreases items
  {
    match items
    case Empty => AtNothing(p, i, "");
    case Cons(item, rest) =>
      var j, k := i + |PrintAtom(item.atom)|, i + |PrintItem(item)|;
      AtSplit(p, i, PrintItem(item), PrintItems(rest), "");
      ItemsTailOk(rest, "");
      ItemIsRead(p, i, item, PrintItems(rest) + "", j, k);
      MarkedStep(p, i, j, k, KindOf(item.quant));
      MarkedCons(item, rest);
      if KindOf(item.quant) == Maybe {
        MarkedFrom(p, k, rest);
      }
  }

  /** A body is safe to repeat by its text exactly when it is by its tree. */
  lemma AnchoredByTree(a: Alts)
    requires WfAlts(a) && (a.One? ==> Readable(a.items))
    ensures Anchored(PrintAlts(a)) <==> AnchoredAlts(a)
  {
    var p := PrintAlts(a);
    AtMeans(p, 0, p, "");
    BarMeansChoice(a);
    match a
    case One(items) =>
      MarkedFrom(p, 0, items);
      ItemsNotEmpty(items);
    case Or(first, rest) =>
      DistinctByTree(a);
      assert Fresh(Branches(a), {});
      assert p != "";
  }
}
