/** What the scan for nested ambiguity promises: by the tree, from either way of writing a
    pattern down, and what its notion of a safe body is worth. */
module Redos {
  import opened Regex
  import opened Scanner
  import opened Places
  import opened Scanning
  import opened Anchoring
  import opened Language

  // --- by the tree -------------------------------------------------------

  /** Some repeated group, at any depth, holds a choice or a repetition and neither begins
      with a marker nor is a choice of different single characters. */
  predicate NestedAlts(a: Alts) {
    match a
    case One(items) => NestedItems(items)
    case Or(first, rest) => NestedItems(first) || NestedAlts(rest)
  }

  predicate NestedItems(items: Items) {
    match items
    case Empty => false
    case Cons(item, rest) => NestedItem(item) || NestedItems(rest)
  }

  predicate NestedItem(item: Item) {
    item.atom.Group? &&
    (NestedAlts(item.atom.body) || (Many(item.quant) && RiskyAlts(item.atom.body) && !AnchoredAlts(item.atom.body)))
  }

  /** In the body of every group the scan weighs, the atoms up to the first that must match
      are paired. */
  predicate PairedAlts(a: Alts) {
    match a
    case One(items) => PairedItems(items)
    case Or(first, rest) => PairedItems(first) && PairedAlts(rest)
  }

  predicate PairedItems(items: Items) {
    match items
    case Empty => true
    case Cons(item, rest) => PairedItem(item) && PairedItems(rest)
  }

  predicate PairedItem(item: Item) {
    match item.atom
    case Group(_, body) => (Weighs(item.quant, body) && body.One? ==> Readable(body.items)) && PairedAlts(body)
    case _ => true
  }

  lemma {:induction false} AmbiguousIsNested(a: Alts)
    requires WfAlts(a) && PairedAlts(a)
    ensures AmbiguousAlts(a) <==> NestedAlts(a)
    decreases a, 1
  {
    match a
    case One(items) => AmbiguousItemsNested(items);
    case Or(first, rest) =>
      AmbiguousItemsNested(first);
      AmbiguousIsNested(rest);
  }

  lemma {:induction false} AmbiguousItemsNested(items: Items)
    requires WfItems(items) && PairedItems(items)
    ensures AmbiguousItems(items) <==> NestedItems(items)
    decreases items, 0
  {
    match items
    case Empty =>
    case Cons(item, rest) =>
      AmbiguousItemsNested(rest);
      if item.atom.Group? {
        AmbiguousIsNested(item.atom.body);
        if Weighs(item.quant, item.atom.body) {
          AnchoredByTree(item.atom.body);
        }
      }
  }

  /** A tree in which no class holds a bare parenthesis is paired throughout. */
  lemma {:induction false} PlainIsReadable(items: Items)
    requires PlainItems(items)
    ensures Readable(items)
  {
    if items.Cons? {
      PlainIsPaired(items.item.atom);
      PlainIsReadable(items.rest);
    }
  }

  lemma {:induction false} PlainTreePaired(a: Alts)
    requires PlainAlts(a)
    ensures PairedAlts(a)
    decreases a, 1
  {
    match a
    case One(items) => PlainItemsPaired(items);
    case Or(first, rest) =>
      PlainItemsPaired(first);
      PlainTreePaired(rest);
  }

  lemma {:induction false} PlainItemsPaired(items: Items)
    requires PlainItems(items)
    ensures PairedItems(items)
    decreases items, 0
  {
    match items
    case Empty =>
    case Cons(item, rest) =>
      PlainItemsPaired(rest);
      if item.atom.Group? {
        PlainTreePaired(item.atom.body);
        if item.atom.body.One? { PlainIsReadable(item.atom.body.items); }
      }
  }

  // --- a pattern and its literal -----------------------------------------

  /** Stripping leaves a pattern as it is exactly when it holds no slash. */
  lemma StrippedBare(s: string)
    ensures Stripped(s) == s <==> '/' !in s
  {
    if '/' in s {
      var j :| 0 <= j < |s| && s[j] == '/';
      if s[0] == '/' {
        assert |Stripped(s)| < |s|;
      } else {
        assert LastIndex(s, '/') >= j > 0;
      }
    } else if s != "" {
      assert s[0] in s;
    }
  }

  /** Stripping a literal gives its body back exactly when the body is not empty. */
  lemma StrippedLiteral(s: string, flags: string)
    requires '/' !in flags
    ensures Stripped("/" + s + "/" + flags) == s <==> s != ""
  {
    var pattern := "/" + s + "/" + flags;
    var p := pattern[1..];
    assert p == s + "/" + flags;
    assert p[|s|] == '/';
    forall j | |s| < j < |p| ensures p[j] != '/' {
      assert p[j] == flags[j - |s| - 1];
      assert flags[j - |s| - 1] in flags;
    }
    LastIndexIs(p, '/', |s|);
    assert p[..|s|] == s;
  }

  // --- the answers -------------------------------------------------------

  function Answer(found: bool): Outcome {
    if found then Ambiguous else Clear
  }

  /** The scan's answer for a pattern written bare, with no slash in it. */
  lemma BarePattern(t: Alts)
    requires WfAlts(t) && SettledAlts(t, "") && PairedAlts(t) && '/' !in PrintAlts(t)
    ensures Run(Stripped(PrintAlts(t)), 0, [], false) == Answer(NestedAlts(t))
  {
    StrippedBare(PrintAlts(t));
    ScanFindsAmbiguity(t);
    AmbiguousIsNested(t);
  }

  /** The scan's answer for a pattern written as a literal with flags. */
  lemma LiteralPattern(t: Alts, flags: string)
    requires WfAlts(t) && SettledAlts(t, "") && PairedAlts(t) && PrintAlts(t) != "" && '/' !in flags
    ensures Run(Stripped("/" + PrintAlts(t) + "/" + flags), 0, [], false) == Answer(NestedAlts(t))
  {
    StrippedLiteral(PrintAlts(t), flags);
    ScanFindsAmbiguity(t);
    AmbiguousIsNested(t);
  }

  // --- where the conditions are needed -----------------------------------

  function Many1(c: char): Item { Item(Lit(c), Plus(Greedy)) }

  lemma LeafIsClear(c: char, quant: Quant, rest: Items, tail: string)
    ensures VerdictItems(Cons(Item(Lit(c), quant), rest), tail) == VerdictItems(rest, tail)
    ensures SettledItems(Cons(Item(Lit(c), quant), rest), tail) <==> SettledItems(rest, tail)
  {
  }

  /** A lookbehind with an angle bracket after it: `(?<=a+)+>`. */
  lemma LookbehindCrashes()
    ensures var t := One(Cons(Item(Group(Behind, One(Whole(Many1('a')))), Plus(Greedy)), Whole(Char('>'))));
      WfAlts(t) && NestedAlts(t) && Run(PrintAlts(t), 0, [], false) == Crash
  {
    var body := One(Whole(Many1('a')));
    var item := Item(Group(Behind, body), Plus(Greedy));
    var rest := Whole(Char('>'));
    var t := One(Cons(item, rest));
    ScanReadsTheTree(t);
    var tail := PrintQuant(item.quant) + (PrintItems(rest) + "");
    assert PrintItems(rest) == ">";
    assert tail[1] == '>';
    assert PrintAlts(body) == "a+";
    assert Seen(Behind, PrintAlts(body), tail) == Nowhere;
    LeafIsClear('a', Plus(Greedy), Empty, ")" + tail);
    LeafIsClear('>', Bare, Empty, "");
    assert VerdictAtom(item.atom, item.quant, tail) == Crash;
  }

  /** `(a+)+` */
  function Doubled(): Item {
    Item(Group(Capture, One(Whole(Many1('a')))), Plus(Greedy))
  }

  /** `x/(a+)+` */
  function Slashed(): Alts {
    One(Cons(Char('x'), Cons(Char('/'), Whole(Doubled()))))
  }

  lemma DoubledIsNested()
    ensures NestedItem(Doubled()) && PrintItem(Doubled()) == "(a+)+" && SettledItems(Whole(Doubled()), "")
  {
    var tail := PrintQuant(Doubled().quant) + (PrintItems(Empty) + "");
    LeafIsClear('a', Plus(Greedy), Empty, ")" + tail);
    assert SettledAtom(Doubled().atom, Doubled().quant, tail);
    assert PrintAlts(Doubled().atom.body) == "a+";
  }

  lemma SlashedShape()
    ensures WfAlts(Slashed()) && NestedAlts(Slashed()) && PairedAlts(Slashed()) && PrintAlts(Slashed()) == "x/(a+)+"
  {
    DoubledIsNested();
    var rest := Cons(Char('/'), Whole(Doubled()));
    assert PrintItems(rest) == "/(a+)+";
    assert NestedItems(rest) && WfItems(rest);
  }

  lemma SlashedIsSettled()
    ensures SettledAlts(Slashed(), "")
  {
    DoubledIsNested();
    LeafIsClear('/', Bare, Whole(Doubled()), "");
    LeafIsClear('x', Bare, Cons(Char('/'), Whole(Doubled())), "");
  }

  lemma SlashedIsAmbiguous()
    ensures WfAlts(Slashed()) && NestedAlts(Slashed()) && PrintAlts(Slashed()) == "x/(a+)+"
    ensures Run(PrintAlts(Slashed()), 0, [], false) == Ambiguous
  {
    SlashedShape();
    SlashedIsSettled();
    ScanFindsAmbiguity(Slashed());
    AmbiguousIsNested(Slashed());
  }

  /** A bare pattern with a slash is cut at it, and what is left may be safe. */
  lemma SlashCuts()
    ensures WfAlts(Slashed()) && NestedAlts(Slashed())
    ensures Run(PrintAlts(Slashed()), 0, [], false) == Ambiguous && Run(Stripped(PrintAlts(Slashed())), 0, [], false) == Clear
  {
    SlashedIsAmbiguous();
    var x := One(Whole(Char('x')));
    LastIndexIs(PrintAlts(Slashed()), '/', 1);
    assert Stripped(PrintAlts(Slashed())) == "x" == PrintAlts(x);
    ScanFindsAmbiguity(x);
  }

  /** A parenthesis in a class inside an optional group hides the marker: `([)])*xa+`. */
  lemma ClassHidesMarker()
    ensures var a := One(Cons(Item(Group(Capture, One(Whole(Item(Class([Plain(')')]), Bare)))), Star(Greedy)),
                         Cons(Char('x'), Whole(Many1('a')))));
      WfAlts(a) && AnchoredAlts(a) && !Anchored(PrintAlts(a))
  {
    var inner := One(Whole(Item(Class([Plain(')')]), Bare)));
    var group := Item(Group(Capture, inner), Star(Greedy));
    var a := One(Cons(group, Cons(Char('x'), Whole(Many1('a')))));
    assert PrintMembers([Plain(')')]) == ")";
    assert PrintAlts(inner) == "[)]";
    assert PrintItem(group) == "([)])*";
    var p := PrintAlts(a);
    assert p == "([)])*xa+";
    BarMeansChoice(a);
    assert GroupEnd(p, 2, 1) == 3;
    assert GroupEnd(p, 0, 0) == 3;
    assert AtomEnd(p, 0) == 3;
    assert QuantifierAt(p, 3) == Once;
  }

  // --- a choice of single characters --------------------------------------

  /** One repetition of a choice: the branch it takes and the text the branch matches. */
  datatype Turn = Turn(branch: nat, text: string)

  /** Each turn takes a branch there is and matches a word of it. */
  ghost predicate Takes(mn: Meaning, branches: seq<Items>, turns: seq<Turn>) {
    forall k :: 0 <= k < |turns| ==> turns[k].branch < |branches| && InItems(mn, branches[turns[k].branch], turns[k].text)
  }

  function TextOf(turns: seq<Turn>): string {
    if turns == [] then "" else turns[0].text + TextOf(turns[1..])
  }

  /** Repeating the choice matches no input in two ways. */
  ghost predicate OneWay(mn: Meaning, branches: seq<Items>) {
    forall turns, others ::
      Takes(mn, branches, turns) && Takes(mn, branches, others) && TextOf(turns) == TextOf(others) ==> turns == others
  }

  /** Whether a branch that is one atom matches this character. */
  predicate Accepts(mn: Meaning, branch: Items, x: char) {
    branch.Cons? && mn.accepts(branch.item.atom, x)
  }

  /** Every branch matches a character, and no two the same one. */
  ghost predicate NothingInCommon(mn: Meaning, branches: seq<Items>) {
    && (forall k :: 0 <= k < |branches| && branches[k].Cons? ==> !mn.blank(branches[k].item.atom))
    && forall j, k, x :: 0 <= j < k < |branches| ==> !(Accepts(mn, branches[j], x) && Accepts(mn, branches[k], x))
  }

  /** The words of a single atom: one character it accepts, or none. */
  lemma SingleWords(mn: Meaning, branch: Items, w: string)
    requires Single(branch)
    ensures InItems(mn, branch, w) <==> (w == "" && mn.blank(branch.item.atom)) || (|w| == 1 && Accepts(mn, branch, w[0]))
  {
    var item := branch.item;
    if InItems(mn, branch, w) {
      var k :| 0 <= k <= |w| && InItem(mn, item, w[..k]) && InItems(mn, Empty, w[k..]);
      assert w[..k] == w;
      OnceIsAtom(mn, item.atom, w);
    }
    if InAtom(mn, item.atom, w) {
      AtomIsOnce(mn, item.atom, w);
      assert w[..|w|] == w && w[|w|..] == "";
    }
  }

  lemma OnceIsAtom(mn: Meaning, atom: Atom, w: string)
    requires InItem(mn, Item(atom, Bare), w)
    ensures InAtom(mn, atom, w)
  {
    assert InTimes(mn, atom, 1, w);
    var k :| 0 <= k <= |w| && InAtom(mn, atom, w[..k]) && InTimes(mn, atom, 0, w[k..]);
    assert w[..k] == w;
  }

  lemma AtomIsOnce(mn: Meaning, atom: Atom, w: string)
    requires InAtom(mn, atom, w)
    ensures InItem(mn, Item(atom, Bare), w)
  {
    assert w[..|w|] == w && w[|w|..] == "";
    assert InTimes(mn, atom, 0, w[|w|..]) && InTimes(mn, atom, 1, w);
    assert Allows(mn, Bare, 1);
  }

  /** A turn of such a choice takes one character, which says which branch it was. */
  lemma TurnIsRead(mn: Meaning, branches: seq<Items>, turn: Turn, more: string, other: Turn, others: string)
    requires AllSingle(branches) && NothingInCommon(mn, branches)
    requires Takes(mn, branches, [turn]) && Takes(mn, branches, [other]) && turn.text + more == other.text + others
    ensures turn == other && more == others && turn.text != ""
  {
    assert [turn][0] == turn && [other][0] == other;
    SingleWords(mn, branches[turn.branch], turn.text);
    SingleWords(mn, branches[other.branch], other.text);
    var w := turn.text + more;
    assert turn.text == w[..1] == other.text && more == w[1..] == others;
  }

  lemma TakesFirst(mn: Meaning, branches: seq<Items>, turns: seq<Turn>)
    requires Takes(mn, branches, turns) && turns != []
    ensures Takes(mn, branches, [turns[0]]) && Takes(mn, branches, turns[1..])
  {
  }

  lemma {:induction false} TurnsAgree(mn: Meaning, branches: seq<Items>, turns: seq<Turn>, others: seq<Turn>)
    requires AllSingle(branches) && NothingInCommon(mn, branches)
    requires Takes(mn, branches, turns) && Takes(mn, branches, others) && TextOf(turns) == TextOf(others)
    ensures turns == others
    decreases |turns|
  {
    if turns != [] { TakesFirst(mn, branches, turns); TurnIsRead(mn, branches, turns[0], "", turns[0], ""); }
    if others != [] { TakesFirst(mn, branches, others); TurnIsRead(mn, branches, others[0], "", others[0], ""); }
    if turns != [] && others != [] {
      TurnIsRead(mn, branches, turns[0], TextOf(turns[1..]), others[0], TextOf(others[1..]));
      TurnsAgree(mn, branches, turns[1..], others[1..]);
      assert turns == [turns[0]] + turns[1..] && others == [others[0]] + others[1..];
    }
  }

  /** Any branch that can match nothing may be taken any number of times. */
  lemma BlankTwice(mn: Meaning, branches: seq<Items>, k: nat)
    requires k < |branches| && InItems(mn, branches[k], "")
    ensures !OneWay(mn, branches)
  {
    var turns: seq<Turn>, none: seq<Turn> := [Turn(k, "")], [];
    assert turns[1..] == [];
    assert Takes(mn, branches, turns) && Takes(mn, branches, none) && TextOf(turns) == TextOf(none);
    assert |turns| != |none|;
  }

  /** Any two branches with a word in common match it either way. */
  lemma CommonTwice(mn: Meaning, branches: seq<Items>, j: nat, k: nat, w: string)
    requires j < k < |branches| && InItems(mn, branches[j], w) && InItems(mn, branches[k], w)
    ensures !OneWay(mn, branches)
  {
    var turns, others := [Turn(j, w)], [Turn(k, w)];
    assert turns[1..] == [] && others[1..] == [];
    assert Takes(mn, branches, turns) && Takes(mn, branches, others) && TextOf(turns) == TextOf(others);
    assert turns[0] != others[0];
  }

  /** Repeating a choice of single atoms matches every input in at most one way exactly when
      none of them can match nothing and no two accept one character. */
  lemma SinglesMatchOnceExactly(mn: Meaning, branches: seq<Items>)
    requires AllSingle(branches)
    ensures OneWay(mn, branches) <==> NothingInCommon(mn, branches)
  {
    if NothingInCommon(mn, branches) {
      forall turns, others | Takes(mn, branches, turns) && Takes(mn, branches, others) && TextOf(turns) == TextOf(others)
        ensures turns == others
      {
        TurnsAgree(mn, branches, turns, others);
      }
    } else if k :| 0 <= k < |branches| && mn.blank(branches[k].item.atom) {
      SingleWords(mn, branches[k], "");
      BlankTwice(mn, branches, k);
    } else {
      var j, k, x :| 0 <= j < k < |branches| && Accepts(mn, branches[j], x) && Accepts(mn, branches[k], x);
      SingleWords(mn, branches[j], [x]);
      SingleWords(mn, branches[k], [x]);
      CommonTwice(mn, branches, j, k, [x]);
    }
  }

  /** And so, exactly then, does a choice the scan calls anchored. */
  lemma AnchoredChoiceMatchesOnceExactly(mn: Meaning, a: Alts)
    requires a.Or? && WfAlts(a) && Anchored(PrintAlts(a))
    ensures OneWay(mn, Branches(a)) <==> NothingInCommon(mn, Branches(a))
  {
    AnchoredByTree(a);
    SinglesMatchOnceExactly(mn, Branches(a));
  }

  /** A character written as it is stands for itself. */
  predicate Literally(mn: Meaning) {
    forall c :: c !in {'.', '^', '$'} ==> !mn.blank(Lit(c)) && forall x :: mn.accepts(Lit(c), x) <==> c == x
  }

  predicate IsLiteral(branch: Items) {
    branch.Cons? && branch.rest == Empty && branch.item.quant == Bare && branch.item.atom.Lit?
    && branch.item.atom.c !in {'.', '^', '$'}
  }

  predicate AllLiteral(branches: seq<Items>) {
    forall k :: 0 <= k < |branches| ==> IsLiteral(branches[k])
  }

  lemma LiteralText(branch: Items)
    requires IsLiteral(branch)
    ensures PrintItems(branch) == [branch.item.atom.c] && Single(branch)
  {
    var c := branch.item.atom.c;
    assert branch == Cons(Item(Lit(c), Bare), Empty);
    assert PrintItem(Item(Lit(c), Bare)) == [c];
  }

  /** Of literal characters, that is that they are all different. */
  lemma LiteralsMatchOnce(mn: Meaning, branches: seq<Items>)
    requires Literally(mn) && AllLiteral(branches)
    ensures OneWay(mn, branches) <==> Apart(branches)
  {
    forall k | 0 <= k < |branches|
      ensures PrintItems(branches[k]) == [branches[k].item.atom.c] && Single(branches[k])
      ensures Accepts(mn, branches[k], branches[k].item.atom.c) && !mn.blank(branches[k].item.atom)
    {
      assert IsLiteral(branches[k]);
      LiteralText(branches[k]);
    }
    SinglesMatchOnceExactly(mn, branches);
  }

  /** On literal branches the scan's test for different characters decides it. */
  lemma DistinctMatchesOnce(mn: Meaning, a: Alts)
    requires Literally(mn) && WfAlts(a) && AllLiteral(Branches(a))
    ensures Distinct(PrintAlts(a), 0, {}) <==> OneWay(mn, Branches(a))
  {
    DistinctByTree(a);
    LiteralsMatchOnce(mn, Branches(a));
    forall k | 0 <= k < |Branches(a)| ensures Single(Branches(a)[k]) {
      assert IsLiteral(Branches(a)[k]);
    }
  }

  /** `[ab]` and `[bc]` */
  function FirstClass(): Items { Whole(Item(Class([Plain('a'), Plain('b')]), Bare)) }

  function SecondClass(): Items { Whole(Item(Class([Plain('b'), Plain('c')]), Bare)) }

  function Overlap(): Alts { Or(FirstClass(), One(SecondClass())) }

  lemma OverlapIsDifferent()
    ensures WfAlts(Overlap()) && Branches(Overlap()) == [FirstClass(), SecondClass()]
    ensures Different(Branches(Overlap()), {})
  {
    assert PrintItems(FirstClass())[1] == 'a' && PrintItems(SecondClass())[1] == 'b';
    assert Single(FirstClass()) && Single(SecondClass());
  }

  /** Overlapping classes pass the test and match in two ways: `[ab]|[bc]`. */
  lemma OverlapPasses(mn: Meaning)
    requires mn.accepts(FirstClass().item.atom, 'b') && mn.accepts(SecondClass().item.atom, 'b')
    ensures Distinct(PrintAlts(Overlap()), 0, {}) && Anchored(PrintAlts(Overlap())) && !OneWay(mn, Branches(Overlap()))
  {
    OverlapIsDifferent();
    DistinctByTree(Overlap());
    AnchoredByTree(Overlap());
    var first, second := Branches(Overlap())[0], Branches(Overlap())[1];
    assert Accepts(mn, first, 'b') && Accepts(mn, second, 'b');
    AnchoredChoiceMatchesOnceExactly(mn, Overlap());
  }
}
