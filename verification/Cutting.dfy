/** What the scan answers for a pattern it has cut at a slash, by the tree of the whole. */
module Cutting {
  import opened Regex
  import opened Scanner
  import opened Places
  import opened Scanning

  /** The groups that close before the last m characters, each as it is read without them. */
  function Before(cs: seq<Closing>, m: nat): seq<Closing> {
    if cs == [] then []
    else
      var c := cs[0];
      (if |c.tail| >= m then [c.(tail := c.tail[..|c.tail| - m])] else []) + Before(cs[1..], m)
  }

  lemma {:induction false} BeforeBoth(a: seq<Closing>, b: seq<Closing>, m: nat)
    ensures Before(a + b, m) == Before(a, m) + Before(b, m)
    decreases |a|
  {
    if a == [] {
      assert a + b == b;
    } else {
      assert (a + b)[1..] == a[1..] + b;
      BeforeBoth(a[1..], b, m);
    }
  }

  lemma NoneAfter(a: seq<Closing>, b: seq<Closing>, m: nat)
    requires Before(b, m) == []
    ensures Before(a + b, m) == Before(a, m)
  {
    BeforeBoth(a, b, m);
    assert Before(a, m) + [] == Before(a, m);
  }

  // --- groups before the cut, and after it ---------------------------------

  lemma CutTail(x: string, tail: string, m: nat)
    requires m <= |tail|
    ensures (x + tail)[..|x + tail| - m] == x + tail[..|tail| - m]
  {
  }

  lemma CutTwice(x: string, y: string, tail: string, m: nat)
    requires m <= |tail|
    ensures (x + (y + tail))[..|x + (y + tail)| - m] == x + (y + tail[..|tail| - m])
  {
    CutTail(y, tail, m);
    CutTail(x, y + tail, m);
  }

  /** Groups of a piece that stands before the cut close before it. */
  lemma {:induction false} AltsBefore(a: Alts, tail: string, m: nat)
    requires m <= |tail|
    ensures Before(ClosingsAlts(a, tail), m) == ClosingsAlts(a, tail[..|tail| - m])
    decreases a, 2
  {
    match a
    case One(items) => ItemsBefore(items, tail, m);
    case Or(first, rest) =>
      var x := "|" + PrintAlts(rest);
      ItemsBefore(first, x + tail, m);
      CutTail(x, tail, m);
      AltsBefore(rest, tail, m);
      BeforeBoth(ClosingsItems(first, x + tail), ClosingsAlts(rest, tail), m);
  }

  lemma {:induction false} ItemsBefore(items: Items, tail: string, m: nat)
    requires m <= |tail|
    ensures Before(ClosingsItems(items, tail), m) == ClosingsItems(items, tail[..|tail| - m])
    decreases items, 1
  {
    match items
    case Empty =>
    case Cons(item, rest) =>
      var x := PrintQuant(item.quant) + (PrintItems(rest) + tail);
      AtomBefore(item.atom, item.quant, x, m);
      assert x[..|x| - m] == PrintQuant(item.quant) + (PrintItems(rest) + tail[..|tail| - m]) by {
        CutTwice(PrintQuant(item.quant), PrintItems(rest), tail, m);
      }
      ItemsBefore(rest, tail, m);
      BeforeBoth(ClosingsAtom(item.atom, item.quant, x), ClosingsItems(rest, tail), m);
  }

  lemma {:induction false} AtomBefore(atom: Atom, quant: Quant, tail: string, m: nat)
    requires m <= |tail|
    ensures Before(ClosingsAtom(atom, quant, tail), m) == ClosingsAtom(atom, quant, tail[..|tail| - m])
    decreases atom, 0
  {
    match atom
    case Group(prefix, body) =>
      var own := [Closing(prefix, body, quant, tail)];
      AltsBefore(body, ")" + tail, m);
      CutTail(")", tail, m);
      BeforeBoth(ClosingsAlts(body, ")" + tail), own, m);
      assert own[1..] == [];
    case _ =>
  }

  /** Groups of a piece that ends after the cut by less than it cuts off do not. */
  lemma {:induction false} AltsAfter(a: Alts, tail: string, m: nat)
    requires |PrintAlts(a)| + |tail| <= m
    ensures Before(ClosingsAlts(a, tail), m) == []
    decreases a, 2
  {
    match a
    case One(items) => ItemsAfter(items, tail, m);
    case Or(first, rest) =>
      var x := "|" + PrintAlts(rest) + tail;
      ItemsAfter(first, x, m);
      AltsAfter(rest, tail, m);
      BeforeBoth(ClosingsItems(first, x), ClosingsAlts(rest, tail), m);
  }

  lemma {:induction false} ItemsAfter(items: Items, tail: string, m: nat)
    requires |PrintItems(items)| + |tail| <= m
    ensures Before(ClosingsItems(items, tail), m) == []
    decreases items, 1
  {
    match items
    case Empty =>
    case Cons(item, rest) =>
      var x := PrintQuant(item.quant) + (PrintItems(rest) + tail);
      AtomAfter(item.atom, item.quant, x, m);
      ItemsAfter(rest, tail, m);
      BeforeBoth(ClosingsAtom(item.atom, item.quant, x), ClosingsItems(rest, tail), m);
  }

  lemma {:induction false} AtomAfter(atom: Atom, quant: Quant, tail: string, m: nat)
    requires |PrintAtom(atom)| + |tail| <= m
    ensures Before(ClosingsAtom(atom, quant, tail), m) == []
    decreases atom, 0
  {
    match atom
    case Group(prefix, body) =>
      var own := [Closing(prefix, body, quant, tail)];
      AltsAfter(body, ")" + tail, m);
      BeforeBoth(ClosingsAlts(body, ")" + tail), own, m);
      assert own[1..] == [] && Before(own, m) == [];
    case _ =>
  }

  // --- the scan up to a slash ----------------------------------------------

  /** The text is cut inside this piece, at a slash. */
  predicate CutAt(text: string, n: nat) {
    n < |text| && text[n] == '/'
  }

  lemma QuantHasNoSlash(quant: Quant)
    requires WfQuant(quant)
    ensures '/' !in PrintQuant(quant)
  {
    if quant.Braces? {
      forall c | c in PrintQuant(quant) ensures c != '/' {
        assert c == '{' || c in quant.text || c in "}" + PrintMode(quant.mode);
      }
    }
  }

  /** Where an item is cut, its atom is. */
  lemma CutInAtom(item: Item, n: nat)
    requires WfQuant(item.quant) && CutAt(PrintItem(item), n)
    ensures CutAt(PrintAtom(item.atom), n) && PrintItem(item)[..n] == PrintAtom(item.atom)[..n]
  {
    var atom, quant := PrintAtom(item.atom), PrintQuant(item.quant);
    QuantHasNoSlash(item.quant);
    forall k | |atom| <= k < |atom + quant| ensures (atom + quant)[k] != '/' {
      assert (atom + quant)[k] == quant[k - |atom|];
    }
    assert n < |atom|;
  }

  /** What is left of a class or an escape is passed over. */
  lemma LeafCut(p: string, i: nat, stack: seq<Open>, atom: Atom, n: nat)
    requires !atom.Group? && WfAtom(atom) && CutAt(PrintAtom(atom), n) && At(p, i, PrintAtom(atom)[..n], "")
    ensures Run(p, i, stack, false) == Clear
  {
    match atom
    case Lit(c) =>
      assert n == 0 && PrintAtom(atom)[..0] == "";
      AtNothing(p, i, "");
    case Esc(c) =>
      assert n == 1 && PrintAtom(atom)[..1] == ['\\'];
      AtHead(p, i, ['\\'], "");
      assert ['\\'][1..] == "";
      AtNothing(p, i + 1, "");
      assert Run(p, i, stack, false) == RunAt(p, i, stack, false);
    case Class(members) =>
      ClassCut(p, i, stack, members, n);
  }

  lemma ClassCut(p: string, i: nat, stack: seq<Open>, members: seq<Member>, n: nat)
    requires WfAtom(Class(members)) && CutAt(PrintAtom(Class(members)), n) && At(p, i, PrintAtom(Class(members))[..n], "")
    ensures Run(p, i, stack, false) == Clear
  {
    var text := PrintMembers(members);
    assert n > 0;
    assert PrintAtom(Class(members))[..n] == "[" + text[..n - 1] by {
      assert PrintAtom(Class(members))[n] != ']';
    }
    AtFirst(p, i, '[', text[..n - 1], "");
    StepClass(p, i, stack);
    InsideIsClear(p, i + 1, stack, members, n - 1);
  }

  /** A backslash with nothing after it. */
  lemma HalfEscape(p: string, i: nat, stack: seq<Open>)
    requires At(p, i, ['\\'], "")
    ensures Run(p, i, stack, true) == Clear
  {
    AtHead(p, i, ['\\'], "");
    assert ['\\'][1..] == "";
    AtNothing(p, i + 1, "");
    StepInside(p, i, stack);
  }

  lemma OneMember(p: string, i: nat, stack: seq<Open>, member: Member, head: string, rest: string)
    requires WfMember(member) && At(p, i, head + rest, "")
    requires head == match member case Plain(c) => [c] case Escaped(c) => ['\\', c]
    ensures At(p, i + |head|, rest, "") && Run(p, i, stack, true) == Run(p, i + |head|, stack, true)
  {
    AtSplit(p, i, head, rest, "");
    AtHead(p, i, head, rest + "");
    StepInside(p, i, stack);
  }

  lemma {:induction false} InsideIsClear(p: string, i: nat, stack: seq<Open>, members: seq<Member>, n: nat)
    requires (forall k :: 0 <= k < |members| ==> WfMember(members[k])) && n <= |PrintMembers(members)|
    requires At(p, i, PrintMembers(members)[..n], "")
    ensures Run(p, i, stack, true) == Clear
    decreases |members|
  {
    if n == 0 {
      AtNothing(p, i, "");
    } else {
      assert WfMember(members[0]);
      var head := match members[0] case Plain(c) => [c] case Escaped(c) => ['\\', c];
      var rest := PrintMembers(members[1..]);
      if n < |head| {
        assert n == 1 && PrintMembers(members)[..n] == ['\\'];
        HalfEscape(p, i, stack);
      } else {
        assert PrintMembers(members)[..n] == head + rest[..n - |head|];
        OneMember(p, i, stack, members[0], head, rest[..n - |head|]);
        InsideIsClear(p, i + |head|, stack, members[1..], n - |head|);
      }
    }
  }

  /** The scan up to a slash inside an atom. */
  lemma {:induction false} AtomCut(p: string, i: nat, stack: seq<Open>, atom: Atom, quant: Quant, tail: string, n: nat, m: nat, r: Outcome)
    requires WfAtom(atom) && CutAt(PrintAtom(atom), n) && At(p, i, PrintAtom(atom)[..n], "")
    requires m == |PrintAtom(atom)| - n + |tail|
    requires r == FirstOf(Before(ClosingsAtom(atom, quant, tail), m))
    ensures Run(p, i, stack, false) == r
    decreases atom, 0
  {
    match atom
    case Group(prefix, body) =>
      var own := [Closing(prefix, body, quant, tail)];
      assert own[1..] == [] && Before(own, m) == [];
      NoneAfter(ClosingsAlts(body, ")" + tail), own, m);
      GroupCut(p, i, stack, prefix, body, ")" + tail, n, m, r);
    case _ => LeafCut(p, i, stack, atom, n);
  }

  lemma {:induction false} GroupCut(p: string, i: nat, stack: seq<Open>, prefix: Prefix, body: Alts, tail: string, n: nat, m: nat, r: Outcome)
    requires WfPrefix(prefix) && WfAlts(body) && CutAt(PrintAtom(Group(prefix, body)), n)
    requires At(p, i, PrintAtom(Group(prefix, body))[..n], "") && tail != ""
    requires m == |PrintAtom(Group(prefix, body))| - n + |tail| - 1
    requires r == FirstOf(Before(ClosingsAlts(body, tail), m))
    ensures Run(p, i, stack, false) == r
    decreases body, 5
  {
    var pre, text := PrintPrefix(prefix), PrintAlts(body);
    GroupSplit(pre, text, PrintAtom(Group(prefix, body)), n);
    if n - 1 < |pre| {
      PrefixCut(p, i, stack, prefix, n - 1);
      AltsAfter(body, tail, m);
    } else {
      BodyCut(p, i, stack, prefix, body, tail, n - 1 - |pre|, m, r);
    }
  }

  /** A group is cut in its prefix or in its body. */
  lemma GroupSplit(pre: string, text: string, whole: string, n: nat)
    requires whole == "(" + (pre + (text + ")")) && CutAt(whole, n)
    ensures n > 0 && |whole| == |pre| + |text| + 2
    ensures n - 1 < |pre| ==> whole[..n] == "(" + pre[..n - 1]
    ensures n - 1 >= |pre| ==>
              CutAt(text, n - 1 - |pre|) && whole[..n] == "(" + (pre + text[..n - 1 - |pre|])
  {
    if n - 1 >= |pre| {
      assert whole[n] == (text + ")")[n - 1 - |pre|];
    }
  }

  lemma PrefixCut(p: string, i: nat, stack: seq<Open>, prefix: Prefix, n: nat)
    requires WfPrefix(prefix) && n <= |PrintPrefix(prefix)| && At(p, i, "(" + PrintPrefix(prefix)[..n], "")
    ensures Run(p, i, stack, false) == Clear
  {
    var pre := PrintPrefix(prefix)[..n];
    PrefixIsNeutral(prefix);
    AtFirst(p, i, '(', pre, "");
    RunToBody(p, i, stack, pre, "");
    AtPiece(p, i + 1, pre, "");
  }

  lemma {:induction false} BodyCut(p: string, i: nat, stack: seq<Open>, prefix: Prefix, body: Alts, tail: string, n: nat, m: nat, r: Outcome)
    requires WfPrefix(prefix) && WfAlts(body) && CutAt(PrintAlts(body), n)
    requires At(p, i, "(" + (PrintPrefix(prefix) + PrintAlts(body)[..n]), "") && m == |PrintAlts(body)| - n + |tail|
    requires r == FirstOf(Before(ClosingsAlts(body, tail), m))
    ensures Run(p, i, stack, false) == r
    decreases body, 4
  {
    var cut := PrintAlts(body)[..n];
    ToBody(p, i, stack, prefix, cut);
    AltsCut(p, i + 1 + |PrintPrefix(prefix)|, stack + [Open(BodyStart(p, i), false)], body, tail, n, m, r);
  }

  lemma ToBody(p: string, i: nat, stack: seq<Open>, prefix: Prefix, cut: string)
    requires WfPrefix(prefix) && At(p, i, "(" + (PrintPrefix(prefix) + cut), "")
    ensures At(p, i + 1 + |PrintPrefix(prefix)|, cut, "")
    ensures Run(p, i, stack, false) == Run(p, i + 1 + |PrintPrefix(prefix)|, stack + [Open(BodyStart(p, i), false)], false)
  {
    var pre := PrintPrefix(prefix);
    AtFirst(p, i, '(', pre + cut, "");
    AtSplit(p, i + 1, pre, cut, "");
    PrefixIsNeutral(prefix);
    RunToBody(p, i, stack, pre, cut + "");
  }

  lemma {:induction false} ItemsCut(p: string, i: nat, stack: seq<Open>, items: Items, tail: string, n: nat, m: nat, r: Outcome)
    requires WfItems(items) && CutAt(PrintItems(items), n) && At(p, i, PrintItems(items)[..n], "")
    requires m == |PrintItems(items)| - n + |tail|
    requires r == FirstOf(Before(ClosingsItems(items, tail), m))
    ensures Run(p, i, stack, false) == r
    decreases items, 1
  {
    var item, rest := items.item, items.rest;
    var x := PrintQuant(item.quant) + (PrintItems(rest) + tail);
    if n < |PrintItem(item)| {
      CutInFirst(item, rest, tail, x, n, m, r);
      AtomCut(p, i, stack, item.atom, item.quant, x, n, m, r);
    } else {
      BeforeBoth(ClosingsAtom(item.atom, item.quant, x), ClosingsItems(rest, tail), m);
      ItemThenCut(p, i, stack, item, rest, tail, n - |PrintItem(item)|, m);
    }
  }

  lemma CutInFirst(item: Item, rest: Items, tail: string, x: string, n: nat, m: nat, r: Outcome)
    requires WfQuant(item.quant) && CutAt(PrintItems(Cons(item, rest)), n) && n < |PrintItem(item)|
    requires x == PrintQuant(item.quant) + (PrintItems(rest) + tail) && m == |PrintItems(Cons(item, rest))| - n + |tail|
    requires r == FirstOf(Before(ClosingsItems(Cons(item, rest), tail), m))
    ensures CutAt(PrintAtom(item.atom), n) && PrintItems(Cons(item, rest))[..n] == PrintAtom(item.atom)[..n]
    ensures m == |PrintAtom(item.atom)| - n + |x| && r == FirstOf(Before(ClosingsAtom(item.atom, item.quant, x), m))
  {
    assert PrintItems(Cons(item, rest))[..n] == PrintItem(item)[..n];
    CutInAtom(item, n);
    ItemsAfter(rest, tail, m);
    NoneAfter(ClosingsAtom(item.atom, item.quant, x), ClosingsItems(rest, tail), m);
  }

  /** The scan across an item before the cut, and on to it. */
  lemma {:induction false} ItemThenCut(p: string, i: nat, stack: seq<Open>, item: Item, rest: Items, tail: string, n: nat, m: nat)
    requires WfItems(Cons(item, rest)) && CutAt(PrintItems(rest), n)
    requires At(p, i, PrintItems(Cons(item, rest))[..|PrintItem(item)| + n], "") && m == |PrintItems(rest)| - n + |tail|
    ensures var x := PrintQuant(item.quant) + (PrintItems(rest) + tail);
            Run(p, i, stack, false)
              == FirstOf(Before(ClosingsAtom(item.atom, item.quant, x), m) + Before(ClosingsItems(rest, tail), m))
    decreases Cons(item, rest), 0
  {
    var quant, after := PrintQuant(item.quant), PrintItems(rest)[..n];
    var x := quant + (PrintItems(rest) + tail);
    assert PrintItems(Cons(item, rest))[..|PrintItem(item)| + n] == PrintItem(item) + after;
    AtSplit(p, i, PrintItem(item), after, "");
    ItemsTailOk(rest, "");
    assert x[..|x| - m] == quant + after;
    AtomBefore(item.atom, item.quant, x, m);
    var v := VerdictAtom(item.atom, item.quant, quant + after);
    VerdictAtomFirst(item.atom, item.quant, quant + after);
    RunItem(p, i, stack, item, after, RiskyItem(item), v, i + |PrintItem(item)|);
    ItemsCut(p, i + |PrintItem(item)|, MarkIf(stack, RiskyItem(item)), rest, tail, n, m, FirstOf(Before(ClosingsItems(rest, tail), m)));
    FirstOfBoth(ClosingsAtom(item.atom, item.quant, quant + after), Before(ClosingsItems(rest, tail), m));
  }

  lemma {:induction false} AltsCut(p: string, i: nat, stack: seq<Open>, a: Alts, tail: string, n: nat, m: nat, r: Outcome)
    requires WfAlts(a) && CutAt(PrintAlts(a), n) && At(p, i, PrintAlts(a)[..n], "")
    requires m == |PrintAlts(a)| - n + |tail|
    requires r == FirstOf(Before(ClosingsAlts(a, tail), m))
    ensures Run(p, i, stack, false) == r
    decreases a, 3
  {
    match a
    case One(items) => ItemsCut(p, i, stack, items, tail, n, m, r);
    case Or(first, rest) => OrCut(p, i, stack, first, rest, tail, n, m, r);
  }

  lemma {:induction false} OrCut(p: string, i: nat, stack: seq<Open>, first: Items, rest: Alts, tail: string, n: nat, m: nat, r: Outcome)
    requires WfItems(first) && WfAlts(rest) && CutAt(PrintAlts(Or(first, rest)), n) && At(p, i, PrintAlts(Or(first, rest))[..n], "")
    requires m == |PrintAlts(Or(first, rest))| - n + |tail|
    requires r == FirstOf(Before(ClosingsAlts(Or(first, rest), tail), m))
    ensures Run(p, i, stack, false) == r
    decreases Or(first, rest), 2
  {
    var x := "|" + PrintAlts(rest) + tail;
    if n < |PrintItems(first)| {
      CutInBranch(first, rest, tail, x, n, m, r);
      ItemsCut(p, i, stack, first, x, n, m, r);
    } else {
      CutPastBranch(PrintItems(first), PrintAlts(rest), n);
      BeforeBoth(ClosingsItems(first, x), ClosingsAlts(rest, tail), m);
      BranchThenCut(p, i, stack, first, rest, tail, n - |PrintItems(first)| - 1, m);
    }
  }

  lemma CutPastBranch(first: string, rest: string, n: nat)
    requires CutAt(first + ("|" + rest), n) && n >= |first|
    ensures n > |first| && CutAt(rest, n - |first| - 1)
  {
    assert (first + ("|" + rest))[n] == ("|" + rest)[n - |first|];
  }

  lemma CutInBranch(first: Items, rest: Alts, tail: string, x: string, n: nat, m: nat, r: Outcome)
    requires CutAt(PrintAlts(Or(first, rest)), n) && n < |PrintItems(first)|
    requires x == "|" + PrintAlts(rest) + tail && m == |PrintAlts(Or(first, rest))| - n + |tail|
    requires r == FirstOf(Before(ClosingsAlts(Or(first, rest), tail), m))
    ensures CutAt(PrintItems(first), n) && PrintAlts(Or(first, rest))[..n] == PrintItems(first)[..n]
    ensures m == |PrintItems(first)| - n + |x| && r == FirstOf(Before(ClosingsItems(first, x), m))
  {
    AltsAfter(rest, tail, m);
    NoneAfter(ClosingsItems(first, x), ClosingsAlts(rest, tail), m);
  }

  /** The scan across a branch before the cut, and on to it. */
  lemma {:induction false} BranchThenCut(p: string, i: nat, stack: seq<Open>, first: Items, rest: Alts, tail: string, n: nat, m: nat)
    requires WfItems(first) && WfAlts(rest) && CutAt(PrintAlts(rest), n)
    requires At(p, i, PrintAlts(Or(first, rest))[..|PrintItems(first)| + 1 + n], "") && m == |PrintAlts(rest)| - n + |tail|
    ensures Run(p, i, stack, false)
      == FirstOf(Before(ClosingsItems(first, "|" + PrintAlts(rest) + tail), m) + Before(ClosingsAlts(rest, tail), m))
    decreases Or(first, rest), 1
  {
    var x, after := "|" + PrintAlts(rest) + tail, PrintAlts(rest)[..n];
    var j := i + |PrintItems(first)| + 1;
    assert At(p, i, PrintItems(first) + ("|" + after), "") by {
      BranchCut(first, rest, n);
    }
    assert Before(ClosingsItems(first, x), m) == ClosingsItems(first, "|" + after) by {
      assert x[..|x| - m] == "|" + after;
      ItemsBefore(first, x, m);
    }
    assert At(p, j, after, "") by {
      BarParts(p, i, PrintItems(first), after, "");
    }
    var v := VerdictItems(first, "|" + after);
    VerdictItemsFirst(first, "|" + after);
    assert "|" + after + "" == "|" + after;
    RunBranch(p, i, stack, first, after, "", RiskyItems(first), v, j);
    AltsCut(p, j, MarkIf(stack, true), rest, tail, n, m, FirstOf(Before(ClosingsAlts(rest, tail), m)));
    FirstOfBoth(ClosingsItems(first, "|" + after), Before(ClosingsAlts(rest, tail), m));
  }

  lemma BranchCut(first: Items, rest: Alts, n: nat)
    requires n <= |PrintAlts(rest)|
    ensures PrintAlts(Or(first, rest))[..|PrintItems(first)| + 1 + n] == PrintItems(first) + ("|" + PrintAlts(rest)[..n])
  {
  }

  /** A pattern cut at a slash is answered by the groups that close before it, in the order
      they close, each as it is read without what was cut off. */
  lemma CutReadsTheTree(t: Alts, n: nat)
    requires WfAlts(t) && CutAt(PrintAlts(t), n)
    ensures Run(PrintAlts(t)[..n], 0, [], false) == FirstOf(Before(ClosingsAlts(t, ""), |PrintAlts(t)| - n))
  {
    var p := PrintAlts(t)[..n];
    AtMeans(p, 0, p, "");
    var m := |PrintAlts(t)| - n;
    AltsCut(p, 0, [], t, "", n, m, FirstOf(Before(ClosingsAlts(t, ""), m)));
  }

  lemma StrippedAtLast(p: string, n: nat)
    requires CutAt(p, n) && p[0] != '/' && forall j :: n < j < |p| ==> p[j] != '/'
    ensures Stripped(p) == p[..n]
  {
    LastIndexIs(p, '/', n);
  }

  /** A bare pattern is cut at its last slash. */
  lemma SlashedPattern(t: Alts, n: nat)
    requires WfAlts(t) && CutAt(PrintAlts(t), n) && PrintAlts(t)[0] != '/'
    requires forall j :: n < j < |PrintAlts(t)| ==> PrintAlts(t)[j] != '/'
    ensures Run(Stripped(PrintAlts(t)), 0, [], false) == FirstOf(Before(ClosingsAlts(t, ""), |PrintAlts(t)| - n))
  {
    StrippedAtLast(PrintAlts(t), n);
    CutReadsTheTree(t, n);
  }
}
