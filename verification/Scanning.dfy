/** What the scan answers, read off the tree of the pattern instead of its text. */
module Scanning {
  import opened Regex
  import opened Scanner
  import opened Places

  // --- the answer, by the tree -------------------------------------------

  function Then(first: Outcome, second: Outcome): Outcome {
    if first.Clear? then second else first
  }

  /** The first group to close that settles the scan, in the order groups close. `tail` is
      the text that follows. */
  function VerdictAlts(a: Alts, tail: string): Outcome {
    match a
    case One(items) => VerdictItems(items, tail)
    case Or(first, rest) => Then(VerdictItems(first, "|" + PrintAlts(rest) + tail), VerdictAlts(rest, tail))
  }

  function VerdictItems(items: Items, tail: string): Outcome {
    match items
    case Empty => Clear
    case Cons(item, rest) =>
      Then(VerdictAtom(item.atom, item.quant, PrintQuant(item.quant) + (PrintItems(rest) + tail)), VerdictItems(rest, tail))
  }

  function VerdictAtom(atom: Atom, quant: Quant, tail: string): Outcome {
    match atom
    case Group(prefix, body) =>
      Then(VerdictAlts(body, ")" + tail), Weighed(Weighs(quant, body), Seen(prefix, PrintAlts(body), tail)))
    case _ => Clear
  }

  predicate IsBehind(prefix: Prefix) {
    prefix.Behind? || prefix.NotBehind?
  }

  /** The body the scan cuts out for a group. It takes a lookbehind for a name, which ends
      at the next angle bracket wherever that is. */
  function Seen(prefix: Prefix, body: string, tail: string): Text {
    var k := Find(body, '>', 0);
    if IsBehind(prefix) && k < |body| then Text(body[k + 1..])
    else if IsBehind(prefix) && '>' in tail then Nowhere
    else Text(body)
  }

  /** What the scan makes of a group it has cut this body out of. */
  function Weighed(hit: bool, body: Text): Outcome {
    if !hit then Clear
    else match body
      case Nowhere => Crash
      case Text(s) => if Anchored(s) then Clear else Ambiguous
  }

  /** The text between two places, if the first is not past the second. */
  function Cut(p: string, start: nat, end: nat): Text
    requires end <= |p|
  {
    if start > end then Nowhere else Text(p[start..end])
  }

  /** Some repeated group, at any depth, holds a choice or a repetition and is not anchored. */
  predicate AmbiguousAlts(a: Alts) {
    match a
    case One(items) => AmbiguousItems(items)
    case Or(first, rest) => AmbiguousItems(first) || AmbiguousAlts(rest)
  }

  predicate AmbiguousItems(items: Items) {
    match items
    case Empty => false
    case Cons(item, rest) => AmbiguousItem(item) || AmbiguousItems(rest)
  }

  predicate AmbiguousItem(item: Item) {
    item.atom.Group? &&
    (AmbiguousAlts(item.atom.body)
     || (Many(item.quant) && RiskyAlts(item.atom.body) && !Anchored(PrintAlts(item.atom.body))))
  }

  /** The group repeats and holds something repeatable, so the scan weighs its body. */
  predicate Weighs(quant: Quant, body: Alts) {
    Many(quant) && RiskyAlts(body)
  }

  /** No lookbehind the scan weighs has an angle bracket anywhere after it. */
  predicate SettledAlts(a: Alts, tail: string) {
    match a
    case One(items) => SettledItems(items, tail)
    case Or(first, rest) => SettledItems(first, "|" + PrintAlts(rest) + tail) && SettledAlts(rest, tail)
  }

  predicate SettledItems(items: Items, tail: string) {
    match items
    case Empty => true
    case Cons(item, rest) =>
      SettledAtom(item.atom, item.quant, PrintQuant(item.quant) + (PrintItems(rest) + tail)) && SettledItems(rest, tail)
  }

  predicate SettledAtom(atom: Atom, quant: Quant, tail: string) {
    match atom
    case Group(prefix, body) =>
      (IsBehind(prefix) && Weighs(quant, body) ==> '>' !in PrintAlts(body) && '>' !in tail) && SettledAlts(body, ")" + tail)
    case _ => true
  }

  // --- pieces the scan passes over ---------------------------------------

  lemma StepNeutral(p: string, i: nat, stack: seq<Open>)
    requires i < |p| && Neutral(p[i])
    ensures Run(p, i, stack, false) == Run(p, i + 1, stack, false)
  {
    RunsBare(p, i, stack);
  }

  lemma StepMark(p: string, i: nat, stack: seq<Open>)
    requires i < |p| && p[i] in {'|', '*', '+'}
    ensures Run(p, i, stack, false) == Run(p, i + 1, MarkIf(stack, true), false)
  {
    RunsBare(p, i, stack);
  }

  lemma StepBrace(p: string, i: nat, stack: seq<Open>)
    requires i < |p| && p[i] == '{'
    ensures Run(p, i, stack, false) == Run(p, i + 1, MarkIf(stack, UnboundedBrace(p, i)), false)
  {
    RunsBare(p, i, stack);
  }

  lemma StepClass(p: string, i: nat, stack: seq<Open>)
    requires i < |p| && p[i] == '['
    ensures Run(p, i, stack, false) == Run(p, i + 1, stack, true)
  {
    RunsBare(p, i, stack);
  }

  lemma StepInside(p: string, i: nat, stack: seq<Open>)
    requires i < |p|
    ensures Run(p, i, stack, true) ==
      if p[i] == '\\' then Run(p, i + 2, stack, true) else Run(p, i + 1, stack, p[i] != ']')
  {
    assert Run(p, i, stack, true) == RunAt(p, i, stack, true);
  }

  lemma {:induction false} RunNeutral(p: string, i: nat, stack: seq<Open>, x: string, tail: string)
    requires At(p, i, x, tail)
    requires forall c :: c in x ==> Neutral(c)
    ensures Run(p, i, stack, false) == Run(p, i + |x|, stack, false)
    decreases |x|
  {
    if x != "" {
      AtHead(p, i, x, tail);
      assert x[0] in x;
      StepNeutral(p, i, stack);
      RunNeutral(p, i + 1, stack, x[1..], tail);
    }
  }

  lemma {:induction false} RunMembers(p: string, i: nat, stack: seq<Open>, members: seq<Member>, tail: string)
    requires At(p, i, PrintMembers(members), tail)
    requires forall k :: 0 <= k < |members| ==> WfMember(members[k])
    ensures Run(p, i, stack, true) == Run(p, i + |PrintMembers(members)|, stack, true)
    decreases |members|
  {
    if members != [] {
      assert WfMember(members[0]);
      var head := match members[0] case Plain(c) => [c] case Escaped(c) => ['\\', c];
      var rest := PrintMembers(members[1..]);
      AtSplit(p, i, head, rest, tail);
      AtHead(p, i, head, rest + tail);
      StepInside(p, i, stack);
      RunMembers(p, i + |head|, stack, members[1..], tail);
    }
  }

  lemma RunClass(p: string, i: nat, stack: seq<Open>, members: seq<Member>, tail: string)
    requires At(p, i, PrintAtom(Class(members)), tail)
    requires WfAtom(Class(members))
    ensures Run(p, i, stack, false) == Run(p, i + |PrintAtom(Class(members))|, stack, false)
  {
    var text := PrintMembers(members);
    AtFirst(p, i, '[', text + "]", tail);
    StepClass(p, i, stack);
    AtSplit(p, i + 1, text, "]", tail);
    RunMembers(p, i + 1, stack, members, "]" + tail);
    AtHead(p, i + 1 + |text|, "]", tail);
    StepInside(p, i + 1 + |text|, stack);
  }

  // --- quantifiers -------------------------------------------------------

  lemma RunMode(p: string, i: nat, stack: seq<Open>, mode: Mode, tail: string)
    requires At(p, i, PrintMode(mode), tail)
    ensures Run(p, i, stack, false) == Run(p, i + |PrintMode(mode)|, MarkIf(stack, mode == Possessive), false)
  {
    match mode
    case Greedy =>
    case Lazy =>
      AtChar(p, i, '?', tail);
      StepNeutral(p, i, stack);
    case Possessive =>
      AtChar(p, i, '+', tail);
      StepMark(p, i, stack);
  }

  lemma MarkIfTwice(stack: seq<Open>, m: bool, n: bool)
    ensures MarkIf(MarkIf(stack, m), n) == MarkIf(stack, m || n)
  {
  }

  lemma RunBraces(p: string, i: nat, stack: seq<Open>, text: string, tail: string)
    requires At(p, i, "{" + (text + "}"), tail)
    requires forall c :: c in text ==> CountChar(c)
    ensures Run(p, i, stack, false) == Run(p, i + 2 + |text|, MarkIf(stack, UnboundedText(text)), false)
  {
    BraceIsUnbounded(p, i, text, tail);
    StepBrace(p, i, stack);
    AtFirst(p, i, '{', text + "}", tail);
    CountsNoBrace(text);
    RunNeutral(p, i + 1, MarkIf(stack, UnboundedText(text)), text + "}", tail);
  }

  lemma RunSign(p: string, i: nat, stack: seq<Open>, quant: Quant, tail: string, many: bool)
    requires !quant.Bare? && At(p, i, PrintSign(quant), tail)
    requires WfQuant(quant) && many == Many(quant)
    ensures Run(p, i, stack, false) == Run(p, i + |PrintSign(quant)|, MarkIf(stack, many), false)
  {
    match quant
    case Braces(text, _) => RunBraces(p, i, stack, text, tail);
    case Optional(_) =>
      AtChar(p, i, '?', tail);
      StepNeutral(p, i, stack);
    case Star(_) =>
      AtChar(p, i, '*', tail);
      StepMark(p, i, stack);
    case Plus(_) =>
      AtChar(p, i, '+', tail);
      StepMark(p, i, stack);
  }

  lemma RunSignAndMode(p: string, i: nat, stack: seq<Open>, quant: Quant, tail: string, many: bool, j: nat, k: nat)
    requires !quant.Bare? && At(p, i, PrintSign(quant) + PrintMode(quant.mode), tail)
    requires WfQuant(quant) && many == Many(quant) && j == i + |PrintSign(quant)| && k == j + |PrintMode(quant.mode)|
    ensures Run(p, i, stack, false) == Run(p, k, MarkIf(stack, many || quant.mode == Possessive), false)
  {
    AtSplit(p, i, PrintSign(quant), PrintMode(quant.mode), tail);
    RunSign(p, i, stack, quant, PrintMode(quant.mode) + tail, many);
    RunMode(p, j, MarkIf(stack, many), quant.mode, tail);
    MarkIfTwice(stack, many, quant.mode == Possessive);
  }

  lemma RunQuant(p: string, i: nat, stack: seq<Open>, quant: Quant, tail: string, mark: bool, k: nat)
    requires At(p, i, PrintQuant(quant), tail)
    requires WfQuant(quant) && mark == Marks(quant) && k == i + |PrintQuant(quant)|
    ensures Run(p, i, stack, false) == Run(p, k, MarkIf(stack, mark), false)
  {
    if !quant.Bare? {
      SignAndMode(quant);
      RunSignAndMode(p, i, stack, quant, tail, Many(quant), i + |PrintSign(quant)|, k);
    }
  }

  // --- groups ------------------------------------------------------------

  lemma PrefixIsNeutral(prefix: Prefix)
    requires WfPrefix(prefix)
    ensures forall c :: c in PrintPrefix(prefix) ==> Neutral(c)
  {
  }

  /** The first character of a prefix that runs to an angle bracket. */
  lemma NameStart(p: string, i: nat, name: string, c: char, tail: string)
    requires At(p, i, "?" + ([c] + (name + ">")), tail) && c in {'<', 'P'}
    requires forall k :: 0 <= k < |name| ==> name[k] != '>'
    ensures i + 1 < |p| && p[i] == '?' && p[i + 1] == c && Find(p, '>', i + 1) == i + 2 + |name| < |p|
  {
    AtSplit(p, i, "?", [c] + (name + ">"), tail);
    AtHead(p, i, "?", [c] + (name + ">") + tail);
    AtSplit(p, i + 1, [c], name + ">", tail);
    AtHead(p, i + 1, [c], name + ">" + tail);
    AtSplit(p, i + 2, name, ">", tail);
    FindAfter(p, i + 2, name, '>', tail);
  }

  lemma NoAngle(name: string)
    requires forall c :: c in name ==> NameChar(c)
    ensures forall k :: 0 <= k < |name| ==> name[k] != '>'
  {
    forall k | 0 <= k < |name| ensures name[k] != '>' {
      assert name[k] in name;
    }
  }

  lemma BodyFollowsName(p: string, open: nat, name: string, c: char, tail: string)
    requires At(p, open + 1, "?" + ([c] + (name + ">")), tail) && c in {'<', 'P'}
    requires forall k :: 0 <= k < |name| ==> name[k] != '>'
    ensures BodyStart(p, open) == open + 1 + (|name| + 3)
  {
    NameStart(p, open + 1, name, c, tail);
  }

  lemma BodyFollowsMark(p: string, open: nat, c: char, tail: string)
    requires At(p, open + 1, ['?', c], tail) && c in {':', '=', '!'}
    ensures BodyStart(p, open) == open + 3
  {
    AtHead(p, open + 1, ['?', c], tail);
    AtHead(p, open + 2, [c], tail);
  }

  lemma NameShape(name: string)
    ensures PrintPrefix(Named(name)) == "?" + (['<'] + (name + ">"))
    ensures |PrintPrefix(Named(name))| == |name| + 3
    ensures PrintPrefix(NamedP(name)) == "?" + (['P'] + (("<" + name) + ">"))
    ensures |PrintPrefix(NamedP(name))| == |name| + 4
  {
  }

  /** Any prefix but a lookbehind is skipped whole. */
  lemma BodyFollowsPrefix(p: string, open: nat, prefix: Prefix, tail: string)
    requires At(p, open + 1, PrintPrefix(prefix), tail) && WfPrefix(prefix) && !IsBehind(prefix) && TailOk(tail)
    ensures BodyStart(p, open) == open + 1 + |PrintPrefix(prefix)|
  {
    match prefix
    case Capture =>
      AtNothing(p, open + 1, tail);
    case Named(name) =>
      NameShape(name);
      NoAngle(name);
      BodyFollowsName(p, open, name, '<', tail);
    case NamedP(name) =>
      NameShape(name);
      NoAngle(name);
      BodyFollowsName(p, open, "<" + name, 'P', tail);
    case NonCapture => BodyFollowsMark(p, open, ':', tail);
    case Ahead => BodyFollowsMark(p, open, '=', tail);
    case NotAhead => BodyFollowsMark(p, open, '!', tail);
  }

  lemma BehindStart(p: string, open: nat, prefix: Prefix, tail: string)
    requires IsBehind(prefix) && At(p, open + 1, PrintPrefix(prefix), tail)
    ensures open + 3 < |p| && p[open + 1] == '?' && p[open + 2] == '<' && (p[open + 3] == '=' || p[open + 3] == '!')
    ensures At(p, open + 4, "", tail)
  {
    var text := PrintPrefix(prefix);
    AtHead(p, open + 1, text, tail);
    AtHead(p, open + 2, text[1..], tail);
    AtHead(p, open + 3, text[2..], tail);
    assert text[1..][1..][1..] == "";
  }

  lemma BehindBody(p: string, open: nat)
    requires open + 3 < |p| && p[open + 1] == '?' && p[open + 2] == '<' && (p[open + 3] == '=' || p[open + 3] == '!')
    ensures BodyStart(p, open) == if Find(p, '>', open + 4) < |p| then Find(p, '>', open + 4) + 1 else open + 4
  {
    FindAcross(p, open + 2, open + 4, '>');
  }

  /** A lookbehind is skipped up to the next angle bracket, wherever that is. */
  lemma BodyFollowsBehind(p: string, open: nat, prefix: Prefix, body: string, tail: string)
    requires IsBehind(prefix) && At(p, open + 1, PrintPrefix(prefix), body + tail)
    ensures open + 4 + |body| <= |p|
    ensures Find(body, '>', 0) < |body| ==> BodyStart(p, open) == open + 4 + Find(body, '>', 0) + 1
    ensures Find(body, '>', 0) == |body| && '>' in tail ==> BodyStart(p, open) > open + 4 + |body|
    ensures Find(body, '>', 0) == |body| && '>' !in tail ==> BodyStart(p, open) == open + 4
  {
    BehindStart(p, open, prefix, body + tail);
    BehindBody(p, open);
    AtTail(p, open + 4, "", body, tail);
    FindIn(p, open + 4, body, '>', tail);
  }

  /** What the scan does at the parenthesis that closes a group whose body starts here. */
  function Closed(p: string, start: nat, end: nat, risky: bool, many: bool, stack: seq<Open>): Outcome
    requires end < |p|
  {
    if risky && many && start > end then Crash
    else if risky && many && !Anchored(p[start..end]) then Ambiguous
    else Run(p, end + 1, MarkIf(stack, risky || many), false)
  }

  lemma CloseIsClosed(p: string, end: nat, stack: seq<Open>, top: Open)
    requires end < |p| && p[end] == ')'
    ensures Run(p, end, stack + [top], false) == Closed(p, top.body, end, top.risky, Repeats(p, end + 1), stack)
  {
    var whole := stack + [top];
    RunsBare(p, end, whole);
    assert RunBare(p, end, whole) == Close(p, end, whole);
    assert whole[..|whole| - 1] == stack;
  }

  lemma StepOpen(p: string, i: nat, stack: seq<Open>)
    requires i < |p| && p[i] == '('
    ensures Run(p, i, stack, false) == Run(p, i + 1, stack + [Open(BodyStart(p, i), false)], false)
  {
    RunsBare(p, i, stack);
  }

  /** The body the scan cuts out is the one the tree says. */
  lemma SeenBehind(p: string, open: nat, prefix: Prefix, body: string, tail: string, start: nat, end: nat)
    requires IsBehind(prefix) && At(p, open + 1, PrintPrefix(prefix), body + (")" + tail))
    requires start == BodyStart(p, open) && end == open + 4 + |body|
    requires end < |p| && p[open + 4..end] == body
    ensures Seen(prefix, body, tail) == Cut(p, start, end)
  {
    BodyFollowsBehind(p, open, prefix, body, ")" + tail);
    assert '>' in ")" + tail <==> '>' in tail;
    var k := Find(body, '>', 0);
    if k < |body| {
      assert p[open + 4 + k + 1..end] == p[open + 4..end][k + 1..];
    }
  }

  lemma SeenPlain(p: string, open: nat, prefix: Prefix, body: string, tail: string, start: nat, from: nat, end: nat)
    requires At(p, open + 1, PrintPrefix(prefix), body + (")" + tail)) && WfPrefix(prefix) && !IsBehind(prefix)
    requires TailOk(body + (")" + tail))
    requires start == BodyStart(p, open) && from == open + 1 + |PrintPrefix(prefix)| && end == from + |body|
    requires end < |p| && p[from..end] == body
    ensures Seen(prefix, body, tail) == Cut(p, start, end)
  {
    BodyFollowsPrefix(p, open, prefix, body + (")" + tail));
    assert start == from;
  }

  lemma SeenAtClose(p: string, open: nat, prefix: Prefix, body: string, tail: string, start: nat, from: nat, end: nat)
    requires At(p, open + 1, PrintPrefix(prefix), body + (")" + tail)) && WfPrefix(prefix)
    requires TailOk(body + (")" + tail))
    requires start == BodyStart(p, open) && from == open + 1 + |PrintPrefix(prefix)| && end == from + |body|
    requires end < |p| && p[from..end] == body
    ensures Seen(prefix, body, tail) == Cut(p, start, end)
  {
    if IsBehind(prefix) {
      assert from == open + 4;
      SeenBehind(p, open, prefix, body, tail, start, end);
    } else {
      SeenPlain(p, open, prefix, body, tail, start, from, end);
    }
  }

  // --- the whole tree ----------------------------------------------------

  lemma RunToBody(p: string, i: nat, stack: seq<Open>, pre: string, tail: string)
    requires i < |p| && p[i] == '(' && At(p, i + 1, pre, tail)
    requires forall c :: c in pre ==> Neutral(c)
    ensures Run(p, i, stack, false) == Run(p, i + 1 + |pre|, stack + [Open(BodyStart(p, i), false)], false)
  {
    StepOpen(p, i, stack);
    RunNeutral(p, i + 1, stack + [Open(BodyStart(p, i), false)], pre, tail);
  }

  lemma BodyOfGroup(p: string, i: nat, prefix: Prefix, body: Alts, tail: string)
    requires At(p, i, PrintAtom(Group(prefix, body)), tail)
    ensures At(p, i + 1 + |PrintPrefix(prefix)|, PrintAlts(body), ")" + tail)
  {
    GroupParts(p, i, prefix, body, tail);
  }

  lemma RunGroup(p: string, i: nat, stack: seq<Open>, prefix: Prefix, body: Alts, tail: string, start: nat, from: nat)
    requires At(p, i, PrintAtom(Group(prefix, body)), tail) && WfPrefix(prefix)
    requires start == BodyStart(p, i) && from == i + 1 + |PrintPrefix(prefix)|
    ensures Run(p, i, stack, false) == Run(p, from, stack + [Open(start, false)], false)
  {
    GroupParts(p, i, prefix, body, tail);
    PrefixIsNeutral(prefix);
    RunToBody(p, i, stack, PrintPrefix(prefix), PrintAlts(body) + (")" + tail));
  }

  lemma GroupCloses(p: string, i: nat, prefix: Prefix, body: Alts, tail: string, from: nat, end: nat)
    requires At(p, i, PrintAtom(Group(prefix, body)), tail)
    requires from == i + 1 + |PrintPrefix(prefix)| && end == from + |PrintAlts(body)|
    ensures end < |p| && p[end] == ')' && At(p, end + 1, "", tail) && p[from..end] == PrintAlts(body)
  {
    assert At(p, from, PrintAlts(body), ")" + tail) by {
      GroupParts(p, i, prefix, body, tail);
    }
    GroupEnds(p, from, PrintAlts(body), tail);
  }

  lemma GroupIsSeen(p: string, i: nat, prefix: Prefix, body: Alts, tail: string, start: nat, end: nat)
    requires At(p, i, PrintAtom(Group(prefix, body)), tail) && WfPrefix(prefix) && WfAlts(body)
    requires start == BodyStart(p, i) && end == i + 1 + |PrintPrefix(prefix)| + |PrintAlts(body)|
    ensures end < |p| && Seen(prefix, PrintAlts(body), tail) == Cut(p, start, end)
  {
    var from := i + 1 + |PrintPrefix(prefix)|;
    assert end < |p| && p[from..end] == PrintAlts(body) by {
      GroupCloses(p, i, prefix, body, tail, from, end);
    }
    assert At(p, i + 1, PrintPrefix(prefix), PrintAlts(body) + (")" + tail)) by {
      GroupParts(p, i, prefix, body, tail);
    }
    AltsTailOk(body, ")" + tail);
    SeenAtClose(p, i, prefix, PrintAlts(body), tail, start, from, end);
  }

  lemma RepeatsAfter(p: string, i: nat, quant: Quant, tail: string)
    requires At(p, i, "", PrintQuant(quant) + tail) && WfQuant(quant) && TailOk(tail)
    ensures Repeats(p, i) == Many(quant)
  {
    AtTail(p, i, "", PrintQuant(quant), tail);
    RepeatsIsMany(p, i, quant, tail);
  }

  lemma ClosedIsWeighed(p: string, start: nat, end: nat, risky: bool, many: bool, stack: seq<Open>)
    requires end < |p|
    ensures Closed(p, start, end, risky, many, stack)
      == Then(Weighed(many && risky, Cut(p, start, end)), Run(p, end + 1, MarkIf(stack, risky || many), false))
  {
  }

  lemma RunClosing(p: string, end: nat, stack: seq<Open>, start: nat, risky: bool, quant: Quant, tail: string, many: bool)
    requires end < |p| && p[end] == ')' && At(p, end + 1, "", PrintQuant(quant) + tail)
    requires WfQuant(quant) && TailOk(tail) && many == Many(quant)
    ensures Run(p, end, stack + [Open(start, risky)], false)
      == Then(Weighed(many && risky, Cut(p, start, end)), Run(p, end + 1, MarkIf(stack, risky || many), false))
  {
    RepeatsAfter(p, end + 1, quant, tail);
    CloseIsClosed(p, end, stack, Open(start, risky));
    ClosedIsWeighed(p, start, end, risky, many, stack);
  }

  /** The scan of a group from its end. */
  lemma RunFromEnd(p: string, i: nat, stack: seq<Open>, prefix: Prefix, body: Alts, quant: Quant, tail: string,
                   risky: bool, many: bool, own: Outcome, start: nat, end: nat)
    requires At(p, i, PrintAtom(Group(prefix, body)), PrintQuant(quant) + tail)
    requires WfPrefix(prefix) && WfAlts(body) && WfQuant(quant) && TailOk(tail) && many == Many(quant)
    requires own == Weighed(many && risky, Seen(prefix, PrintAlts(body), PrintQuant(quant) + tail))
    requires start == BodyStart(p, i) && end == i + 1 + |PrintPrefix(prefix)| + |PrintAlts(body)|
    ensures Run(p, end, stack + [Open(start, risky)], false) == Then(own, Run(p, end + 1, MarkIf(stack, risky || many), false))
  {
    assert end < |p| && p[end] == ')' && At(p, end + 1, "", PrintQuant(quant) + tail) by {
      GroupCloses(p, i, prefix, body, PrintQuant(quant) + tail, i + 1 + |PrintPrefix(prefix)|, end);
    }
    assert own == Weighed(many && risky, Cut(p, start, end)) by {
      GroupIsSeen(p, i, prefix, body, PrintQuant(quant) + tail, start, end);
    }
    RunClosing(p, end, stack, start, risky, quant, tail, many);
  }

  lemma {:induction false} RunInside(p: string, i: nat, stack: seq<Open>, prefix: Prefix, body: Alts, tail: string,
                                     risky: bool, v: Outcome, from: nat, end: nat)
    requires At(p, i, PrintAtom(Group(prefix, body)), tail) && WfAlts(body) && risky == RiskyAlts(body)
    requires v == VerdictAlts(body, ")" + tail) && from == i + 1 + |PrintPrefix(prefix)| && end == from + |PrintAlts(body)|
    ensures Run(p, from, stack, false) == Then(v, Run(p, end, MarkIf(stack, risky), false))
    decreases body, 4
  {
    BodyOfGroup(p, i, prefix, body, tail);
    RunAlts(p, from, stack, body, ")" + tail, risky, v, end);
  }

  /** The scan of a group up to its end. */
  lemma {:induction false} RunToEnd(p: string, i: nat, stack: seq<Open>, prefix: Prefix, body: Alts, tail: string,
                                    risky: bool, v: Outcome, start: nat, end: nat)
    requires At(p, i, PrintAtom(Group(prefix, body)), tail)
    requires WfPrefix(prefix) && WfAlts(body) && risky == RiskyAlts(body)
    requires v == VerdictAlts(body, ")" + tail) && start == BodyStart(p, i)
    requires end == i + 1 + |PrintPrefix(prefix)| + |PrintAlts(body)|
    ensures Run(p, i, stack, false) == Then(v, Run(p, end, stack + [Open(start, risky)], false))
    decreases body, 5
  {
    var inside, from := stack + [Open(start, false)], i + 1 + |PrintPrefix(prefix)|;
    RunGroup(p, i, stack, prefix, body, tail, start, from);
    RunInside(p, i, inside, prefix, body, tail, risky, v, from, end);
    assert MarkIf(inside, risky) == stack + [Open(start, risky)];
  }

  /** The mark an atom leaves before its quantifier is read: a group that repeats is
      repeatable to whatever encloses it. */
  predicate AtomMarks(atom: Atom, quant: Quant) {
    atom.Group? && (RiskyAlts(atom.body) || Many(quant))
  }

  lemma GroupShape(prefix: Prefix, body: Alts, quant: Quant, after: string, risky: bool, many: bool,
                   mark: bool, v: Outcome, inner: Outcome, own: Outcome)
    requires risky == RiskyAlts(body) && many == Many(quant) && mark == AtomMarks(Group(prefix, body), quant)
    requires v == VerdictAtom(Group(prefix, body), quant, after)
    requires inner == VerdictAlts(body, ")" + after) && own == Weighed(many && risky, Seen(prefix, PrintAlts(body), after))
    ensures |PrintAtom(Group(prefix, body))| == |PrintPrefix(prefix)| + |PrintAlts(body)| + 2
    ensures v == Then(inner, own) && mark == (risky || many)
  {
  }

  /** The scan across a group. */
  lemma {:induction false} RunWhole(p: string, i: nat, stack: seq<Open>, prefix: Prefix, body: Alts, quant: Quant, tail: string,
                                    risky: bool, many: bool, v: Outcome, own: Outcome, end: nat)
    requires At(p, i, PrintAtom(Group(prefix, body)), PrintQuant(quant) + tail)
    requires WfPrefix(prefix) && WfAlts(body) && WfQuant(quant) && TailOk(tail)
    requires risky == RiskyAlts(body) && many == Many(quant) && v == VerdictAlts(body, ")" + (PrintQuant(quant) + tail))
    requires own == Weighed(many && risky, Seen(prefix, PrintAlts(body), PrintQuant(quant) + tail))
    requires end == i + 1 + |PrintPrefix(prefix)| + |PrintAlts(body)|
    ensures Run(p, i, stack, false) == Then(Then(v, own), Run(p, end + 1, MarkIf(stack, risky || many), false))
    decreases body, 6
  {
    var start := BodyStart(p, i);
    RunToEnd(p, i, stack, prefix, body, PrintQuant(quant) + tail, risky, v, start, end);
    RunFromEnd(p, i, stack, prefix, body, quant, tail, risky, many, own, start, end);
    ThenThen(v, own, Run(p, end + 1, MarkIf(stack, risky || many), false));
  }

  lemma {:induction false} RunGroupAtom(p: string, i: nat, stack: seq<Open>, prefix: Prefix, body: Alts, quant: Quant, tail: string,
                                        mark: bool, v: Outcome, k: nat)
    requires At(p, i, PrintAtom(Group(prefix, body)), PrintQuant(quant) + tail)
    requires WfPrefix(prefix) && WfAlts(body) && WfQuant(quant) && TailOk(tail) && mark == AtomMarks(Group(prefix, body), quant)
    requires v == VerdictAtom(Group(prefix, body), quant, PrintQuant(quant) + tail) && k == i + |PrintAtom(Group(prefix, body))|
    ensures Run(p, i, stack, false) == Then(v, Run(p, k, MarkIf(stack, mark), false))
    decreases body, 7
  {
    var after, risky, many := PrintQuant(quant) + tail, RiskyAlts(body), Many(quant);
    var inner, own := VerdictAlts(body, ")" + after), Weighed(many && risky, Seen(prefix, PrintAlts(body), after));
    GroupShape(prefix, body, quant, after, risky, many, mark, v, inner, own);
    RunWhole(p, i, stack, prefix, body, quant, tail, risky, many, inner, own, k - 1);
  }

  /** The scan across an atom: it answers `v` or comes to `k`. */
  lemma {:induction false} RunAtom(p: string, i: nat, stack: seq<Open>, atom: Atom, quant: Quant, tail: string,
                                   mark: bool, v: Outcome, k: nat)
    requires At(p, i, PrintAtom(atom), PrintQuant(quant) + tail)
    requires WfAtom(atom) && WfQuant(quant) && TailOk(tail) && mark == AtomMarks(atom, quant)
    requires v == VerdictAtom(atom, quant, PrintQuant(quant) + tail) && k == i + |PrintAtom(atom)|
    ensures Run(p, i, stack, false) == Then(v, Run(p, k, MarkIf(stack, mark), false))
    decreases atom, 0
  {
    var after := PrintQuant(quant) + tail;
    match atom
    case Lit(c) =>
      AtChar(p, i, c, after);
      StepNeutral(p, i, stack);
    case Esc(c) =>
      AtHead(p, i, ['\\', c], after);
      assert Run(p, i, stack, false) == RunAt(p, i, stack, false);
    case Class(members) =>
      RunClass(p, i, stack, members, after);
    case Group(prefix, body) =>
      RunGroupAtom(p, i, stack, prefix, body, quant, tail, mark, v, k);
  }

  /** The scan across an atom and its quantifier. */
  lemma {:induction false} RunItem(p: string, i: nat, stack: seq<Open>, item: Item, tail: string,
                                   mark: bool, v: Outcome, k: nat)
    requires At(p, i, PrintItem(item), tail)
    requires WfAtom(item.atom) && WfQuant(item.quant) && TailOk(tail) && mark == RiskyItem(item)
    requires v == VerdictAtom(item.atom, item.quant, PrintQuant(item.quant) + tail) && k == i + |PrintItem(item)|
    ensures Run(p, i, stack, false) == Then(v, Run(p, k, MarkIf(stack, mark), false))
    decreases item, 1
  {
    RunItemWith(p, i, stack, item, tail, AtomMarks(item.atom, item.quant), Marks(item.quant), v, i + |PrintAtom(item.atom)|, k);
  }

  lemma {:induction false} RunItemWith(p: string, i: nat, stack: seq<Open>, item: Item, tail: string,
                                       mark: bool, mark': bool, v: Outcome, j: nat, k: nat)
    requires At(p, i, PrintItem(item), tail)
    requires WfAtom(item.atom) && WfQuant(item.quant) && TailOk(tail)
    requires mark == AtomMarks(item.atom, item.quant) && mark' == Marks(item.quant)
    requires v == VerdictAtom(item.atom, item.quant, PrintQuant(item.quant) + tail)
    requires j == i + |PrintAtom(item.atom)| && k == j + |PrintQuant(item.quant)|
    ensures Run(p, i, stack, false) == Then(v, Run(p, k, MarkIf(stack, mark || mark'), false))
    decreases item, 0
  {
    AtSplit(p, i, PrintAtom(item.atom), PrintQuant(item.quant), tail);
    RunAtom(p, i, stack, item.atom, item.quant, tail, mark, v, j);
    RunQuant(p, j, MarkIf(stack, mark), item.quant, tail, mark', k);
    MarkIfTwice(stack, mark, mark');
  }

  lemma ThenThen(a: Outcome, b: Outcome, c: Outcome)
    ensures Then(Then(a, b), c) == Then(a, Then(b, c))
  {
  }

  /** One stretch of the scan and then another. */
  lemma Joined(p: string, i: nat, j: nat, k: nat, stack: seq<Open>, v: Outcome, mark: bool, v': Outcome, mark': bool)
    requires Run(p, i, stack, false) == Then(v, Run(p, j, MarkIf(stack, mark), false))
    requires Run(p, j, MarkIf(stack, mark), false) == Then(v', Run(p, k, MarkIf(MarkIf(stack, mark), mark'), false))
    ensures Run(p, i, stack, false) == Then(Then(v, v'), Run(p, k, MarkIf(stack, mark || mark'), false))
  {
    MarkIfTwice(stack, mark, mark');
    ThenThen(v, v', Run(p, k, MarkIf(stack, mark || mark'), false));
  }

  lemma ConsShape(item: Item, rest: Items, tail: string)
    ensures |PrintItems(Cons(item, rest))| == |PrintItem(item)| + |PrintItems(rest)|
    ensures VerdictItems(Cons(item, rest), tail)
      == Then(VerdictAtom(item.atom, item.quant, PrintQuant(item.quant) + (PrintItems(rest) + tail)), VerdictItems(rest, tail))
  {
  }

  lemma {:induction false} RunFirst(p: string, i: nat, stack: seq<Open>, item: Item, rest: Items, tail: string,
                                    mark: bool, v: Outcome, j: nat)
    requires At(p, i, PrintItem(item) + PrintItems(rest), tail)
    requires WfAtom(item.atom) && WfQuant(item.quant) && WfItems(rest) && TailOk(tail) && mark == RiskyItem(item)
    requires v == VerdictAtom(item.atom, item.quant, PrintQuant(item.quant) + (PrintItems(rest) + tail))
    requires j == i + |PrintItem(item)|
    ensures Run(p, i, stack, false) == Then(v, Run(p, j, MarkIf(stack, mark), false))
    decreases item, 2
  {
    AtSplit(p, i, PrintItem(item), PrintItems(rest), tail);
    ItemsTailOk(rest, tail);
    RunItem(p, i, stack, item, PrintItems(rest) + tail, mark, v, j);
  }

  lemma {:induction false} RunRest(p: string, i: nat, stack: seq<Open>, item: Item, rest: Items, tail: string,
                                   mark: bool, v: Outcome, j: nat, k: nat)
    requires At(p, i, PrintItem(item) + PrintItems(rest), tail) && WfItems(rest) && TailOk(tail) && mark == RiskyItems(rest)
    requires v == VerdictItems(rest, tail) && j == i + |PrintItem(item)| && k == j + |PrintItems(rest)|
    ensures Run(p, j, stack, false) == Then(v, Run(p, k, MarkIf(stack, mark), false))
    decreases rest, 3
  {
    AtSplit(p, i, PrintItem(item), PrintItems(rest), tail);
    RunItems(p, j, stack, rest, tail, mark, v, k);
  }

  lemma {:induction false} RunItems(p: string, i: nat, stack: seq<Open>, items: Items, tail: string,
                                    mark: bool, v: Outcome, k: nat)
    requires At(p, i, PrintItems(items), tail) && WfItems(items) && TailOk(tail) && mark == RiskyItems(items)
    requires v == VerdictItems(items, tail) && k == i + |PrintItems(items)|
    ensures Run(p, i, stack, false) == Then(v, Run(p, k, MarkIf(stack, mark), false))
    decreases items, 2
  {
    match items
    case Empty =>
    case Cons(item, rest) =>
      var m, m' := RiskyItem(item), RiskyItems(rest);
      var v1, v2 := VerdictAtom(item.atom, item.quant, PrintQuant(item.quant) + (PrintItems(rest) + tail)), VerdictItems(rest, tail);
      var j := i + |PrintItem(item)|;
      ConsShape(item, rest, tail);
      RunFirst(p, i, stack, item, rest, tail, m, v1, j);
      RunRest(p, i, MarkIf(stack, m), item, rest, tail, m', v2, j, k);
      Joined(p, i, j, k, stack, v1, m, v2, m');
  }

  lemma RunBar(p: string, i: nat, stack: seq<Open>, mark: bool)
    requires i < |p| && p[i] == '|'
    ensures Run(p, i, MarkIf(stack, mark), false) == Run(p, i + 1, MarkIf(stack, true), false)
  {
    StepMark(p, i, MarkIf(stack, mark));
    MarkIfTwice(stack, mark, true);
  }

  lemma OrShape(first: Items, rest: Alts, tail: string)
    ensures |PrintAlts(Or(first, rest))| == |PrintItems(first)| + 1 + |PrintAlts(rest)|
    ensures VerdictAlts(Or(first, rest), tail)
      == Then(VerdictItems(first, "|" + PrintAlts(rest) + tail), VerdictAlts(rest, tail))
  {
  }

  /** The scan across a branch and the bar after it. */
  lemma {:induction false} RunBranch(p: string, i: nat, stack: seq<Open>, first: Items, more: string, tail: string,
                                     mark: bool, v: Outcome, j: nat)
    requires At(p, i, PrintItems(first) + ("|" + more), tail) && WfItems(first) && mark == RiskyItems(first)
    requires v == VerdictItems(first, "|" + more + tail) && j == i + |PrintItems(first)| + 1
    ensures Run(p, i, stack, false) == Then(v, Run(p, j, MarkIf(stack, true), false))
    decreases first, 3
  {
    var text := PrintItems(first);
    assert j - 1 < |p| && p[j - 1] == '|' && At(p, i, text, "|" + more + tail) by {
      BarParts(p, i, text, more, tail);
    }
    RunItems(p, i, stack, first, "|" + more + tail, mark, v, j - 1);
    RunBar(p, j - 1, stack, mark);
  }

  lemma {:induction false} RunOthers(p: string, i: nat, stack: seq<Open>, text: string, rest: Alts, tail: string,
                                     mark: bool, v: Outcome, j: nat, k: nat)
    requires At(p, i, text + ("|" + PrintAlts(rest)), tail) && WfAlts(rest) && TailOk(tail) && mark == RiskyAlts(rest)
    requires v == VerdictAlts(rest, tail) && j == i + |text| + 1 && k == j + |PrintAlts(rest)|
    ensures Run(p, j, stack, false) == Then(v, Run(p, k, MarkIf(stack, mark), false))
    decreases rest, 4
  {
    BarParts(p, i, text, PrintAlts(rest), tail);
    RunAlts(p, j, stack, rest, tail, mark, v, k);
  }

  lemma {:induction false} RunAlts(p: string, i: nat, stack: seq<Open>, a: Alts, tail: string,
                                   mark: bool, v: Outcome, k: nat)
    requires At(p, i, PrintAlts(a), tail) && WfAlts(a) && TailOk(tail) && mark == RiskyAlts(a)
    requires v == VerdictAlts(a, tail) && k == i + |PrintAlts(a)|
    ensures Run(p, i, stack, false) == Then(v, Run(p, k, MarkIf(stack, mark), false))
    decreases a, 3
  {
    match a
    case One(items) => RunItems(p, i, stack, items, tail, mark, v, k);
    case Or(first, rest) =>
      var more := PrintAlts(rest);
      var v1, v2, m' := VerdictItems(first, "|" + more + tail), VerdictAlts(rest, tail), RiskyAlts(rest);
      var j := i + |PrintItems(first)| + 1;
      OrShape(first, rest, tail);
      RunBranch(p, i, stack, first, more, tail, RiskyItems(first), v1, j);
      RunOthers(p, i, MarkIf(stack, true), PrintItems(first), rest, tail, m', v2, j, k);
      Joined(p, i, j, k, stack, v1, true, v2, m');
  }

  // --- the answers -------------------------------------------------------

  /** The scan cuts out a group's own body unless the group is a lookbehind with an angle
      bracket somewhere after it, and finds nothing to cut when that is past its end. */
  lemma SeenExactly(prefix: Prefix, body: string, tail: string)
    ensures Seen(prefix, body, tail) == Text(body) <==> !IsBehind(prefix) || ('>' !in body && '>' !in tail)
    ensures Seen(prefix, body, tail) == Nowhere <==> IsBehind(prefix) && '>' !in body && '>' in tail
  {
    var k := Find(body, '>', 0);
    if k < |body| {
      assert |body[k + 1..]| < |body|;
    }
  }

  /** The scan answers what the tree says, for every tree. */
  lemma ScanReadsTheTree(t: Alts)
    requires WfAlts(t)
    ensures Run(PrintAlts(t), 0, [], false) == VerdictAlts(t, "")
  {
    var p := PrintAlts(t);
    AtMeans(p, 0, p, "");
    RunAlts(p, 0, [], t, "", RiskyAlts(t), VerdictAlts(t, ""), |p|);
  }

  lemma {:induction false} SettledVerdict(a: Alts, tail: string)
    requires SettledAlts(a, tail)
    ensures VerdictAlts(a, tail) == if AmbiguousAlts(a) then Ambiguous else Clear
    decreases a, 3
  {
    match a
    case One(items) => SettledItemsVerdict(items, tail);
    case Or(first, rest) =>
      SettledItemsVerdict(first, "|" + PrintAlts(rest) + tail);
      SettledVerdict(rest, tail);
  }

  lemma {:induction false} SettledItemsVerdict(items: Items, tail: string)
    requires SettledItems(items, tail)
    ensures VerdictItems(items, tail) == if AmbiguousItems(items) then Ambiguous else Clear
    decreases items, 2
  {
    match items
    case Empty =>
    case Cons(item, rest) =>
      var after := PrintQuant(item.quant) + (PrintItems(rest) + tail);
      SettledItemsVerdict(rest, tail);
      match item.atom {
        case Group(prefix, body) =>
          SettledVerdict(body, ")" + after);
          SeenExactly(prefix, PrintAlts(body), after);
        case _ =>
      }
  }

  /** With no angle bracket after a lookbehind, the scan answers exactly whether some
      repeated group, at any depth, holds a choice or a repetition and is not anchored. */
  lemma ScanFindsAmbiguity(t: Alts)
    requires WfAlts(t) && SettledAlts(t, "")
    ensures Run(PrintAlts(t), 0, [], false) == if AmbiguousAlts(t) then Ambiguous else Clear
  {
    ScanReadsTheTree(t);
    SettledVerdict(t, "");
  }

  // --- which group settles the scan ---------------------------------------

  /** A group, its quantifier and the text after its closing parenthesis. */
  datatype Closing = Closing(prefix: Prefix, body: Alts, quant: Quant, tail: string)

  /** The groups in the order they close, inner ones first. */
  function ClosingsAlts(a: Alts, tail: string): seq<Closing> {
    match a
    case One(items) => ClosingsItems(items, tail)
    case Or(first, rest) => ClosingsItems(first, "|" + PrintAlts(rest) + tail) + ClosingsAlts(rest, tail)
  }

  function ClosingsItems(items: Items, tail: string): seq<Closing> {
    match items
    case Empty => []
    case Cons(item, rest) =>
      ClosingsAtom(item.atom, item.quant, PrintQuant(item.quant) + (PrintItems(rest) + tail)) + ClosingsItems(rest, tail)
  }

  function ClosingsAtom(atom: Atom, quant: Quant, tail: string): seq<Closing> {
    match atom
    case Group(prefix, body) => ClosingsAlts(body, ")" + tail) + [Closing(prefix, body, quant, tail)]
    case _ => []
  }

  /** The scan weighs the group, and its body would start past its end. */
  predicate CrashesAt(c: Closing) {
    Weighs(c.quant, c.body) && IsBehind(c.prefix) && '>' !in PrintAlts(c.body) && '>' in c.tail
  }

  /** The scan weighs the group, and the body it cuts out is not anchored. */
  predicate FlagsAt(c: Closing) {
    && Weighs(c.quant, c.body)
    && Seen(c.prefix, PrintAlts(c.body), c.tail).Text?
    && !Anchored(Seen(c.prefix, PrintAlts(c.body), c.tail).s)
  }

  function OutcomeAt(c: Closing): Outcome {
    Weighed(Weighs(c.quant, c.body), Seen(c.prefix, PrintAlts(c.body), c.tail))
  }

  lemma OutcomeAtIs(c: Closing)
    ensures OutcomeAt(c) == if CrashesAt(c) then Crash else if FlagsAt(c) then Ambiguous else Clear
  {
    SeenExactly(c.prefix, PrintAlts(c.body), c.tail);
  }

  function FirstOf(cs: seq<Closing>): Outcome {
    if cs == [] then Clear else Then(OutcomeAt(cs[0]), FirstOf(cs[1..]))
  }

  lemma {:induction false} FirstOfBoth(a: seq<Closing>, b: seq<Closing>)
    ensures FirstOf(a + b) == Then(FirstOf(a), FirstOf(b))
    decreases |a|
  {
    if a == [] {
      assert a + b == b;
    } else {
      assert (a + b)[1..] == a[1..] + b;
      FirstOfBoth(a[1..], b);
    }
  }

  lemma {:induction false} VerdictIsFirst(a: Alts, tail: string)
    ensures VerdictAlts(a, tail) == FirstOf(ClosingsAlts(a, tail))
    decreases a, 2
  {
    match a
    case One(items) => VerdictItemsFirst(items, tail);
    case Or(first, rest) =>
      VerdictItemsFirst(first, "|" + PrintAlts(rest) + tail);
      VerdictIsFirst(rest, tail);
      FirstOfBoth(ClosingsItems(first, "|" + PrintAlts(rest) + tail), ClosingsAlts(rest, tail));
  }

  lemma {:induction false} VerdictItemsFirst(items: Items, tail: string)
    ensures VerdictItems(items, tail) == FirstOf(ClosingsItems(items, tail))
    decreases items, 1
  {
    match items
    case Empty =>
    case Cons(item, rest) =>
      var after := PrintQuant(item.quant) + (PrintItems(rest) + tail);
      VerdictAtomFirst(item.atom, item.quant, after);
      VerdictItemsFirst(rest, tail);
      FirstOfBoth(ClosingsAtom(item.atom, item.quant, after), ClosingsItems(rest, tail));
  }

  lemma {:induction false} VerdictAtomFirst(atom: Atom, quant: Quant, tail: string)
    ensures VerdictAtom(atom, quant, tail) == FirstOf(ClosingsAtom(atom, quant, tail))
    decreases atom, 0
  {
    match atom
    case Group(prefix, body) =>
      var own := [Closing(prefix, body, quant, tail)];
      VerdictIsFirst(body, ")" + tail);
      FirstOfBoth(ClosingsAlts(body, ")" + tail), own);
      assert own[1..] == [] && FirstOf(own) == Then(OutcomeAt(own[0]), Clear);
    case _ =>
  }

  /** No group that closes before the k-th settles the scan. */
  predicate OpenUntil(cs: seq<Closing>, k: int) {
    0 <= k < |cs| && forall j :: 0 <= j < k ==> !CrashesAt(cs[j]) && !FlagsAt(cs[j])
  }

  lemma {:induction false} FirstSettles(cs: seq<Closing>) returns (k: int)
    requires FirstOf(cs) != Clear
    ensures OpenUntil(cs, k) && OutcomeAt(cs[k]) == FirstOf(cs)
    decreases |cs|
  {
    OutcomeAtIs(cs[0]);
    k := 0;
    if OutcomeAt(cs[0]) == Clear {
      var n := FirstSettles(cs[1..]);
      k := n + 1;
      forall j | 0 <= j < k ensures !CrashesAt(cs[j]) && !FlagsAt(cs[j]) {
        if j > 0 { assert cs[j] == cs[1..][j - 1]; }
      }
    }
  }

  lemma {:induction false} SettlesFirst(cs: seq<Closing>, k: int)
    requires OpenUntil(cs, k) && OutcomeAt(cs[k]) != Clear
    ensures FirstOf(cs) == OutcomeAt(cs[k])
    decreases |cs|
  {
    OutcomeAtIs(cs[0]);
    if k > 0 {
      assert forall j :: 0 <= j < k - 1 ==> cs[1..][j] == cs[j + 1];
      SettlesFirst(cs[1..], k - 1);
    }
  }

  /** The scan crashes at the first group to settle it. */
  ghost predicate CrashesFirst(cs: seq<Closing>) {
    exists k :: OpenUntil(cs, k) && CrashesAt(cs[k])
  }

  ghost predicate FlagsFirst(cs: seq<Closing>) {
    exists k :: OpenUntil(cs, k) && FlagsAt(cs[k])
  }

  lemma FirstOfIs(cs: seq<Closing>)
    ensures FirstOf(cs) == Crash <==> CrashesFirst(cs)
    ensures FirstOf(cs) == Ambiguous <==> FlagsFirst(cs)
  {
    if FirstOf(cs) != Clear {
      var k := FirstSettles(cs);
      OutcomeAtIs(cs[k]);
    }
    forall k | OpenUntil(cs, k) && CrashesAt(cs[k]) ensures FirstOf(cs) == Crash {
      OutcomeAtIs(cs[k]);
      SettlesFirst(cs, k);
    }
    forall k | OpenUntil(cs, k) && FlagsAt(cs[k]) ensures FirstOf(cs) == Ambiguous {
      OutcomeAtIs(cs[k]);
      SeenExactly(cs[k].prefix, PrintAlts(cs[k].body), cs[k].tail);
      SettlesFirst(cs, k);
    }
  }

  /** The scan crashes exactly when, of the groups it weighs, the first to settle it is a
      lookbehind with no angle bracket inside and one after; it answers yes exactly when the
      first is one whose body, as cut out, is not anchored. */
  lemma ScanSettles(t: Alts)
    requires WfAlts(t)
    ensures Run(PrintAlts(t), 0, [], false) == Crash <==> CrashesFirst(ClosingsAlts(t, ""))
    ensures Run(PrintAlts(t), 0, [], false) == Ambiguous <==> FlagsFirst(ClosingsAlts(t, ""))
  {
    ScanReadsTheTree(t);
    VerdictIsFirst(t, "");
    FirstOfIs(ClosingsAlts(t, ""));
  }
}
