/** What the scan answers on any text, whether a tree can be written that way or not, by the
    groups that close in it. */
module Groups {
  import opened Regex
  import opened Scanner

  // --- parentheses that stand for themselves ------------------------------

  /** How a character is read: as itself, in a class, or after a backslash. */
  datatype Reading = Outside | Inside | Shielded(inClass: bool)

  function ReadingAt(p: string, i: nat): Reading
    requires i <= |p|
  {
    if i == 0 then Outside
    else
      match ReadingAt(p, i - 1)
      case Shielded(inClass) => if inClass then Inside else Outside
      case Outside => if p[i - 1] == '\\' then Shielded(false) else if p[i - 1] == '[' then Inside else Outside
      case Inside => if p[i - 1] == '\\' then Shielded(true) else if p[i - 1] == ']' then Outside else Inside
  }

  predicate Stands(p: string, i: int, c: char) {
    0 <= i < |p| && p[i] == c && ReadingAt(p, i) == Outside
  }

  /** How many more parentheses open than close after the one place and before the other. */
  function Level(p: string, open: int, to: nat): int
    decreases to
  {
    if to <= open + 1 || to == 0 then 0
    else Level(p, open, to - 1) + if Stands(p, to - 1, '(') then 1 else if Stands(p, to - 1, ')') then -1 else 0
  }

  /** The group opened here has not been closed by then. */
  ghost predicate StillOpen(p: string, open: int, i: nat) {
    && 0 <= open < i && Stands(p, open, '(')
    && forall j :: open < j <= i ==> NoFewer(p, open, j)
  }

  /** No more have closed than opened. */
  predicate NoFewer(p: string, open: int, to: nat) {
    Level(p, open, to) >= 0
  }

  /** The one parenthesis closes the group the other opens. */
  ghost predicate Pairs(p: string, open: int, close: nat) {
    Stands(p, close, ')') && StillOpen(p, open, close) && Level(p, open, close) == 0
  }

  /** A bar, a star, a plus or unbounded braces stand here. */
  predicate MarkHere(p: string, i: nat) {
    && i < |p| && ReadingAt(p, i) == Outside
    && (p[i] in {'|', '*', '+'} || (p[i] == '{' && UnboundedBrace(p, i)))
  }

  ghost predicate MarkWithin(p: string, from: int, to: nat) {
    exists j: nat :: from < j < to && MarkHere(p, j)
  }

  /** The group repeats, and holds at any depth a choice or something that repeats. */
  ghost predicate Weighty(p: string, open: int, close: nat) {
    Pairs(p, open, close) && MarkWithin(p, open, close) && Repeats(p, close + 1)
  }

  /** What the scan makes of one pair of parentheses. */
  ghost function Verdict(p: string, open: int, close: nat): Outcome {
    if !Weighty(p, open, close) then Clear
    else if BodyStart(p, open) > close then Crash
    else if Anchored(p[BodyStart(p, open)..close]) then Clear
    else Ambiguous
  }

  /** No group that closes between the two places settles the scan. */
  ghost predicate Quiet(p: string, from: nat, to: nat) {
    forall open: int, close: nat :: from <= close < to ==> Verdict(p, open, close) == Clear
  }

  /** The first group to close and settle the scan gives this answer; with none, it is clear. */
  ghost predicate Settles(p: string, from: nat, r: Outcome) {
    && (r == Clear <==> Quiet(p, from, |p|))
    && (r != Clear ==>
          exists open: int, close: nat :: from <= close < |p| && Verdict(p, open, close) == r && Quiet(p, from, close))
  }

  /** What a parenthesis here settles, if it settles anything. */
  ghost function Here(p: string, i: nat): Outcome {
    if exists open: int :: Verdict(p, open, i) != Clear then
      var open: int :| Verdict(p, open, i) != Clear;
      Verdict(p, open, i)
    else Clear
  }

  /** The first answer from here on. */
  ghost function FirstFrom(p: string, i: nat): Outcome
    decreases |p| - i
  {
    if i >= |p| then Clear else if Here(p, i) != Clear then Here(p, i) else FirstFrom(p, i + 1)
  }

  // --- what the stack holds ------------------------------------------------

  /** Where the next open group starts, or the place itself. */
  function UpTo(opens: seq<nat>, k: nat, i: nat): nat
    requires k < |opens|
  {
    if k + 1 < |opens| then opens[k + 1] else i
  }

  /** The stack holds the groups still open, innermost last. */
  ghost predicate Holds(p: string, i: nat, stack: seq<Open>, opens: seq<nat>) {
    && i <= |p| && |stack| == |opens|
    && (forall k :: 0 <= k < |opens| ==>
          && StillOpen(p, opens[k], i) && Level(p, opens[k], i) == |opens| - 1 - k
          && stack[k].body == BodyStart(p, opens[k]))
    && (forall k, m :: 0 <= k < m < |opens| ==> opens[k] < opens[m])
    && (forall open: nat :: StillOpen(p, open, i) ==> open in opens)
  }

  /** A group is marked exactly when something between it and the next open one marks it.
      What follows a group just closed may have marked the innermost one already. */
  ghost predicate MarkedRight(p: string, i: nat, stack: seq<Open>, opens: seq<nat>)
    requires |stack| == |opens|
  {
    forall k :: 0 <= k < |opens| ==>
      RightlyRisky(p, i, stack[k].risky, opens[k], UpTo(opens, k, i), k == |opens| - 1)
  }

  ghost predicate RightlyRisky(p: string, i: nat, risky: bool, from: nat, to: nat, innermost: bool) {
    && (MarkWithin(p, from, to) ==> risky)
    && (risky ==> MarkWithin(p, from, to) || (innermost && MarkHere(p, i)))
  }

  ghost predicate Tracks(p: string, i: nat, stack: seq<Open>, opens: seq<nat>) {
    Holds(p, i, stack, opens) && MarkedRight(p, i, stack, opens)
  }

  lemma StillOpenNext(p: string, open: nat, i: nat)
    requires i < |p| && open < i
    ensures StillOpen(p, open, i + 1) <==> StillOpen(p, open, i) && NoFewer(p, open, i + 1)
  {
  }

  lemma OpensHere(p: string, i: nat)
    requires i < |p|
    ensures StillOpen(p, i, i + 1) <==> Stands(p, i, '(')
  {
    assert Level(p, i, i + 1) == 0;
  }

  /** Past a character that is no parenthesis, or a parenthesis with nothing to close. */
  lemma HoldsNext(p: string, i: nat, stack: seq<Open>, opens: seq<nat>)
    requires Holds(p, i, stack, opens) && i < |p|
    requires !Stands(p, i, '(') && (Stands(p, i, ')') ==> stack == [])
    ensures Holds(p, i + 1, stack, opens)
  {
    OpensHere(p, i);
    forall open: nat | open < i ensures StillOpen(p, open, i + 1) ==> StillOpen(p, open, i) {
      StillOpenNext(p, open, i);
    }
  }

  lemma HoldsOpened(p: string, i: nat, stack: seq<Open>, opens: seq<nat>, risky: bool)
    requires Holds(p, i, stack, opens) && Stands(p, i, '(')
    ensures Holds(p, i + 1, stack + [Open(BodyStart(p, i), risky)], opens + [i])
  {
    var after := opens + [i];
    OpensHere(p, i);
    forall open: nat | StillOpen(p, open, i + 1) ensures open in after {
      if open < i { StillOpenNext(p, open, i); assert open in opens; }
    }
    forall k | 0 <= k < |after|
      ensures StillOpen(p, after[k], i + 1) && Level(p, after[k], i + 1) == |after| - 1 - k
    {
      if k < |opens| { assert after[k] == opens[k]; StillOpenNext(p, opens[k], i); }
    }
  }

  lemma HoldsClosed(p: string, i: nat, stack: seq<Open>, opens: seq<nat>, after: seq<Open>)
    requires Holds(p, i, stack, opens) && Stands(p, i, ')') && stack != []
    requires |after| == |stack| - 1 && forall k :: 0 <= k < |after| ==> after[k].body == stack[k].body
    ensures Holds(p, i + 1, after, opens[..|opens| - 1])
  {
    var n := |opens| - 1;
    OpensHere(p, i);
    forall open: nat | StillOpen(p, open, i + 1) ensures open in opens[..n] {
      StillOpenNext(p, open, i);
      var k :| 0 <= k < |opens| && opens[k] == open;
      assert k != n;
      assert opens[..n][k] == open;
    }
    forall k | 0 <= k < n ensures StillOpen(p, opens[k], i + 1) && Level(p, opens[k], i + 1) == n - 1 - k {
      StillOpenNext(p, opens[k], i);
    }
  }

  /** The innermost open group is the one a parenthesis closes. */
  lemma ClosesInnermost(p: string, i: nat, stack: seq<Open>, opens: seq<nat>, open: int)
    requires Holds(p, i, stack, opens) && Stands(p, i, ')')
    ensures Pairs(p, open, i) <==> opens != [] && open == opens[|opens| - 1]
  {
    if Pairs(p, open, i) {
      var k :| 0 <= k < |opens| && opens[k] == open;
    }
  }

  lemma MarkOneMore(p: string, from: int, i: nat)
    requires from < i
    ensures MarkWithin(p, from, i + 1) <==> MarkWithin(p, from, i) || MarkHere(p, i)
  {
    if MarkWithin(p, from, i + 1) {
      var j: nat :| from < j < i + 1 && MarkHere(p, j);
      assert j == i || j < i;
    }
  }

  lemma MarkedNext(p: string, i: nat, stack: seq<Open>, opens: seq<nat>)
    requires Tracks(p, i, stack, opens) && i < |p|
    ensures MarkedRight(p, i + 1, MarkIf(stack, MarkHere(p, i)), opens)
  {
    if opens != [] {
      MarkOneMore(p, opens[|opens| - 1], i);
    }
  }

  lemma MarkedOpened(p: string, i: nat, stack: seq<Open>, opens: seq<nat>)
    requires Tracks(p, i, stack, opens) && Stands(p, i, '(')
    ensures MarkedRight(p, i + 1, stack + [Open(BodyStart(p, i), false)], opens + [i])
  {
    var after, on := stack + [Open(BodyStart(p, i), false)], opens + [i];
    forall k | 0 <= k < |on|
      ensures MarkWithin(p, on[k], UpTo(on, k, i + 1)) <==> after[k].risky
    {
      if k < |opens| {
        assert on[k] == opens[k] && UpTo(on, k, i + 1) == UpTo(opens, k, i);
      }
    }
  }

  /** What marks a group closes with it: the one around it holds the same. */
  lemma MarkInside(p: string, outer: nat, inner: nat, i: nat)
    requires outer < inner < i < |p| && Stands(p, inner, '(') && Stands(p, i, ')')
    ensures MarkWithin(p, outer, i + 1) <==> MarkWithin(p, outer, inner) || MarkWithin(p, inner, i)
  {
    if MarkWithin(p, outer, i + 1) {
      var j: nat :| outer < j < i + 1 && MarkHere(p, j);
      assert j != inner && j != i;
    }
  }

  /** The group around the one just closed is marked by what that one held, or by what
      follows it. */
  lemma OuterMarked(p: string, i: nat, outer: nat, inner: nat, before: bool, held: bool, risky: bool)
    requires outer < inner < i && Stands(p, inner, '(') && Stands(p, i, ')')
    requires RightlyRisky(p, i, before, outer, inner, false) && RightlyRisky(p, i, held, inner, i, true)
    requires risky == (before || held || Repeats(p, i + 1))
    ensures RightlyRisky(p, i + 1, risky, outer, i + 1, true)
  {
    MarkInside(p, outer, inner, i);
    assert Repeats(p, i + 1) ==> MarkHere(p, i + 1);
  }

  lemma MarkedClosed(p: string, i: nat, stack: seq<Open>, opens: seq<nat>, risky: bool, after: seq<Open>, on: seq<nat>)
    requires Tracks(p, i, stack, opens) && Stands(p, i, ')') && stack != []
    requires risky == (stack[|stack| - 1].risky || Repeats(p, i + 1))
    requires after == MarkIf(stack[..|stack| - 1], risky) && on == opens[..|opens| - 1]
    ensures MarkedRight(p, i + 1, after, on)
  {
    forall k | 0 <= k < |on|
      ensures RightlyRisky(p, i + 1, after[k].risky, on[k], UpTo(on, k, i + 1), k == |on| - 1)
    {
      MarkedOneClosed(p, i, stack, opens, k, after[k].risky);
    }
  }

  lemma MarkedOneClosed(p: string, i: nat, stack: seq<Open>, opens: seq<nat>, k: nat, risky: bool)
    requires Tracks(p, i, stack, opens) && Stands(p, i, ')') && k + 1 < |opens|
    requires risky == (stack[k].risky || (k + 2 == |opens| && (stack[k + 1].risky || Repeats(p, i + 1))))
    ensures RightlyRisky(p, i + 1, risky, opens[k], if k + 2 < |opens| then opens[k + 1] else i + 1, k + 2 == |opens|)
  {
    OneMarked(p, i, stack, opens, k);
    OneMarked(p, i, stack, opens, k + 1);
    if k + 2 == |opens| {
      OuterMarked(p, i, opens[k], opens[k + 1], stack[k].risky, stack[k + 1].risky, risky);
    }
  }

  lemma OneMarked(p: string, i: nat, stack: seq<Open>, opens: seq<nat>, k: nat)
    requires Tracks(p, i, stack, opens) && k < |opens|
    ensures RightlyRisky(p, i, stack[k].risky, opens[k], if k + 1 < |opens| then opens[k + 1] else i, k == |opens| - 1)
    ensures opens[k] < i && (k + 1 < |opens| ==> opens[k] < opens[k + 1] < i) && Stands(p, opens[k], '(')
  {
  }

  lemma TracksClosed(p: string, i: nat, stack: seq<Open>, opens: seq<nat>, risky: bool, after: seq<Open>, on: seq<nat>)
    requires Tracks(p, i, stack, opens) && Stands(p, i, ')') && stack != []
    requires risky == (stack[|stack| - 1].risky || Repeats(p, i + 1))
    requires after == MarkIf(stack[..|stack| - 1], risky) && on == opens[..|opens| - 1]
    ensures Tracks(p, i + 1, after, on)
  {
    HoldsClosed(p, i, stack, opens, after);
    MarkedClosed(p, i, stack, opens, risky, after, on);
  }

  lemma TracksOpened(p: string, i: nat, stack: seq<Open>, opens: seq<nat>, after: seq<Open>, on: seq<nat>)
    requires Tracks(p, i, stack, opens) && Stands(p, i, '(')
    requires after == stack + [Open(BodyStart(p, i), false)] && on == opens + [i]
    ensures Tracks(p, i + 1, after, on)
  {
    HoldsOpened(p, i, stack, opens, false);
    MarkedOpened(p, i, stack, opens);
  }

  // --- the answer ----------------------------------------------------------

  lemma NothingCloses(p: string, i: nat)
    requires i < |p| && !Stands(p, i, ')')
    ensures FirstFrom(p, i) == FirstFrom(p, i + 1)
  {
  }

  /** The first answer is that of some pair, and nothing settles before it. */
  lemma {:induction false} FirstIsFirst(p: string, i: nat)
    ensures Settles(p, i, FirstFrom(p, i))
    decreases |p| - i
  {
    if i < |p| {
      FirstIsFirst(p, i + 1);
      if Here(p, i) != Clear {
        var open: int :| Verdict(p, open, i) == Here(p, i);
        assert Quiet(p, i, i);
      } else {
        ClearHere(p, i, FirstFrom(p, i + 1));
      }
    }
  }

  lemma ClearHere(p: string, i: nat, r: Outcome)
    requires i < |p| && Here(p, i) == Clear && Settles(p, i + 1, r)
    ensures Settles(p, i, r)
  {
    assert forall open: int :: Verdict(p, open, i) == Clear;
    if r == Clear {
      forall open: int, close: nat | i <= close < |p| ensures Verdict(p, open, close) == Clear {
        assert close == i || i + 1 <= close;
      }
    } else {
      var open: int, close: nat :| i + 1 <= close < |p| && Verdict(p, open, close) == r && Quiet(p, i + 1, close);
      forall o: int, c: nat | i <= c < close ensures Verdict(p, o, c) == Clear {
        assert c == i || i + 1 <= c;
      }
      assert Quiet(p, i, close);
    }
  }

  lemma TracksNext(p: string, i: nat, stack: seq<Open>, opens: seq<nat>, after: seq<Open>)
    requires Tracks(p, i, stack, opens) && i < |p| && after == MarkIf(stack, MarkHere(p, i))
    requires !Stands(p, i, '(') && (Stands(p, i, ')') ==> stack == [])
    ensures Tracks(p, i + 1, after, opens)
  {
    HoldsNext(p, i, stack, opens);
    MarkedNext(p, i, stack, opens);
    HoldsMarked(p, i + 1, stack, opens, MarkHere(p, i));
  }

  lemma HoldsMarked(p: string, i: nat, stack: seq<Open>, opens: seq<nat>, mark: bool)
    requires Holds(p, i, stack, opens)
    ensures Holds(p, i, MarkIf(stack, mark), opens)
  {
  }

  /** What the scan has on its stack when it comes to a place. */
  function StackAt(p: string, i: nat): seq<Open>
    requires i <= |p|
  {
    if i == 0 then []
    else
      var before := StackAt(p, i - 1);
      if Stands(p, i - 1, '(') then before + [Open(BodyStart(p, i - 1), false)]
      else if Stands(p, i - 1, ')') && before != [] then
        var n := |before| - 1;
        MarkIf(before[..n], before[n].risky || Repeats(p, i))
      else MarkIf(before, MarkHere(p, i - 1))
  }

  /** Where the groups on it were opened. */
  function OpensAt(p: string, i: nat): seq<nat>
    requires i <= |p|
  {
    if i == 0 then []
    else
      var before := OpensAt(p, i - 1);
      if Stands(p, i - 1, '(') then before + [i - 1]
      else if Stands(p, i - 1, ')') && before != [] then before[..|before| - 1]
      else before
  }

  lemma {:induction false} StackTracks(p: string, i: nat, stack: seq<Open>, opens: seq<nat>)
    requires i <= |p| && stack == StackAt(p, i) && opens == OpensAt(p, i)
    ensures Tracks(p, i, stack, opens)
    decreases i
  {
    if i == 0 {
      assert stack == [] && opens == [];
    } else {
      var before, on := StackAt(p, i - 1), OpensAt(p, i - 1);
      StackTracks(p, i - 1, before, on);
      StackNext(p, i - 1, before, on, stack, opens);
    }
  }

  lemma StackNext(p: string, i: nat, stack: seq<Open>, opens: seq<nat>, after: seq<Open>, on: seq<nat>)
    requires i < |p| && stack == StackAt(p, i) && opens == OpensAt(p, i) && after == StackAt(p, i + 1) && on == OpensAt(p, i + 1)
    requires Tracks(p, i, stack, opens)
    ensures Tracks(p, i + 1, after, on)
  {
    if Stands(p, i, '(') {
      TracksOpened(p, i, stack, opens, after, on);
    } else if Stands(p, i, ')') && stack != [] {
      TracksClosed(p, i, stack, opens, stack[|stack| - 1].risky || Repeats(p, i + 1), after, on);
    } else {
      TracksNext(p, i, stack, opens, after);
    }
  }

  lemma NoneCloses(p: string, i: nat)
    requires i < |p| && (p[i] != ')' || StackAt(p, i) == [])
    ensures Here(p, i) == Clear
  {
    var stack, opens := StackAt(p, i), OpensAt(p, i);
    StackTracks(p, i, StackAt(p, i), OpensAt(p, i));
    forall open: int ensures !Pairs(p, open, i) {
      if Stands(p, i, ')') { ClosesInnermost(p, i, stack, opens, open); }
    }
  }

  lemma {:induction false} AsManyOpen(p: string, i: nat)
    requires i <= |p|
    ensures |StackAt(p, i)| == |OpensAt(p, i)|
    decreases i
  {
    if i > 0 {
      AsManyOpen(p, i - 1);
    }
  }

  lemma OnlyInnermost(p: string, i: nat, stack: seq<Open>, opens: seq<nat>, open: nat)
    requires Holds(p, i, stack, opens) && Stands(p, i, ')') && opens != [] && open == opens[|opens| - 1]
    ensures forall o: int :: Pairs(p, o, i) <==> o == open
  {
    forall o: int ensures Pairs(p, o, i) <==> o == open {
      ClosesInnermost(p, i, stack, opens, o);
    }
  }

  /** The innermost group is as risky as what it holds makes it. */
  lemma ClosedIsWeighed(p: string, i: nat, stack: seq<Open>, opens: seq<nat>, open: nat, closed: Open)
    requires Stands(p, i, ')') && stack == StackAt(p, i) && opens == OpensAt(p, i) && |opens| == |stack| > 0
    requires closed == stack[|stack| - 1] && open == opens[|opens| - 1]
    ensures closed.body == BodyStart(p, open)
    ensures closed.risky && Repeats(p, i + 1) <==> Weighty(p, open, i)
    ensures forall o: int :: Pairs(p, o, i) <==> o == open
  {
    StackTracks(p, i, stack, opens);
    OneMarked(p, i, stack, opens, |opens| - 1);
    OnlyInnermost(p, i, stack, opens, open);
  }

  lemma OnlyPair(p: string, i: nat, open: nat)
    requires i < |p| && forall o: int :: Pairs(p, o, i) <==> o == open
    ensures Here(p, i) == Verdict(p, open, i)
  {
  }

  /** The scan from a place, as it comes there, answers the first answer from there on. */
  lemma {:induction false} RunIsFirst(p: string, i: nat, stack: seq<Open>, inClass: bool, r: Outcome)
    requires i <= |p| && stack == StackAt(p, i) && ReadingAt(p, i) == (if inClass then Inside else Outside)
    requires r == Run(p, i, stack, inClass)
    ensures r == FirstFrom(p, i)
    decreases |p| - i, 1
  {
    if i < |p| {
      assert r == RunAt(p, i, stack, inClass);
      if p[i] == '\\' {
        PastEscape(p, i, stack, inClass);
        if i + 1 < |p| {
          RunIsFirst(p, i + 2, stack, inClass, r);
        } else {
          assert Run(p, i + 2, stack, inClass) == Clear;
        }
      } else if inClass {
        NothingCloses(p, i);
        RunIsFirst(p, i + 1, stack, p[i] != ']', r);
      } else {
        BareIsFirst(p, i, stack, r);
      }
    }
  }

  /** Neither a backslash nor what follows it closes anything. */
  lemma PastEscape(p: string, i: nat, stack: seq<Open>, inClass: bool)
    requires i < |p| && p[i] == '\\' && stack == StackAt(p, i)
    requires ReadingAt(p, i) == if inClass then Inside else Outside
    ensures i + 1 == |p| ==> FirstFrom(p, i) == Clear
    ensures i + 1 < |p| ==>
              && FirstFrom(p, i) == FirstFrom(p, i + 2) && StackAt(p, i + 2) == stack
              && ReadingAt(p, i + 2) == if inClass then Inside else Outside
  {
    NothingCloses(p, i);
    if i + 1 < |p| {
      assert ReadingAt(p, i + 1) == Shielded(inClass);
      NothingCloses(p, i + 1);
      assert StackAt(p, i + 2) == StackAt(p, i + 1) == stack;
    }
  }

  lemma {:induction false} BareIsFirst(p: string, i: nat, stack: seq<Open>, r: Outcome)
    requires i < |p| && p[i] != '\\' && stack == StackAt(p, i) && ReadingAt(p, i) == Outside
    requires r == RunBare(p, i, stack)
    ensures r == FirstFrom(p, i)
    decreases |p| - i, 0
  {
    var after := StackAt(p, i + 1);
    if p[i] == ')' && stack != [] {
      CloseIsHere(p, i, stack, r);
      if Here(p, i) == Clear {
        RunIsFirst(p, i + 1, after, false, r);
      }
    } else {
      NoneCloses(p, i);
      assert r == Run(p, i + 1, after, p[i] == '[');
      RunIsFirst(p, i + 1, after, p[i] == '[', r);
    }
  }

  lemma CloseIsHere(p: string, i: nat, stack: seq<Open>, r: Outcome)
    requires Stands(p, i, ')') && stack != [] && stack == StackAt(p, i)
    requires r == Close(p, i, stack)
    ensures r == if Here(p, i) != Clear then Here(p, i) else Run(p, i + 1, StackAt(p, i + 1), false)
  {
    var n := |stack| - 1;
    AsManyOpen(p, i);
    var open := OpensAt(p, i)[n];
    ClosedIsWeighed(p, i, stack, OpensAt(p, i), open, stack[n]);
    OnlyPair(p, i, open);
  }

  /** On any text the scan answers what the first group to close and settle it does: a group
      that repeats, holds a choice or a repetition, and whose body, as cut out, starts past
      its end or is not anchored. It is clear exactly where there is none. */
  lemma ScanSettlesAnyText(p: string)
    ensures Settles(p, 0, Run(p, 0, [], false))
  {
    RunIsFirst(p, 0, [], false, Run(p, 0, [], false));
    FirstIsFirst(p, 0);
  }

  /** A text in which no parenthesis that closes is followed by a repetition is clear, however
      its groups are left open. */
  lemma NothingRepeatedIsClear(p: string)
    requires forall k: nat :: k < |p| && p[k] == ')' ==> !Repeats(p, k + 1)
    ensures Run(p, 0, [], false) == Clear
  {
    ScanSettlesAnyText(p);
  }

  // --- bars of any text ------------------------------------------------------

  /** A bar stands here, outside every group: as many have closed before it as opened. */
  predicate BarAt(body: string, k: int) {
    0 <= k && Stands(body, k, '|') && Level(body, -1, k) == 0
  }

  ghost predicate NoBar(body: string, from: nat, to: nat) {
    forall k :: from <= k < to ==> !BarAt(body, k)
  }

  lemma NoBarNext(body: string, from: nat, to: nat)
    requires !BarAt(body, from) && NoBar(body, from + 1, to)
    ensures NoBar(body, from, to)
  {
    forall k | from <= k < to ensures !BarAt(body, k) {
      assert k == from || from + 1 <= k;
    }
  }

  /** The search for a bar, from any place as it comes there, finds the next one. */
  lemma {:induction false} NextBarIsNext(body: string, i: nat, depth: int, inClass: bool, k: nat)
    requires i <= |body| && k == NextBar(body, i, depth, inClass)
    requires depth == Level(body, -1, i) && ReadingAt(body, i) == if inClass then Inside else Outside
    ensures i <= k <= |body| && NoBar(body, i, k) && (k < |body| ==> BarAt(body, k))
    decreases |body| - i
  {
    if i < |body| {
      var c := body[i];
      if c == '\\' {
        ShieldedPair(body, i, inClass);
        if i + 1 < |body| {
          NextBarIsNext(body, i + 2, depth, inClass, k);
          NoBarNext(body, i + 1, k);
          NoBarNext(body, i, k);
        }
      } else if !inClass && c == '|' && depth == 0 {
        assert k == i;
      } else {
        var next := if inClass then c != ']' else c == '[';
        var below := if inClass then depth else if c == '(' then depth + 1 else if c == ')' then depth - 1 else depth;
        assert k == NextBar(body, i + 1, below, next);
        NextBarIsNext(body, i + 1, below, next, k);
        NoBarNext(body, i, k);
      }
    }
  }

  lemma ShieldedPair(body: string, i: nat, inClass: bool)
    requires i < |body| && body[i] == '\\' && ReadingAt(body, i) == if inClass then Inside else Outside
    ensures !BarAt(body, i) && Level(body, -1, i + 1) == Level(body, -1, i)
    ensures i + 1 < |body| ==>
              && !BarAt(body, i + 1) && Level(body, -1, i + 2) == Level(body, -1, i)
              && ReadingAt(body, i + 2) == if inClass then Inside else Outside
  {
    if i + 1 < |body| {
      assert ReadingAt(body, i + 1) == Shielded(inClass);
    }
  }

  /** On any text, a bar of its own level is found exactly when there is one. */
  lemma HasBarExactly(body: string)
    ensures HasBar(body) <==> exists k :: BarAt(body, k)
  {
    NextBarIsNext(body, 0, 0, false, NextBar(body, 0, 0, false));
  }

  /** What stands between two such bars, or an end of the text and one. */
  ghost predicate Branch(body: string, from: nat, to: nat) {
    && from <= to <= |body| && NoBar(body, from, to)
    && (from == 0 || BarAt(body, from - 1)) && (to == |body| || BarAt(body, to))
  }

  /** From a branch on, each is a single atom that is not among those seen, and no two are
      alike. */
  ghost predicate AllDistinct(body: string, start: nat, seen: set<string>) {
    && (forall from: nat, to: nat :: start <= from && Branch(body, from, to) ==>
          SingleAtom(body[from..to]) && body[from..to] !in seen)
    && (forall a: nat, b: nat, c: nat, d: nat :: start <= a < c && Branch(body, a, b) && Branch(body, c, d) ==>
          body[a..b] != body[c..d])
  }

  lemma BranchStarts(body: string, start: nat, end: nat)
    requires Branch(body, start, end)
    ensures forall from: nat, to: nat :: start <= from && Branch(body, from, to) ==>
              (from == start && to == end) || (end < |body| && end + 1 <= from)
  {
    forall from: nat, to: nat | start <= from && Branch(body, from, to)
      ensures (from == start && to == end) || (end < |body| && end + 1 <= from)
    {
      assert to < end ==> BarAt(body, to);
      assert end < to && end < |body| ==> BarAt(body, end);
      assert start < from ==> BarAt(body, from - 1);
    }
  }

  lemma {:induction false} DistinctFromHere(body: string, start: nat, seen: set<string>)
    requires start <= |body| && (start == 0 || BarAt(body, start - 1))
    ensures Distinct(body, start, seen) <==> AllDistinct(body, start, seen)
    decreases |body| - start
  {
    var end := NextBar(body, start, 0, false);
    var b := body[start..end];
    BranchFound(body, start, end);
    BranchEnds(body, start, end, seen);
    if end < |body| {
      DistinctFromHere(body, end + 1, seen + {b});
      DistinctOneMore(body, start, end, seen, b);
    } else {
      DistinctLast(body, start, seen, b);
    }
  }

  lemma BranchFound(body: string, start: nat, end: nat)
    requires start <= |body| && (start == 0 || BarAt(body, start - 1)) && end == NextBar(body, start, 0, false)
    ensures Branch(body, start, end)
  {
    NextBarIsNext(body, start, 0, false, end);
  }

  lemma DistinctLast(body: string, start: nat, seen: set<string>, b: string)
    requires Branch(body, start, |body|) && b == body[start..|body|]
    ensures AllDistinct(body, start, seen) <==> SingleAtom(b) && b !in seen
  {
    BranchStarts(body, start, |body|);
  }

  lemma DistinctOneMore(body: string, start: nat, end: nat, seen: set<string>, b: string)
    requires Branch(body, start, end) && end < |body| && b == body[start..end]
    ensures AllDistinct(body, start, seen) <==>
            SingleAtom(b) && b !in seen && AllDistinct(body, end + 1, seen + {b})
  {
    BranchStarts(body, start, end);
  }

  /** On any text, the branches pass exactly when each is a single atom and no two are
      written alike. */
  lemma DistinctExactly(body: string)
    ensures Distinct(body, 0, {}) <==> AllDistinct(body, 0, {})
  {
    DistinctFromHere(body, 0, {});
  }

  // --- braces and prefixes of any text --------------------------------------

  /** The first closing brace after a place, and the first comma before that. */
  predicate BracesAt(p: string, i: nat, comma: int, end: int) {
    && i < comma < end < |p| && p[end] == '}' && p[comma] == ','
    && (forall k :: i < k < end ==> p[k] != '}') && (forall k :: i < k < comma ==> p[k] != ',')
  }

  /** On any text, braces are unbounded exactly when they close and hold a comma, with nothing
      or two characters or more after it. */
  lemma UnboundedExactly(p: string, i: nat)
    requires i < |p| && p[i] == '{'
    ensures UnboundedBrace(p, i) <==>
            exists comma, end :: BracesAt(p, i, comma, end) && (end == comma + 1 || end >= comma + 3)
  {
    var end := Find(p, '}', i);
    if end < |p| {
      var text := p[i + 1..end];
      var k := CommaAt(text);
      assert forall j :: 0 <= j < |text| ==> text[j] == p[i + 1 + j];
      if k < |text| {
        assert forall j :: 0 <= j < k ==> text[j] in text[..k];
        assert forall j :: i < j < i + 1 + k ==> p[j] == text[j - i - 1];
        assert BracesAt(p, i, i + 1 + k, end);
      }
      if comma, last :| BracesAt(p, i, comma, last) {
        assert last == end;
        assert text[comma - i - 1] == ',';
        assert k == comma - i - 1;
      }
    }
  }

  /** Where a group's body is taken to start, on any text: after what introduces it, or past
      the next angle bracket where that could be a name's. */
  lemma BodyStartExactly(p: string, open: nat, g: int)
    requires open + 1 <= |p|
    ensures open + 1 == |p| || p[open + 1] != '?' ==> BodyStart(p, open) == open + 1
    ensures open + 2 == |p| && p[open + 1] == '?' ==> BodyStart(p, open) == open + 2
    ensures open + 2 < |p| && p[open + 1] == '?' && p[open + 2] in {':', '=', '!'} ==> BodyStart(p, open) == open + 3
    ensures open + 2 < |p| && p[open + 1] == '?' && p[open + 2] !in {':', '=', '!', '<', 'P'} ==> BodyStart(p, open) == open + 2
    ensures open + 2 < |p| && p[open + 1] == '?' && p[open + 2] in {'<', 'P'}
            && open + 2 <= g < |p| && p[g] == '>' && (forall k :: open + 2 <= k < g ==> p[k] != '>') ==>
              BodyStart(p, open) == g + 1
    ensures open + 2 < |p| && p[open + 1] == '?' && p[open + 2] in {'<', 'P'} && (forall k :: open + 2 <= k < |p| ==> p[k] != '>') ==>
              BodyStart(p, open) == if open + 3 < |p| && p[open + 3] in {'=', '!'} then open + 4 else open + 2
  {
    if open + 2 < |p| {
      var end := Find(p, '>', open + 2);
    }
  }

  /** How wide the quantifier at a place of any text is: a sign with the mode after it, braces
      through the one that closes them, nothing where none stands or they never close. */
  lemma WidthExactly(p: string, i: nat, end: int)
    ensures i >= |p| || p[i] !in {'*', '?', '+', '{'} ==> QuantifierWidth(p, i) == 0
    ensures i < |p| && p[i] in {'*', '?', '+'} ==>
              QuantifierWidth(p, i) == if i + 1 < |p| && p[i + 1] in {'?', '+'} then 2 else 1
    ensures i < end < |p| && p[i] == '{' && p[end] == '}' && (forall k :: i < k < end ==> p[k] != '}') ==>
              i + QuantifierWidth(p, i) == end + 1
    ensures i < |p| && p[i] == '{' && (forall k :: i < k < |p| ==> p[k] != '}') ==> QuantifierWidth(p, i) == 0
  {
    if i < |p| && p[i] == '{' {
      var last := Find(p, '}', i);
    }
  }

  // --- atoms of any text -----------------------------------------------------

  /** A backslash before it takes the character as it is, counting from a place on. */
  predicate TakenAsIs(p: string, from: nat, k: nat)
    requires k <= |p|
    decreases k
  {
    k > from && p[k - 1] == '\\' && !TakenAsIs(p, from, k - 1)
  }

  predicate Plainly(p: string, from: nat, k: int, c: char) {
    from <= k < |p| && p[k] == c && !TakenAsIs(p, from, k)
  }

  /** How many more parentheses open than close, wherever they stand. */
  function Turns(p: string, from: nat, to: nat): int
    decreases to
  {
    if to <= from then 0
    else Turns(p, from, to - 1) + if Plainly(p, from, to - 1, '(') then 1 else if Plainly(p, from, to - 1, ')') then -1 else 0
  }

  /** The first place, if there is one, at which the count comes to nothing. */
  predicate ClosesAt(p: string, from: nat, depth: int, k: int) {
    from <= k && Plainly(p, from, k, ')') && depth + Turns(p, from, k) == 1
  }

  ghost predicate NoneBefore(p: string, from: nat, c: char, i: nat, to: nat) {
    forall k :: i <= k < to ==> !Plainly(p, from, k, c)
  }

  lemma {:induction false} ClassEndFrom(p: string, from: nat, i: nat, end: nat)
    requires from <= i && end == ClassEnd(p, i) && (i <= |p| ==> !TakenAsIs(p, from, i))
    ensures end == 0 ==> NoneBefore(p, from, ']', i, |p|)
    ensures end != 0 ==> i < end && Plainly(p, from, end - 1, ']') && NoneBefore(p, from, ']', i, end - 1)
    decreases |p| - i
  {
    if i < |p| {
      if p[i] == '\\' {
        assert i + 1 < |p| ==> TakenAsIs(p, from, i + 1) && !TakenAsIs(p, from, i + 2);
        ClassEndFrom(p, from, i + 2, end);
        NoneOneMore(p, from, ']', i + 1, if end == 0 then |p| else end - 1);
        NoneOneMore(p, from, ']', i, if end == 0 then |p| else end - 1);
      } else if p[i] != ']' {
        ClassEndFrom(p, from, i + 1, end);
        NoneOneMore(p, from, ']', i, if end == 0 then |p| else end - 1);
      }
    }
  }

  lemma NoneOneMore(p: string, from: nat, c: char, i: nat, to: nat)
    requires !Plainly(p, from, i, c) && NoneBefore(p, from, c, i + 1, to)
    ensures NoneBefore(p, from, c, i, to)
  {
    forall k | i <= k < to ensures !Plainly(p, from, k, c) {
      assert k == i || i + 1 <= k;
    }
  }

  ghost predicate NotClosedBefore(p: string, from: nat, depth: int, i: nat, to: nat) {
    forall k :: i <= k < to ==> !ClosesAt(p, from, depth, k)
  }

  lemma NotClosedOneMore(p: string, from: nat, depth: int, i: nat, to: nat)
    requires !ClosesAt(p, from, depth, i) && NotClosedBefore(p, from, depth, i + 1, to)
    ensures NotClosedBefore(p, from, depth, i, to)
  {
    forall k | i <= k < to ensures !ClosesAt(p, from, depth, k) {
      assert k == i || i + 1 <= k;
    }
  }

  lemma {:induction false} GroupEndFrom(p: string, from: nat, depth: int, i: nat, now: int, end: nat)
    requires from <= i && end == GroupEnd(p, i, now) && (i <= |p| ==> !TakenAsIs(p, from, i) && now == depth + Turns(p, from, i))
    ensures end == 0 ==> NotClosedBefore(p, from, depth, i, |p|)
    ensures end != 0 ==> i < end && ClosesAt(p, from, depth, end - 1) && NotClosedBefore(p, from, depth, i, end - 1)
    decreases |p| - i
  {
    if i < |p| {
      var to: nat := if end == 0 then |p| else end - 1;
      if p[i] == '\\' {
        assert i + 1 < |p| ==> TakenAsIs(p, from, i + 1) && !TakenAsIs(p, from, i + 2);
        assert i + 1 < |p| ==> Turns(p, from, i + 2) == Turns(p, from, i + 1) == Turns(p, from, i);
        GroupEndFrom(p, from, depth, i + 2, now, end);
        NotClosedOneMore(p, from, depth, i + 1, to);
        NotClosedOneMore(p, from, depth, i, to);
      } else if !(p[i] == ')' && now == 1) {
        var next := if p[i] == '(' then now + 1 else if p[i] == ')' then now - 1 else now;
        GroupEndFrom(p, from, depth, i + 1, next, end);
        NotClosedOneMore(p, from, depth, i, to);
      }
    }
  }

  /** Where the atom at a place of any text ends: a class at the first bracket that closes it,
      a group where its parentheses, counted in classes too, come to nothing, an escape after
      what it escapes, any other character after itself; none where nothing of the kind
      follows, or a parenthesis closes or a bar stands there. */
  lemma AtomEndExactly(p: string, i: nat, end: nat)
    requires end == AtomEnd(p, i)
    ensures i >= |p| ==> end == 0
    ensures i < |p| && p[i] in {')', '|'} ==> end == 0
    ensures i < |p| && p[i] == '\\' ==> end == if i + 2 <= |p| then i + 2 else 0
    ensures i < |p| && p[i] == '[' && end == 0 ==> NoneBefore(p, i + 1, ']', i + 1, |p|)
    ensures i < |p| && p[i] == '[' && end != 0 ==> Plainly(p, i + 1, end - 1, ']') && NoneBefore(p, i + 1, ']', i + 1, end - 1)
    ensures i < |p| && p[i] == '(' && end == 0 ==> NotClosedBefore(p, i, 0, i, |p|)
    ensures i < |p| && p[i] == '(' && end != 0 ==> ClosesAt(p, i, 0, end - 1) && NotClosedBefore(p, i, 0, i, end - 1)
    ensures i < |p| && p[i] !in {'\\', '[', '(', ')', '|'} ==> end == i + 1
  {
    if i < |p| && p[i] == '[' {
      ClassEndFrom(p, i + 1, i + 1, end);
    } else if i < |p| && p[i] == '(' {
      GroupEndFrom(p, i, 0, i, 0, end);
    }
  }
}
