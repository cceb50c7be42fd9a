/** The one-pass scan for a repeated group whose repetitions overlap. Each loop of the
    program is a method proved against the function beside it. */
module Scanner {
  import opened Regex

  // --- looking at one place ----------------------------------------------

  /** Where a character next occurs, or the length. */
  function Find(p: string, c: char, i: nat): (k: nat)
    requires i <= |p|
    ensures i <= k <= |p| && (k < |p| ==> p[k] == c)
    ensures forall j :: i <= j < k ==> p[j] != c
    decreases |p| - i
  {
    if i == |p| || p[i] == c then i else Find(p, c, i + 1)
  }

  /** Whether the braces opened here close, around an unbounded count. */
  predicate UnboundedBrace(p: string, i: nat)
    requires i < |p| && p[i] == '{'
  {
    var end := Find(p, '}', i);
    end < |p| && UnboundedText(p[i + 1..end])
  }

  /** Whether a star, a plus or unbounded braces stand here. */
  predicate Repeats(p: string, i: nat) {
    i < |p| && (p[i] == '*' || p[i] == '+' || (p[i] == '{' && UnboundedBrace(p, i)))
  }

  /** Where a group's body starts, past `?:`, `?<name>` and the like. */
  function BodyStart(p: string, open: nat): nat {
    var i := open + 1;
    if i >= |p| || p[i] != '?' then i
    else if i + 1 >= |p| then i + 1
    else if p[i + 1] in {':', '=', '!'} then i + 2
    else if p[i + 1] in {'<', 'P'} then
      var end := Find(p, '>', i + 1);
      if end < |p| then end + 1
      else if i + 2 < |p| && (p[i + 2] == '=' || p[i + 2] == '!') then i + 3
      else i + 1
    else i + 1
  }

  datatype Quantifier = Once | Maybe | Repeatable

  function QuantifierAt(p: string, i: nat): Quantifier {
    if i >= |p| then Once
    else if p[i] == '*' || p[i] == '?' then Maybe
    else if p[i] == '+' then Repeatable
    else if p[i] == '{' && UnboundedBrace(p, i) then Repeatable
    else Once
  }

  function QuantifierWidth(p: string, i: nat): nat {
    if i >= |p| then 0
    else if p[i] == '*' || p[i] == '?' || p[i] == '+' then
      if i + 1 < |p| && (p[i + 1] == '?' || p[i + 1] == '+') then 2 else 1
    else if p[i] == '{' then
      var end := Find(p, '}', i);
      if end < |p| then end - i + 1 else 0
    else 0
  }

  // --- choices at a body's own level -------------------------------------

  /** Where the next bar outside every group and class is, or the length. */
  function NextBar(body: string, i: nat, depth: int, inClass: bool): (k: nat)
    ensures k <= |body| && (i <= |body| ==> i <= k)
    decreases |body| - i
  {
    if i >= |body| then |body|
    else
      var c := body[i];
      if c == '\\' then NextBar(body, i + 2, depth, inClass)
      else if inClass then NextBar(body, i + 1, depth, c != ']')
      else if c == '[' then NextBar(body, i + 1, depth, true)
      else if c == '(' then NextBar(body, i + 1, depth + 1, false)
      else if c == ')' then NextBar(body, i + 1, depth - 1, false)
      else if c == '|' && depth == 0 then i
      else NextBar(body, i + 1, depth, false)
  }

  /** Whether a bar stands outside the body's groups and classes. */
  predicate HasBar(body: string) {
    NextBar(body, 0, 0, false) < |body|
  }

  method TopLevelAlternation(body: string) returns (r: bool)
    ensures r == HasBar(body)
  {
    var depth, inClass, i := 0, false, 0;
    while i < |body|
      invariant NextBar(body, i, depth, inClass) == NextBar(body, 0, 0, false)
      decreases |body| - i
    {
      var c := body[i];
      if c == '\\' {
        i := i + 1;
      } else if inClass {
        if c == ']' {
          inClass := false;
        }
      } else if c == '[' {
        inClass := true;
      } else if c == '(' {
        depth := depth + 1;
      } else if c == ')' {
        depth := depth - 1;
      } else if c == '|' && depth == 0 {
        return true;
      }
      i := i + 1;
    }
    return false;
  }

  /** The text is one bare atom that is no group and no wildcard. */
  predicate SingleAtom(b: string) {
    if b == "" then false
    else if b[0] == '\\' then |b| == 2
    else if b[0] == '[' then Find(b, ']', 0) == |b| - 1
    else if b[0] in {'(', '.', '^', '$'} then false
    else |b| == 1
  }

  /** The branches from here on are each one atom, none seen before. */
  predicate Distinct(body: string, start: nat, seen: set<string>)
    requires start <= |body|
    decreases |body| - start
  {
    var end := NextBar(body, start, 0, false);
    var b := body[start..end];
    SingleAtom(b) && b !in seen && (end < |body| ==> Distinct(body, end + 1, seen + {b}))
  }

  lemma BranchEnds(body: string, start: nat, end: nat, seen: set<string>)
    requires start <= end <= |body| && NextBar(body, start, 0, false) == end
    ensures var b := body[start..end];
      Distinct(body, start, seen) == (SingleAtom(b) && b !in seen && (end < |body| ==> Distinct(body, end + 1, seen + {b})))
    ensures body[start..] == body[start..|body|]
  {
  }

  method DistinctSingleCharacters(body: string) returns (r: bool)
    ensures r == Distinct(body, 0, {})
  {
    var seen: set<string> := {};
    var depth, inClass, start, i := 0, false, 0, 0;
    while i < |body|
      invariant start <= i && start <= |body|
      invariant NextBar(body, i, depth, inClass) == NextBar(body, start, 0, false)
      invariant Distinct(body, start, seen) == Distinct(body, 0, {})
      decreases |body| - i
    {
      var c := body[i];
      if c == '\\' {
        i := i + 1;
      } else if inClass {
        if c == ']' {
          inClass := false;
        }
      } else if c == '[' {
        inClass := true;
      } else if c == '(' {
        depth := depth + 1;
      } else if c == ')' {
        depth := depth - 1;
      } else if c == '|' && depth == 0 {
        var b := body[start..i];
        BranchEnds(body, start, i, seen);
        if !SingleAtom(b) || b in seen {
          return false;
        }
        seen := seen + {b};
        start := i + 1;
      }
      i := i + 1;
    }
    BranchEnds(body, start, |body|, seen);
    var b := body[start..];
    return SingleAtom(b) && b !in seen;
  }

  // --- atoms -------------------------------------------------------------

  /** Where the class scanned from here ends, or nothing. */
  function ClassEnd(p: string, j: nat): (end: nat)
    ensures end == 0 || j < end <= |p|
    decreases |p| - j
  {
    if j >= |p| then 0
    else if p[j] == '\\' then ClassEnd(p, j + 2)
    else if p[j] == ']' then j + 1
    else ClassEnd(p, j + 1)
  }

  /** Where the group scanned from here ends, or nothing. Parentheses are counted inside
      classes too. */
  function GroupEnd(p: string, j: nat, depth: int): (end: nat)
    ensures end == 0 || j < end <= |p|
    decreases |p| - j
  {
    if j >= |p| then 0
    else if p[j] == '\\' then GroupEnd(p, j + 2, depth)
    else if p[j] == '(' then GroupEnd(p, j + 1, depth + 1)
    else if p[j] == ')' then if depth == 1 then j + 1 else GroupEnd(p, j + 1, depth - 1)
    else GroupEnd(p, j + 1, depth)
  }

  /** Where the atom here ends, or nothing if there is none. */
  function AtomEnd(p: string, i: nat): (end: nat)
    ensures end == 0 || i < end <= |p|
  {
    if i >= |p| then 0
    else if p[i] == '\\' then if i + 1 >= |p| then 0 else i + 2
    else if p[i] == '[' then ClassEnd(p, i + 1)
    else if p[i] == '(' then GroupEnd(p, i, 0)
    else if p[i] == ')' || p[i] == '|' then 0
    else i + 1
  }

  /** The length of the atom here. */
  method AtomWidth(p: string, i: nat) returns (width: nat, ok: bool)
    ensures ok == (AtomEnd(p, i) != 0) && (ok ==> i + width == AtomEnd(p, i)) && (!ok ==> width == 0)
  {
    if i >= |p| {
      return 0, false;
    }
    if p[i] == '\\' {
      if i + 1 >= |p| {
        return 0, false;
      }
      return 2, true;
    }
    if p[i] == '[' {
      var j := i + 1;
      while j < |p|
        invariant j > i && ClassEnd(p, j) == ClassEnd(p, i + 1)
        decreases |p| - j
      {
        if p[j] == '\\' {
          j := j + 2;
          continue;
        }
        if p[j] == ']' {
          return j - i + 1, true;
        }
        j := j + 1;
      }
      return 0, false;
    }
    if p[i] == '(' {
      var depth, j := 0, i;
      while j < |p|
        invariant j >= i && GroupEnd(p, j, depth) == GroupEnd(p, i, 0)
        decreases |p| - j
      {
        if p[j] == '\\' {
          j := j + 1;
        } else if p[j] == '(' {
          depth := depth + 1;
        } else if p[j] == ')' {
          depth := depth - 1;
          if depth == 0 {
            return j - i + 1, true;
          }
        }
        j := j + 1;
      }
      return 0, false;
    }
    if p[i] == ')' || p[i] == '|' {
      return 0, false;
    }
    return 1, true;
  }

  // --- anchoring ---------------------------------------------------------

  /** Past atoms that may be left out, to a first that is neither repeated nor a group. */
  predicate Marked(body: string, i: nat)
    decreases |body| - i
  {
    i < |body| &&
    var end := AtomEnd(body, i);
    end != 0 &&
    match QuantifierAt(body, end)
    case Maybe => Marked(body, end + QuantifierWidth(body, end))
    case Repeatable => false
    case Once => body[i] != '('
  }

  /** What the scan asks of a body before it lets it repeat. */
  predicate Anchored(body: string) {
    body != "" &&
    if HasBar(body) then Distinct(body, 0, {}) else Marked(body, 0)
  }

  method IsAnchored(body: string) returns (r: bool)
    ensures r == Anchored(body)
  {
    if body == "" {
      return false;
    }
    var alternation := TopLevelAlternation(body);
    if alternation {
      r := DistinctSingleCharacters(body);
      return;
    }
    var i := 0;
    while i < |body|
      invariant Marked(body, i) == Marked(body, 0)
      decreases |body| - i
    {
      var width, ok := AtomWidth(body, i);
      if !ok {
        return false;
      }
      match QuantifierAt(body, i + width) {
        case Maybe => i := i + width + QuantifierWidth(body, i + width);
        case Repeatable => return false;
        case Once => return body[i] != '(';
      }
    }
    return false;
  }

  // --- the scan ----------------------------------------------------------

  /** A group still open: the start of its body, and the mark that something in it repeats. */
  datatype Open = Open(body: nat, risky: bool)

  /** What the scan comes to. It crashes when it cuts a body that starts past its end. */
  datatype Outcome = Ambiguous | Clear | Crash

  function MarkIf(stack: seq<Open>, mark: bool): seq<Open> {
    if mark && stack != [] then stack[|stack| - 1 := stack[|stack| - 1].(risky := true)] else stack
  }

  /** The scan from here on. */
  function Run(p: string, i: nat, stack: seq<Open>, inClass: bool): Outcome
    decreases |p| - i, 3
  {
    if i >= |p| then Clear else RunAt(p, i, stack, inClass)
  }

  function RunAt(p: string, i: nat, stack: seq<Open>, inClass: bool): Outcome
    requires i < |p|
    decreases |p| - i, 2
  {
    if p[i] == '\\' then Run(p, i + 2, stack, inClass)
    else if inClass then Run(p, i + 1, stack, p[i] != ']')
    else RunBare(p, i, stack)
  }

  /** The scan from a character outside every class. */
  function RunBare(p: string, i: nat, stack: seq<Open>): Outcome
    requires i < |p|
    decreases |p| - i, 1
  {
    var c := p[i];
    if c == '[' then Run(p, i + 1, stack, true)
    else if c == '(' then Run(p, i + 1, stack + [Open(BodyStart(p, i), false)], false)
    else if c == ')' then
      if stack == [] then Run(p, i + 1, stack, false) else Close(p, i, stack)
    else if c == '|' || c == '*' || c == '+' || (c == '{' && UnboundedBrace(p, i)) then
      Run(p, i + 1, MarkIf(stack, true), false)
    else Run(p, i + 1, stack, false)
  }

  /** The scan from a parenthesis that closes a group. */
  function Close(p: string, i: nat, stack: seq<Open>): Outcome
    requires i < |p| && stack != []
    decreases |p| - i, 0
  {
    var closed := stack[|stack| - 1];
    var rest := stack[..|stack| - 1];
    if closed.risky && Repeats(p, i + 1) && closed.body > i then Crash
    else if closed.risky && Repeats(p, i + 1) && !Anchored(p[closed.body..i]) then Ambiguous
    else Run(p, i + 1, MarkIf(rest, closed.risky || Repeats(p, i + 1)), false)
  }

  lemma RunsBare(p: string, i: nat, stack: seq<Open>)
    requires i < |p| && p[i] != '\\'
    ensures Run(p, i, stack, false) == RunBare(p, i, stack)
  {
    assert RunAt(p, i, stack, false) == RunBare(p, i, stack);
  }

  /** The last occurrence of a character, or -1. */
  function LastIndex(p: string, c: char): (k: int)
    ensures -1 <= k < |p| && (k >= 0 ==> p[k] == c)
    ensures forall j :: k < j < |p| ==> p[j] != c
  {
    if p == "" then -1
    else if p[|p| - 1] == c then |p| - 1
    else LastIndex(p[..|p| - 1], c)
  }

  /** The pattern without a literal's slashes and flags. */
  function Stripped(pattern: string): string {
    var p := if pattern != "" && pattern[0] == '/' then pattern[1..] else pattern;
    var i := LastIndex(p, '/');
    if i > 0 then p[..i] else p
  }

  /** Whether some group that repeats can split one input in more ways than one. */
  method NestedAmbiguity(pattern: string) returns (r: Outcome)
    ensures r == Run(Stripped(pattern), 0, [], false)
  {
    var p := Stripped(pattern);
    var stack: seq<Open> := [];
    var inClass, i := false, 0;
    while i < |p|
      invariant Run(p, i, stack, inClass) == Run(p, 0, [], false)
      decreases |p| - i
    {
      var c := p[i];
      if c != '\\' && !inClass {
        RunsBare(p, i, stack);
      }
      if c == '\\' {
        i := i + 1;
      } else if inClass {
        if c == ']' {
          inClass := false;
        }
      } else if c == '[' {
        inClass := true;
      } else if c == '(' {
        stack := stack + [Open(BodyStart(p, i), false)];
      } else if c == ')' {
        if stack != [] {
          assert RunBare(p, i, stack) == Close(p, i, stack);
          var closed := stack[|stack| - 1];
          var rest := stack[..|stack| - 1];
          if closed.risky && Repeats(p, i + 1) {
            if closed.body > i {
              return Crash;
            }
            var anchored := IsAnchored(p[closed.body..i]);
            if !anchored {
              return Ambiguous;
            }
          }
          stack := MarkIf(rest, closed.risky || Repeats(p, i + 1));
        }
      } else if c == '|' {
        stack := MarkIf(stack, true);
      } else if c == '*' || c == '+' || c == '{' {
        if c != '{' || UnboundedBrace(p, i) {
          stack := MarkIf(stack, true);
        }
      }
      i := i + 1;
    }
    return Clear;
  }
}
