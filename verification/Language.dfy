/** What a body matches, and when repeating it divides every input in at most one way. */
module Language {
  import opened Regex
  import opened Scanner
  import opened Anchoring

  /** How an engine reads what the tree leaves open: the characters a single atom accepts,
      whether it can also match nothing, and the counts braces allow. */
  datatype Meaning = Meaning(accepts: (Atom, char) -> bool, blank: Atom -> bool, times: (string, nat) -> bool)

  predicate Allows(mn: Meaning, quant: Quant, n: nat) {
    match quant
    case Bare => n == 1
    case Star(_) => true
    case Plus(_) => n >= 1
    case Optional(_) => n <= 1
    case Braces(text, _) => mn.times(text, n)
  }

  predicate LooksAround(prefix: Prefix) {
    prefix.Ahead? || prefix.NotAhead? || prefix.Behind? || prefix.NotBehind?
  }

  // --- the words of a tree -----------------------------------------------

  ghost predicate InAlts(mn: Meaning, a: Alts, w: string)
    decreases a, 0, 0
  {
    match a
    case One(items) => InItems(mn, items, w)
    case Or(first, rest) => InItems(mn, first, w) || InAlts(mn, rest, w)
  }

  ghost predicate InItems(mn: Meaning, items: Items, w: string)
    decreases items, 0, 0
  {
    match items
    case Empty => w == ""
    case Cons(item, rest) => exists k :: 0 <= k <= |w| && InItem(mn, item, w[..k]) && InItems(mn, rest, w[k..])
  }

  ghost predicate InItem(mn: Meaning, item: Item, w: string)
    decreases item, 0, 0
  {
    exists n: nat :: Allows(mn, item.quant, n) && InTimes(mn, item.atom, n, w)
  }

  ghost predicate InTimes(mn: Meaning, atom: Atom, n: nat, w: string)
    decreases atom, 1, n
  {
    if n == 0 then w == ""
    else exists k :: 0 <= k <= |w| && InAtom(mn, atom, w[..k]) && InTimes(mn, atom, n - 1, w[k..])
  }

  /** A group that looks around takes no characters. */
  ghost predicate InAtom(mn: Meaning, atom: Atom, w: string)
    decreases atom, 0, 0
  {
    match atom
    case Group(prefix, body) => if LooksAround(prefix) then w == "" else InAlts(mn, body, w)
    case _ => (w == "" && mn.blank(atom)) || (|w| == 1 && mn.accepts(atom, w[0]))
  }

  // --- the characters of the words ---------------------------------------

  /** Some single atom, at any depth, accepts the character. */
  predicate UsesAlts(mn: Meaning, a: Alts, x: char) {
    match a
    case One(items) => UsesItems(mn, items, x)
    case Or(first, rest) => UsesItems(mn, first, x) || UsesAlts(mn, rest, x)
  }

  predicate UsesItems(mn: Meaning, items: Items, x: char) {
    match items
    case Empty => false
    case Cons(item, rest) => UsesAtom(mn, item.atom, x) || UsesItems(mn, rest, x)
  }

  predicate UsesAtom(mn: Meaning, atom: Atom, x: char) {
    match atom
    case Group(_, body) => UsesAlts(mn, body, x)
    case _ => mn.accepts(atom, x)
  }

  /** The atom, or the group's body, can match nothing. */
  predicate NullableAlts(mn: Meaning, a: Alts) {
    match a
    case One(items) => NullableItems(mn, items)
    case Or(first, rest) => NullableItems(mn, first) || NullableAlts(mn, rest)
  }

  predicate NullableItems(mn: Meaning, items: Items) {
    match items
    case Empty => true
    case Cons(item, rest) => (Allows(mn, item.quant, 0) || NullableAtom(mn, item.atom)) && NullableItems(mn, rest)
  }

  predicate NullableAtom(mn: Meaning, atom: Atom) {
    match atom
    case Group(prefix, body) => LooksAround(prefix) || NullableAlts(mn, body)
    case _ => mn.blank(atom)
  }

  /** A word can end in the character. */
  predicate EndsAlts(mn: Meaning, a: Alts, x: char) {
    match a
    case One(items) => EndsItems(mn, items, x)
    case Or(first, rest) => EndsItems(mn, first, x) || EndsAlts(mn, rest, x)
  }

  predicate EndsItems(mn: Meaning, items: Items, x: char) {
    match items
    case Empty => false
    case Cons(item, rest) => EndsItems(mn, rest, x) || (NullableItems(mn, rest) && EndsAtom(mn, item.atom, x))
  }

  predicate EndsAtom(mn: Meaning, atom: Atom, x: char) {
    match atom
    case Group(_, body) => EndsAlts(mn, body, x)
    case _ => mn.accepts(atom, x)
  }

  lemma {:induction false} AltsUse(mn: Meaning, a: Alts, w: string)
    requires InAlts(mn, a, w)
    ensures forall i :: 0 <= i < |w| ==> UsesAlts(mn, a, w[i])
    decreases a, 0, 0
  {
    match a
    case One(items) => ItemsUse(mn, items, w);
    case Or(first, rest) =>
      if InItems(mn, first, w) { ItemsUse(mn, first, w); } else { AltsUse(mn, rest, w); }
  }

  lemma {:induction false} ItemsUse(mn: Meaning, items: Items, w: string)
    requires InItems(mn, items, w)
    ensures forall i :: 0 <= i < |w| ==> UsesItems(mn, items, w[i])
    decreases items, 0, 0
  {
    match items
    case Empty =>
    case Cons(item, rest) =>
      var k :| 0 <= k <= |w| && InItem(mn, item, w[..k]) && InItems(mn, rest, w[k..]);
      var n: nat :| Allows(mn, item.quant, n) && InTimes(mn, item.atom, n, w[..k]);
      TimesUse(mn, item.atom, n, w[..k]);
      ItemsUse(mn, rest, w[k..]);
      forall i | 0 <= i < |w| ensures UsesItems(mn, items, w[i]) {
        if i < k { assert w[i] == w[..k][i]; } else { assert w[i] == w[k..][i - k]; }
      }
  }

  lemma {:induction false} TimesUse(mn: Meaning, atom: Atom, n: nat, w: string)
    requires InTimes(mn, atom, n, w)
    ensures forall i :: 0 <= i < |w| ==> UsesAtom(mn, atom, w[i])
    decreases atom, 1, n
  {
    if n > 0 {
      var k :| 0 <= k <= |w| && InAtom(mn, atom, w[..k]) && InTimes(mn, atom, n - 1, w[k..]);
      AtomUses(mn, atom, w[..k]);
      TimesUse(mn, atom, n - 1, w[k..]);
      forall i | 0 <= i < |w| ensures UsesAtom(mn, atom, w[i]) {
        if i < k { assert w[i] == w[..k][i]; } else { assert w[i] == w[k..][i - k]; }
      }
    }
  }

  lemma {:induction false} AtomUses(mn: Meaning, atom: Atom, w: string)
    requires InAtom(mn, atom, w)
    ensures forall i :: 0 <= i < |w| ==> UsesAtom(mn, atom, w[i])
    decreases atom, 0, 0
  {
    match atom
    case Group(prefix, body) => if !LooksAround(prefix) { AltsUse(mn, body, w); }
    case _ =>
  }

  lemma {:induction false} AltsNullable(mn: Meaning, a: Alts)
    requires InAlts(mn, a, "")
    ensures NullableAlts(mn, a)
    decreases a, 0, 0
  {
    match a
    case One(items) => ItemsNullable(mn, items);
    case Or(first, rest) =>
      if InItems(mn, first, "") { ItemsNullable(mn, first); } else { AltsNullable(mn, rest); }
  }

  lemma {:induction false} ItemsNullable(mn: Meaning, items: Items)
    requires InItems(mn, items, "")
    ensures NullableItems(mn, items)
    decreases items, 0, 0
  {
    match items
    case Empty =>
    case Cons(item, rest) =>
      assert ""[..0] == "" && ""[0..] == "";
      var n: nat :| Allows(mn, item.quant, n) && InTimes(mn, item.atom, n, "");
      if n > 0 { TimesNullable(mn, item.atom, n); }
      ItemsNullable(mn, rest);
  }

  lemma {:induction false} TimesNullable(mn: Meaning, atom: Atom, n: nat)
    requires n > 0 && InTimes(mn, atom, n, "")
    ensures NullableAtom(mn, atom)
    decreases atom, 1, n
  {
    assert ""[..0] == "" && ""[0..] == "";
    match atom
    case Group(prefix, body) => if !LooksAround(prefix) { AltsNullable(mn, body); }
    case _ =>
  }

  lemma {:induction false} AltsEnd(mn: Meaning, a: Alts, w: string)
    requires InAlts(mn, a, w) && w != ""
    ensures EndsAlts(mn, a, w[|w| - 1])
    decreases a, 0, 0
  {
    match a
    case One(items) => ItemsEnd(mn, items, w);
    case Or(first, rest) =>
      if InItems(mn, first, w) { ItemsEnd(mn, first, w); } else { AltsEnd(mn, rest, w); }
  }

  lemma {:induction false} ItemsEnd(mn: Meaning, items: Items, w: string)
    requires InItems(mn, items, w) && w != ""
    ensures EndsItems(mn, items, w[|w| - 1])
    decreases items, 0, 0
  {
    var item, rest := items.item, items.rest;
    var k :| 0 <= k <= |w| && InItem(mn, item, w[..k]) && InItems(mn, rest, w[k..]);
    if k < |w| {
      ItemsEnd(mn, rest, w[k..]);
    } else {
      assert w[k..] == "" && w[..k] == w;
      ItemsNullable(mn, rest);
      var n: nat :| Allows(mn, item.quant, n) && InTimes(mn, item.atom, n, w);
      TimesEnd(mn, item.atom, n, w);
    }
  }

  lemma {:induction false} TimesEnd(mn: Meaning, atom: Atom, n: nat, w: string)
    requires InTimes(mn, atom, n, w) && w != ""
    ensures EndsAtom(mn, atom, w[|w| - 1])
    decreases atom, 1, n
  {
    var k :| 0 <= k <= |w| && InAtom(mn, atom, w[..k]) && InTimes(mn, atom, n - 1, w[k..]);
    if k < |w| {
      TimesEnd(mn, atom, n - 1, w[k..]);
    } else {
      assert w[..k] == w;
      match atom {
        case Group(prefix, body) => AltsEnd(mn, body, w);
        case _ =>
      }
    }
  }

  // --- a body in three parts ----------------------------------------------

  /** The body's first item that must match, and what stands before and after it. */
  datatype Parts = Parts(before: Items, marker: Item, after: Items)

  function PartsOf(items: Items): Parts
    requires MarkedItems(items)
  {
    if KindOf(items.item.quant) == Maybe then
      var parts := PartsOf(items.rest);
      Parts(Cons(items.item, parts.before), parts.marker, parts.after)
    else
      Parts(Empty, items.item, items.rest)
  }

  lemma {:induction false} MarkerIsSingle(items: Items)
    requires MarkedItems(items)
    ensures !PartsOf(items).marker.atom.Group? && KindOf(PartsOf(items).marker.quant) == Once
  {
    MarkedCons(items.item, items.rest);
    if KindOf(items.item.quant) == Maybe { MarkerIsSingle(items.rest); }
  }

  /** The text divides into a word of each part. */
  ghost predicate Divided(mn: Meaning, parts: Parts, w: string, i: int, j: int) {
    && 0 <= i <= j <= |w|
    && InItems(mn, parts.before, w[..i]) && InItem(mn, parts.marker, w[i..j]) && InItems(mn, parts.after, w[j..])
  }

  lemma {:induction false} WordHasParts(mn: Meaning, items: Items, w: string) returns (i: int, j: int)
    requires MarkedItems(items) && InItems(mn, items, w)
    ensures Divided(mn, PartsOf(items), w, i, j)
    decreases items
  {
    var item, rest := items.item, items.rest;
    var k :| 0 <= k <= |w| && InItem(mn, item, w[..k]) && InItems(mn, rest, w[k..]);
    if KindOf(item.quant) == Maybe {
      MarkedCons(item, rest);
      i, j := WordHasParts(mn, rest, w[k..]);
      i, j := k + i, k + j;
      assert w[..i][..k] == w[..k] && w[..i][k..] == w[k..][..i - k];
      assert InItems(mn, Cons(item, PartsOf(rest).before), w[..i]);
      assert w[k..][i - k..j - k] == w[i..j] && w[k..][j - k..] == w[j..];
    } else {
      i, j := 0, k;
      assert w[..0] == "" && w[0..k] == w[..k];
    }
  }

  lemma {:induction false} PartsMakeWord(mn: Meaning, items: Items, w: string, i: int, j: int)
    requires MarkedItems(items) && Divided(mn, PartsOf(items), w, i, j)
    ensures InItems(mn, items, w)
    decreases items
  {
    var item, rest := items.item, items.rest;
    if KindOf(item.quant) == Maybe {
      MarkedCons(item, rest);
      var k :| 0 <= k <= i && InItem(mn, item, w[..i][..k]) && InItems(mn, PartsOf(rest).before, w[..i][k..]);
      assert w[..i][..k] == w[..k] && w[k..][..i - k] == w[..i][k..];
      assert w[k..][i - k..j - k] == w[i..j] && w[k..][j - k..] == w[j..];
      PartsMakeWord(mn, rest, w[k..], i - k, j - k);
    } else {
      assert i == 0 && w[0..j] == w[..j];
    }
  }

  /** A word of each part makes a word of the body. */
  lemma WordOf(mn: Meaning, items: Items, x: string, run: string, y: string)
    requires MarkedItems(items) && InItem(mn, PartsOf(items).marker, run)
    requires InItems(mn, PartsOf(items).before, x) && InItems(mn, PartsOf(items).after, y)
    ensures InItems(mn, items, x + run + y)
  {
    var w, i, j := x + run + y, |x|, |x| + |run|;
    assert w[..i] == x && w[i..j] == run && w[j..] == y;
    PartsMakeWord(mn, items, w, i, j);
  }

  // --- the marker's own words ----------------------------------------------

  predicate AllAccepted(mn: Meaning, atom: Atom, w: string) {
    forall k :: 0 <= k < |w| ==> mn.accepts(atom, w[k])
  }

  /** A single atom that cannot match nothing takes one character each time. */
  lemma {:induction false} TimesIsLength(mn: Meaning, atom: Atom, n: nat, w: string)
    requires !atom.Group? && !mn.blank(atom) && InTimes(mn, atom, n, w)
    ensures |w| == n && AllAccepted(mn, atom, w)
    decreases n
  {
    if n > 0 {
      var k :| 0 <= k <= |w| && InAtom(mn, atom, w[..k]) && InTimes(mn, atom, n - 1, w[k..]);
      TimesIsLength(mn, atom, n - 1, w[k..]);
      forall j | 0 <= j < |w| ensures mn.accepts(atom, w[j]) {
        assert w[j] == if j < 1 then w[..k][0] else w[k..][j - 1];
      }
    }
  }

  lemma {:induction false} AcceptedIsTimes(mn: Meaning, atom: Atom, w: string)
    requires !atom.Group? && AllAccepted(mn, atom, w)
    ensures InTimes(mn, atom, |w|, w)
    decreases |w|
  {
    if w != "" {
      assert InAtom(mn, atom, w[..1]);
      AcceptedIsTimes(mn, atom, w[1..]);
    }
  }

  lemma MarkerText(mn: Meaning, marker: Item, w: string)
    requires !marker.atom.Group? && !mn.blank(marker.atom)
    ensures InItem(mn, marker, w) <==> Allows(mn, marker.quant, |w|) && AllAccepted(mn, marker.atom, w)
  {
    if InItem(mn, marker, w) {
      var n: nat :| Allows(mn, marker.quant, n) && InTimes(mn, marker.atom, n, w);
      TimesIsLength(mn, marker.atom, n, w);
    }
    if Allows(mn, marker.quant, |w|) && AllAccepted(mn, marker.atom, w) {
      AcceptedIsTimes(mn, marker.atom, w);
    }
  }

  /** The quantifier leaves no choice of how often, and not none. */
  ghost predicate OneCount(mn: Meaning, quant: Quant) {
    forall m: nat, n: nat :: Allows(mn, quant, m) && Allows(mn, quant, n) ==> m == n && m > 0
  }

  /** The marker has a word at all. */
  ghost predicate Stands(mn: Meaning, marker: Item) {
    exists run: string :: InItem(mn, marker, run)
  }

  ghost predicate Piece(mn: Meaning, parts: Parts, n: nat, w: string, i: int) {
    && 0 <= i && i + n <= |w|
    && InItems(mn, parts.before, w[..i]) && AllAccepted(mn, parts.marker.atom, w[i..i + n])
    && InItems(mn, parts.after, w[i + n..])
  }

  // --- dividing an input ---------------------------------------------------

  function Joined(pieces: seq<string>): string {
    if pieces == [] then "" else pieces[0] + Joined(pieces[1..])
  }

  ghost predicate AllIn(mn: Meaning, items: Items, pieces: seq<string>) {
    forall k :: 0 <= k < |pieces| ==> InItems(mn, items, pieces[k])
  }

  /** No input divides into repetitions of the body in two ways. */
  ghost predicate DividesOnce(mn: Meaning, items: Items) {
    forall pieces, others :: AllIn(mn, items, pieces) && AllIn(mn, items, others) && Joined(pieces) == Joined(others) ==>
      pieces == others
  }

  /** No character the marker accepts is used elsewhere. */
  ghost predicate MarkerAlone(mn: Meaning, parts: Parts) {
    forall x :: mn.accepts(parts.marker.atom, x) ==> !UsesItems(mn, parts.before, x) && !UsesItems(mn, parts.after, x)
  }

  /** And no word of what follows it ends in a character that what comes before it uses. */
  ghost predicate KeepsApart(mn: Meaning, parts: Parts) {
    MarkerAlone(mn, parts)
    && forall x :: EndsItems(mn, parts.after, x) ==> !UsesItems(mn, parts.before, x)
  }

  /** The marker takes one or more characters, always as many, and stands apart. */
  ghost predicate Separates(mn: Meaning, parts: Parts) {
    !mn.blank(parts.marker.atom) && OneCount(mn, parts.marker.quant) && KeepsApart(mn, parts)
  }

  ghost predicate IsPiece(mn: Meaning, parts: Parts, n: nat, w: string) {
    exists i :: Piece(mn, parts, n, w, i)
  }

  ghost predicate AllPieces(mn: Meaning, parts: Parts, n: nat, pieces: seq<string>) {
    forall k :: 0 <= k < |pieces| ==> IsPiece(mn, parts, n, pieces[k])
  }

  /** Where the marker stands, what is before it and what is after it. */
  ghost predicate MarkedAt(mn: Meaning, parts: Parts, n: nat, w: string, i: int, end: int) {
    && 0 <= i < i + n <= end <= |w|
    && (forall j :: 0 <= j < i ==> UsesItems(mn, parts.before, w[j]) && !mn.accepts(parts.marker.atom, w[j]))
    && (forall j :: i <= j < i + n ==> mn.accepts(parts.marker.atom, w[j]))
    && (forall j :: i + n <= j < end ==> !mn.accepts(parts.marker.atom, w[j]))
  }

  /** The marker's characters are the first of the whole that it accepts, and the only ones
      in the piece. */
  lemma FirstMarker(mn: Meaning, parts: Parts, n: nat, piece: string, i: int, rest: string)
    requires MarkerAlone(mn, parts) && n > 0 && Piece(mn, parts, n, piece, i)
    ensures MarkedAt(mn, parts, n, piece + rest, i, |piece|)
  {
    ItemsUse(mn, parts.before, piece[..i]);
    ItemsUse(mn, parts.after, piece[i + n..]);
    var w := piece + rest;
    forall j | 0 <= j < i ensures UsesItems(mn, parts.before, w[j]) && !mn.accepts(parts.marker.atom, w[j]) {
      assert piece[..i][j] == w[j];
    }
    forall j | i <= j < i + n ensures mn.accepts(parts.marker.atom, w[j]) {
      assert piece[i..i + n][j - i] == w[j];
    }
    forall j | i + n <= j < |piece| ensures !mn.accepts(parts.marker.atom, w[j]) {
      assert piece[i + n..][j - i - n] == w[j];
    }
  }

  /** If a piece is longer than another that begins the same whole, then what it has past
      the other's end is from the beginning of the next piece. */
  lemma Overhang(mn: Meaning, parts: Parts, n: nat, p: string, i: int, q: string, j: int, pieces: seq<string>, others: string)
    requires MarkerAlone(mn, parts) && n > 0
    requires Piece(mn, parts, n, p, i) && Piece(mn, parts, n, q, j)
    requires AllPieces(mn, parts, n, pieces) && p + Joined(pieces) == q + others
    ensures |q| > |p| ==> UsesItems(mn, parts.before, q[|q| - 1]) && EndsItems(mn, parts.after, q[|q| - 1])
  {
    var w := p + Joined(pieces);
    FirstMarker(mn, parts, n, p, i, Joined(pieces));
    FirstMarker(mn, parts, n, q, j, others);
    assert mn.accepts(parts.marker.atom, w[i]) && mn.accepts(parts.marker.atom, w[j]);
    assert i == j;
    if |q| > |p| {
      var tail := q[j + n..];
      assert tail[|tail| - 1] == q[|q| - 1];
      ItemsEnd(mn, parts.after, tail);
      assert pieces != [];
      var next, more := pieces[0], Joined(pieces[1..]);
      assert IsPiece(mn, parts, n, next);
      var k :| Piece(mn, parts, n, next, k);
      FirstMarker(mn, parts, n, next, k, more);
      assert w[|p|..] == next + more;
      assert w[|p| + k] == (next + more)[k];
      assert w[|q| - 1] == (next + more)[|q| - 1 - |p|];
    }
  }

  lemma NotLonger(mn: Meaning, parts: Parts, n: nat, p: string, q: string, pieces: seq<string>, others: string)
    requires KeepsApart(mn, parts) && n > 0
    requires IsPiece(mn, parts, n, p) && IsPiece(mn, parts, n, q)
    requires AllPieces(mn, parts, n, pieces) && p + Joined(pieces) == q + others
    ensures |q| <= |p|
  {
    var i :| Piece(mn, parts, n, p, i);
    var j :| Piece(mn, parts, n, q, j);
    Overhang(mn, parts, n, p, i, q, j, pieces, others);
  }

  lemma {:induction false} PiecesAgree(mn: Meaning, parts: Parts, n: nat, pieces: seq<string>, others: seq<string>)
    requires KeepsApart(mn, parts) && n > 0
    requires AllPieces(mn, parts, n, pieces) && AllPieces(mn, parts, n, others)
    requires Joined(pieces) == Joined(others)
    ensures pieces == others
    decreases |pieces|
  {
    assert pieces != [] ==> IsPiece(mn, parts, n, pieces[0]) && Joined(pieces) != "";
    assert others != [] ==> IsPiece(mn, parts, n, others[0]) && Joined(others) != "";
    if pieces != [] && others != [] {
      var p, q := pieces[0], others[0];
      TailPieces(mn, parts, n, pieces);
      TailPieces(mn, parts, n, others);
      NotLonger(mn, parts, n, p, q, pieces[1..], Joined(others[1..]));
      NotLonger(mn, parts, n, q, p, others[1..], Joined(pieces[1..]));
      FirstsAgree(pieces, others);
      PiecesAgree(mn, parts, n, pieces[1..], others[1..]);
      assert pieces == [pieces[0]] + pieces[1..] && others == [others[0]] + others[1..];
    }
  }

  lemma TailPieces(mn: Meaning, parts: Parts, n: nat, pieces: seq<string>)
    requires AllPieces(mn, parts, n, pieces) && pieces != []
    ensures AllPieces(mn, parts, n, pieces[1..])
  {
  }

  lemma FirstsAgree(pieces: seq<string>, others: seq<string>)
    requires pieces != [] && others != [] && |pieces[0]| == |others[0]| && Joined(pieces) == Joined(others)
    ensures pieces[0] == others[0] && Joined(pieces[1..]) == Joined(others[1..])
  {
    var n := |pieces[0]|;
    assert pieces[0] == Joined(pieces)[..n] && others[0] == Joined(others)[..n];
    assert Joined(pieces[1..]) == Joined(pieces)[n..] && Joined(others[1..]) == Joined(others)[n..];
  }

  /** Two words of a marker that takes its count of characters are as long. */
  lemma RunsAsLong(mn: Meaning, marker: Item, run: string, other: string)
    requires !marker.atom.Group? && !mn.blank(marker.atom) && OneCount(mn, marker.quant)
    requires InItem(mn, marker, run) && InItem(mn, marker, other)
    ensures |run| == |other| > 0 && AllAccepted(mn, marker.atom, other)
  {
    MarkerText(mn, marker, run);
    MarkerText(mn, marker, other);
  }

  /** Every word is a piece with as many marker characters as any word of the marker has. */
  lemma WordIsPiece(mn: Meaning, items: Items, parts: Parts, run: string, w: string)
    requires MarkedItems(items) && parts == PartsOf(items) && Separates(mn, parts) && InItem(mn, parts.marker, run)
    requires InItems(mn, items, w)
    ensures IsPiece(mn, parts, |run|, w) && |run| > 0
  {
    MarkerIsSingle(items);
    var i, j := WordHasParts(mn, items, w);
    RunsAsLong(mn, parts.marker, run, w[i..j]);
    assert i + |run| == j;
    assert Piece(mn, parts, |run|, w, i);
  }

  /** Where the marker always takes the same number of characters, not none, which nothing
      else in the body uses, and the body's end cannot be taken for its beginning, every
      input divides in at most one way. So it does where the marker has no word at all. */
  lemma MarkedDividesOnce(mn: Meaning, items: Items)
    requires MarkedItems(items)
    requires Stands(mn, PartsOf(items).marker) ==> Separates(mn, PartsOf(items))
    ensures DividesOnce(mn, items)
  {
    forall pieces, others | AllIn(mn, items, pieces) && AllIn(mn, items, others) && Joined(pieces) == Joined(others)
      ensures pieces == others
    {
      var parts := PartsOf(items);
      if run: string :| InItem(mn, parts.marker, run) {
        forall w | InItems(mn, items, w) ensures IsPiece(mn, parts, |run|, w) && |run| > 0 {
          WordIsPiece(mn, items, parts, run, w);
        }
        if pieces != [] || others != [] {
          PiecesAgree(mn, parts, |run|, pieces, others);
        }
      } else {
        forall w ensures !InItems(mn, items, w) {
          if InItems(mn, items, w) {
            var i, j := WordHasParts(mn, items, w);
          }
        }
      }
    }
  }

  // --- when it divides in two ways ----------------------------------------

  lemma TwoWays(mn: Meaning, items: Items, pieces: seq<string>, others: seq<string>)
    requires AllIn(mn, items, pieces) && AllIn(mn, items, others) && Joined(pieces) == Joined(others) && pieces != others
    ensures !DividesOnce(mn, items)
  {
  }

  lemma JoinedTwo(a: string, b: string)
    ensures Joined([a, b]) == a + b && Joined([a]) == a
  {
    assert [a, b][1..] == [b] && [b][1..] == [] && [a][1..] == [];
    assert Joined([b]) == b + Joined([b][1..]) == b;
    assert Joined([a]) == a + Joined([a][1..]) == a;
  }

  function Repeated(x: char, n: nat): string {
    seq(n, _ => x)
  }

  lemma {:induction false} JoinedCopies(x: char, n: nat, copies: nat)
    ensures Joined(seq(copies, _ => Repeated(x, n))) == Repeated(x, copies * n)
    decreases copies
  {
    var pieces := seq(copies, _ => Repeated(x, n));
    if copies > 0 {
      JoinedCopies(x, n, copies - 1);
      assert pieces[1..] == seq(copies - 1, _ => Repeated(x, n));
      assert copies * n == n + (copies - 1) * n;
      assert Repeated(x, n) + Repeated(x, (copies - 1) * n) == Repeated(x, copies * n);
    }
  }

  /** One character so many times and another number of times: each as often as the other is
      long makes the same text. */
  lemma TwoLengths(mn: Meaning, items: Items, x: char, m: nat, n: nat)
    requires InItems(mn, items, Repeated(x, m)) && InItems(mn, items, Repeated(x, n)) && m != n
    ensures !DividesOnce(mn, items)
  {
    JoinedCopies(x, m, n);
    JoinedCopies(x, n, m);
    assert n * m == m * n;
    TwoWays(mn, items, seq(n, _ => Repeated(x, m)), seq(m, _ => Repeated(x, n)));
  }

  /** Nothing, any number of times. */
  lemma MatchesNothing(mn: Meaning, items: Items)
    requires InItems(mn, items, "")
    ensures !DividesOnce(mn, items)
  {
    JoinedTwo("", "");
    assert |[""]| == 1;
    TwoWays(mn, items, [""], []);
  }

  lemma WordOfRun(mn: Meaning, items: Items, x: char, n: nat)
    requires MarkedItems(items) && Allows(mn, PartsOf(items).marker.quant, n)
    requires n > 0 ==> mn.accepts(PartsOf(items).marker.atom, x)
    ensures InItem(mn, PartsOf(items).marker, Repeated(x, n))
  {
    MarkerIsSingle(items);
    AcceptedIsTimes(mn, PartsOf(items).marker.atom, Repeated(x, n));
  }

  /** Two counts of the marker, where the rest of the body can be left out. */
  lemma CountVaries(mn: Meaning, items: Items, x: char, m: nat, n: nat)
    requires MarkedItems(items) && m != n && mn.accepts(PartsOf(items).marker.atom, x)
    requires Allows(mn, PartsOf(items).marker.quant, m) && Allows(mn, PartsOf(items).marker.quant, n)
    requires InItems(mn, PartsOf(items).before, "") && InItems(mn, PartsOf(items).after, "")
    ensures !DividesOnce(mn, items)
  {
    WordOfRun(mn, items, x, m);
    WordOfRun(mn, items, x, n);
    WordOf(mn, items, "", Repeated(x, m), "");
    WordOf(mn, items, "", Repeated(x, n), "");
    assert "" + Repeated(x, m) + "" == Repeated(x, m) && "" + Repeated(x, n) + "" == Repeated(x, n);
    TwoLengths(mn, items, x, m, n);
  }

  /** The marker's character can follow the marker: one more of it ends this repetition. */
  lemma MarkerRecursAfter(mn: Meaning, items: Items, x: char, n: nat)
    requires MarkedItems(items) && Allows(mn, PartsOf(items).marker.quant, n) && mn.accepts(PartsOf(items).marker.atom, x)
    requires InItems(mn, PartsOf(items).before, "")
    requires InItems(mn, PartsOf(items).after, "") && InItems(mn, PartsOf(items).after, [x])
    ensures !DividesOnce(mn, items)
  {
    WordOfRun(mn, items, x, n);
    WordOf(mn, items, "", Repeated(x, n), "");
    WordOf(mn, items, "", Repeated(x, n), [x]);
    assert "" + Repeated(x, n) + "" == Repeated(x, n) && "" + Repeated(x, n) + [x] == Repeated(x, n + 1);
    TwoLengths(mn, items, x, n, n + 1);
  }

  /** Or can come before it. */
  lemma MarkerRecursBefore(mn: Meaning, items: Items, x: char, n: nat)
    requires MarkedItems(items) && Allows(mn, PartsOf(items).marker.quant, n) && mn.accepts(PartsOf(items).marker.atom, x)
    requires InItems(mn, PartsOf(items).before, "") && InItems(mn, PartsOf(items).before, [x])
    requires InItems(mn, PartsOf(items).after, "")
    ensures !DividesOnce(mn, items)
  {
    WordOfRun(mn, items, x, n);
    WordOf(mn, items, "", Repeated(x, n), "");
    WordOf(mn, items, [x], Repeated(x, n), "");
    assert "" + Repeated(x, n) + "" == Repeated(x, n) && [x] + Repeated(x, n) + "" == Repeated(x, n + 1);
    TwoLengths(mn, items, x, n, n + 1);
  }

  /** Two words that make one text with a third in the middle of it, from either side. */
  lemma EitherSide(mn: Meaning, items: Items, bare: string, longer: string, later: string)
    requires InItems(mn, items, bare) && InItems(mn, items, longer) && InItems(mn, items, later)
    requires longer + bare == bare + later && |longer| > |bare|
    ensures !DividesOnce(mn, items)
  {
    JoinedTwo(longer, bare);
    JoinedTwo(bare, later);
    assert [longer, bare][0] == longer && [bare, later][0] == bare && longer != bare;
    TwoWays(mn, items, [longer, bare], [bare, later]);
  }

  /** One character can end a repetition and begin one: between two markers it belongs to
      either. */
  lemma EndMeetsBeginning(mn: Meaning, items: Items, run: string, c: char)
    requires MarkedItems(items) && InItem(mn, PartsOf(items).marker, run)
    requires InItems(mn, PartsOf(items).before, "") && InItems(mn, PartsOf(items).before, [c])
    requires InItems(mn, PartsOf(items).after, "") && InItems(mn, PartsOf(items).after, [c])
    ensures !DividesOnce(mn, items)
  {
    var longer, later := run + [c], [c] + run;
    assert InItems(mn, items, run) && InItems(mn, items, longer) && InItems(mn, items, later) by {
      WordOf(mn, items, "", run, "");
      WordOf(mn, items, "", run, [c]);
      WordOf(mn, items, [c], run, "");
      NothingAround(run, longer, later, c);
    }
    Regrouped(run, [c], run);
    EitherSide(mn, items, run, longer, later);
  }

  lemma NothingAround(run: string, longer: string, later: string, c: char)
    requires longer == run + [c] && later == [c] + run
    ensures "" + run + "" == run && "" + run + [c] == longer && [c] + run + "" == later
  {
  }

  lemma Regrouped(a: string, b: string, c: string)
    ensures (a + b) + c == a + (b + c)
  {
  }

  /** Single atoms, each of which can be left out or taken once. */
  predicate Omittable(mn: Meaning, items: Items) {
    match items
    case Empty => true
    case Cons(item, rest) =>
      (item.quant.Star? || item.quant.Optional?) && !item.atom.Group? && Omittable(mn, rest)
  }

  lemma {:induction false} OmitAll(mn: Meaning, items: Items)
    requires Omittable(mn, items)
    ensures InItems(mn, items, "")
    decreases items
  {
    if items.Cons? {
      OmitAll(mn, items.rest);
      assert ""[..0] == "" && ""[0..] == "";
      assert Allows(mn, items.item.quant, 0) && InTimes(mn, items.item.atom, 0, "");
      assert InItem(mn, items.item, "");
    }
  }

  lemma {:induction false} TakeOne(mn: Meaning, items: Items, x: char)
    requires Omittable(mn, items) && UsesItems(mn, items, x)
    ensures InItems(mn, items, [x])
    decreases items
  {
    var item, rest, w := items.item, items.rest, [x];
    assert w[..1] == w && w[1..] == "" && w[..0] == "" && w[0..] == w;
    if UsesAtom(mn, item.atom, x) {
      assert InAtom(mn, item.atom, w);
      assert InTimes(mn, item.atom, 0, "") && InTimes(mn, item.atom, 1, w);
      assert Allows(mn, item.quant, 1) && InItem(mn, item, w);
      OmitAll(mn, rest);
    } else {
      TakeOne(mn, rest, x);
      assert Allows(mn, item.quant, 0) && InTimes(mn, item.atom, 0, "") && InItem(mn, item, "");
    }
  }

  lemma {:induction false} EndsUse(mn: Meaning, items: Items, x: char)
    requires Omittable(mn, items) && EndsItems(mn, items, x)
    ensures UsesItems(mn, items, x)
    decreases items
  {
    if EndsItems(mn, items.rest, x) {
      EndsUse(mn, items.rest, x);
    }
  }

  lemma {:induction false} TimesOfNothing(mn: Meaning, atom: Atom, n: nat)
    requires !atom.Group? && (n == 0 || mn.blank(atom))
    ensures InTimes(mn, atom, n, "")
    decreases n
  {
    if n > 0 {
      TimesOfNothing(mn, atom, n - 1);
      assert ""[..0] == "" && ""[0..] == "";
    }
  }

  /** A marker that can match nothing, or be left out. */
  lemma MarkerOfNothing(mn: Meaning, items: Items, n: nat)
    requires MarkedItems(items) && Allows(mn, PartsOf(items).marker.quant, n)
    requires n == 0 || mn.blank(PartsOf(items).marker.atom)
    requires InItems(mn, PartsOf(items).before, "") && InItems(mn, PartsOf(items).after, "")
    ensures !DividesOnce(mn, items)
  {
    MarkerIsSingle(items);
    TimesOfNothing(mn, PartsOf(items).marker.atom, n);
    WordOf(mn, items, "", "", "");
    assert "" + "" + "" == "";
    MatchesNothing(mn, items);
  }

  /** Where the marker may be taken more than one number of times, or none. */
  lemma NotOneCount(mn: Meaning, items: Items, run: string)
    requires MarkedItems(items) && InItem(mn, PartsOf(items).marker, run) && !mn.blank(PartsOf(items).marker.atom)
    requires InItems(mn, PartsOf(items).before, "") && InItems(mn, PartsOf(items).after, "")
    requires !OneCount(mn, PartsOf(items).marker.quant)
    ensures !DividesOnce(mn, items)
  {
    var marker := PartsOf(items).marker;
    MarkerIsSingle(items);
    MarkerText(mn, marker, run);
    if Allows(mn, marker.quant, 0) {
      MarkerOfNothing(mn, items, 0);
    } else {
      var m: nat, n: nat :| Allows(mn, marker.quant, m) && Allows(mn, marker.quant, n) && !(m == n && m > 0);
      assert run != "";
      CountVaries(mn, items, run[0], m, n);
    }
  }

  lemma NotApart(mn: Meaning, items: Items, run: string)
    requires MarkedItems(items) && InItem(mn, PartsOf(items).marker, run) && !mn.blank(PartsOf(items).marker.atom)
    requires Omittable(mn, PartsOf(items).before) && Omittable(mn, PartsOf(items).after)
    requires !KeepsApart(mn, PartsOf(items))
    ensures !DividesOnce(mn, items)
  {
    var parts := PartsOf(items);
    MarkerIsSingle(items);
    MarkerText(mn, parts.marker, run);
    OmitAll(mn, parts.before);
    OmitAll(mn, parts.after);
    if x :| mn.accepts(parts.marker.atom, x) && UsesItems(mn, parts.after, x) {
      TakeOne(mn, parts.after, x);
      MarkerRecursAfter(mn, items, x, |run|);
    } else if x :| mn.accepts(parts.marker.atom, x) && UsesItems(mn, parts.before, x) {
      TakeOne(mn, parts.before, x);
      MarkerRecursBefore(mn, items, x, |run|);
    } else {
      var x :| EndsItems(mn, parts.after, x) && UsesItems(mn, parts.before, x);
      EndsUse(mn, parts.after, x);
      TakeOne(mn, parts.after, x);
      TakeOne(mn, parts.before, x);
      EndMeetsBeginning(mn, items, run, x);
    }
  }

  /** Where every atom around the marker can be left out or taken once, the test is exact: the
      body divides every input in at most one way if and only if its marker, if it has a word,
      takes a character or more, always as many, and keeps its sides apart. */
  lemma OmittableDividesOnceExactly(mn: Meaning, items: Items)
    requires MarkedItems(items) && Omittable(mn, PartsOf(items).before) && Omittable(mn, PartsOf(items).after)
    ensures DividesOnce(mn, items) <==> (Stands(mn, PartsOf(items).marker) ==> Separates(mn, PartsOf(items)))
  {
    var parts := PartsOf(items);
    OmitAll(mn, parts.before);
    OmitAll(mn, parts.after);
    if Stands(mn, parts.marker) && !Separates(mn, parts) {
      var run: string :| InItem(mn, parts.marker, run);
      if mn.blank(parts.marker.atom) {
        var n: nat :| Allows(mn, parts.marker.quant, n) && InTimes(mn, parts.marker.atom, n, run);
        MarkerOfNothing(mn, items, n);
      } else if !OneCount(mn, parts.marker.quant) {
        NotOneCount(mn, items, run);
      } else {
        NotApart(mn, items, run);
      }
    } else {
      MarkedDividesOnce(mn, items);
    }
  }

  // --- what the scan calls anchored ---------------------------------------

  /** A body the scan calls anchored, whose marker takes a character or more, always as many,
      and keeps its sides apart, divides every input in at most one way. */
  lemma AnchoredDividesOnce(mn: Meaning, items: Items)
    requires WfItems(items) && Readable(items) && Anchored(PrintItems(items))
    requires MarkedItems(items) && Stands(mn, PartsOf(items).marker) ==> Separates(mn, PartsOf(items))
    ensures DividesOnce(mn, items)
  {
    assert PrintAlts(One(items)) == PrintItems(items);
    AnchoredByTree(One(items));
    MarkedDividesOnce(mn, items);
  }

  function Char(c: char): Item { Item(Lit(c), Bare) }

  function Whole(item: Item): Items { Cons(item, Empty) }

  /** `aa*` */
  function Recurring(): Items { Cons(Char('a'), Whole(Item(Lit('a'), Star(Greedy)))) }

  /** `a*\.a*` */
  function Meeting(): Items {
    Cons(Item(Lit('a'), Star(Greedy)), Cons(Item(Esc('.'), Bare), Whole(Item(Lit('a'), Star(Greedy)))))
  }

  /** `a{1,2}` */
  function Varying(): Items { Whole(Item(Lit('a'), Braces("1,2", Greedy))) }

  /** `x{0,1}a+` */
  function LeftOut(): Items { Cons(Item(Lit('x'), Braces("0,1", Greedy)), Whole(Item(Lit('a'), Plus(Greedy)))) }

  /** Beginning with a marker is not enough: the scan calls each of these anchored, and each
      divides some input in two ways. In the first the marker recurs, in the second an end
      can be a beginning, and in the others the marker is read as matching exactly once
      although its count allows two, or none. */
  lemma AnchoredCanDivideTwice(mn: Meaning)
    requires mn.accepts(Lit('a'), 'a') && mn.accepts(Esc('.'), '.')
    requires mn.times("1,2", 1) && mn.times("1,2", 2) && mn.times("0,1", 0)
    ensures Anchored(PrintItems(Recurring())) && !DividesOnce(mn, Recurring())
    ensures Anchored(PrintItems(Meeting())) && !DividesOnce(mn, Meeting())
    ensures Anchored(PrintItems(Varying())) && !DividesOnce(mn, Varying())
    ensures Anchored(PrintItems(LeftOut())) && !DividesOnce(mn, LeftOut())
  {
    RecurringDividesTwice(mn);
    MeetingDividesTwice(mn);
    VaryingDividesTwice(mn);
    LeftOutDividesTwice(mn);
  }

  lemma RecurringDividesTwice(mn: Meaning)
    requires mn.accepts(Lit('a'), 'a')
    ensures Anchored(PrintItems(Recurring())) && !DividesOnce(mn, Recurring())
  {
    var after := Whole(Item(Lit('a'), Star(Greedy)));
    AnchoredByTree(One(Recurring()));
    assert PartsOf(Recurring()) == Parts(Empty, Char('a'), after);
    assert UsesItems(mn, after, 'a');
    OmitAll(mn, after);
    TakeOne(mn, after, 'a');
    MarkerRecursAfter(mn, Recurring(), 'a', 1);
  }

  lemma MeetingDividesTwice(mn: Meaning)
    requires mn.accepts(Lit('a'), 'a') && mn.accepts(Esc('.'), '.')
    ensures Anchored(PrintItems(Meeting())) && !DividesOnce(mn, Meeting())
  {
    var around := Whole(Item(Lit('a'), Star(Greedy)));
    AnchoredByTree(One(Meeting()));
    assert PartsOf(Meeting().rest) == Parts(Empty, Item(Esc('.'), Bare), around);
    assert PartsOf(Meeting()) == Parts(around, Item(Esc('.'), Bare), around);
    assert UsesItems(mn, around, 'a');
    OmitAll(mn, around);
    TakeOne(mn, around, 'a');
    WordOfRun(mn, Meeting(), '.', 1);
    EndMeetsBeginning(mn, Meeting(), Repeated('.', 1), 'a');
  }

  lemma BracesAreAnchored(items: Items, c: char, text: string)
    requires items.Cons? && items.item == Item(Lit(c), Braces(text, Greedy)) && WfItems(items)
    requires |text| == 3 && text[0] != ',' && text[1] == ',' && text[2] != ','
    ensures MarkedItems(items) && PartsOf(items) == Parts(Empty, items.item, items.rest) && Anchored(PrintItems(items))
  {
    assert CommaAt(text[1..]) == 0;
    assert CommaAt(text) == 1;
    MarkedCons(items.item, items.rest);
    assert PrintAlts(One(items)) == PrintItems(items);
    AnchoredByTree(One(items));
  }

  lemma VaryingDividesTwice(mn: Meaning)
    requires mn.accepts(Lit('a'), 'a') && mn.times("1,2", 1) && mn.times("1,2", 2)
    ensures Anchored(PrintItems(Varying())) && !DividesOnce(mn, Varying())
  {
    BracesAreAnchored(Varying(), 'a', "1,2");
    OmitAll(mn, Empty);
    CountVaries(mn, Varying(), 'a', 1, 2);
  }

  lemma LeftOutDividesTwice(mn: Meaning)
    requires mn.accepts(Lit('a'), 'a') && mn.times("0,1", 0)
    ensures Anchored(PrintItems(LeftOut())) && !DividesOnce(mn, LeftOut())
  {
    BracesAreAnchored(LeftOut(), 'x', "0,1");
    LeftOutMatches(mn, LeftOut(), 'a', 1);
    LeftOutMatches(mn, LeftOut(), 'a', 2);
    TwoLengths(mn, LeftOut(), 'a', 1, 2);
  }

  /** Without the marker, what follows it matches alone. */
  lemma LeftOutMatches(mn: Meaning, items: Items, c: char, n: nat)
    requires MarkedItems(items) && Allows(mn, PartsOf(items).marker.quant, 0) && PartsOf(items).before == Empty
    requires PartsOf(items).after == Whole(Item(Lit(c), Plus(Greedy))) && mn.accepts(Lit(c), c) && n > 0
    ensures InItems(mn, items, Repeated(c, n))
  {
    var w, last := Repeated(c, n), Item(Lit(c), Plus(Greedy));
    WordOfRun(mn, items, c, 0);
    AcceptedIsTimes(mn, Lit(c), w);
    assert Allows(mn, last.quant, n) && InItem(mn, last, w);
    assert w[..n] == w && w[n..] == "";
    assert InItems(mn, Whole(last), w);
    WordOf(mn, items, "", Repeated(c, 0), w);
    assert "" + Repeated(c, 0) + w == w;
  }

  /** `\s*\.\s*[a-z]+` */
  function Dotted(): Items {
    Cons(Item(Esc('s'), Star(Greedy)), Cons(Item(Esc('.'), Bare), Cons(Item(Esc('s'), Star(Greedy)),
      Whole(Item(Class([Plain('a'), Plain('-'), Plain('z')]), Plus(Greedy))))))
  }

  /** A name after a dot, with space around the dot: the space is at a beginning only, since
      a name ends in a letter, so every input divides in at most one way. */
  lemma DottedDividesOnce(mn: Meaning)
    requires !mn.blank(Esc('.')) && !mn.blank(Dotted().rest.rest.rest.item.atom)
    requires forall x :: mn.accepts(Esc('.'), x) ==> !mn.accepts(Esc('s'), x)
    requires forall x :: mn.accepts(Dotted().rest.rest.rest.item.atom, x) ==> !mn.accepts(Esc('s'), x) && !mn.accepts(Esc('.'), x)
    ensures Anchored(PrintItems(Dotted())) && DividesOnce(mn, Dotted())
  {
    var space, letters := Item(Esc('s'), Star(Greedy)), Dotted().rest.rest.rest.item;
    AnchoredByTree(One(Dotted()));
    var before, after := Whole(space), Cons(space, Whole(letters));
    assert PartsOf(Dotted().rest) == Parts(Empty, Item(Esc('.'), Bare), after);
    assert PartsOf(Dotted()) == Parts(before, Item(Esc('.'), Bare), after);
    forall x ensures UsesItems(mn, before, x) <==> mn.accepts(Esc('s'), x) {
    }
    forall x ensures UsesItems(mn, after, x) <==> mn.accepts(Esc('s'), x) || mn.accepts(letters.atom, x) {
      assert UsesItems(mn, Whole(letters), x) <==> mn.accepts(letters.atom, x);
    }
    forall x ensures EndsItems(mn, after, x) ==> mn.accepts(letters.atom, x) {
      assert !NullableItems(mn, Whole(letters));
      assert EndsItems(mn, Whole(letters), x) <==> mn.accepts(letters.atom, x);
    }
    MarkedDividesOnce(mn, Dotted());
  }
}
