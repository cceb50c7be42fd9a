/** Regular expressions as trees, and how they are written down. */
module Regex {

  /** Branches, between bars. */
  datatype Alts = One(items: Items) | Or(first: Items, rest: Alts)

  datatype Items = Empty | Cons(item: Item, rest: Items)

  datatype Item = Item(atom: Atom, quant: Quant)

  datatype Atom =
    | Lit(c: char)
    | Esc(c: char)
    | Class(members: seq<Member>)
    | Group(prefix: Prefix, body: Alts)

  /** One character of a class, bare or escaped. */
  datatype Member = Plain(c: char) | Escaped(c: char)

  datatype Prefix = Capture | NonCapture | Ahead | NotAhead | Named(name: string) | NamedP(name: string) | Behind | NotBehind

  /** How often an atom repeats, and whether greedily, lazily or possessively. */
  datatype Quant = Bare | Star(mode: Mode) | Plus(mode: Mode) | Optional(mode: Mode) | Braces(text: string, mode: Mode)

  datatype Mode = Greedy | Lazy | Possessive

  // --- printing ----------------------------------------------------------

  function PrintAlts(a: Alts): string {
    match a
    case One(items) => PrintItems(items)
    case Or(first, rest) => PrintItems(first) + ("|" + PrintAlts(rest))
  }

  function PrintItems(items: Items): string {
    match items
    case Empty => ""
    case Cons(item, rest) => PrintItem(item) + PrintItems(rest)
  }

  function PrintItem(item: Item): string {
    PrintAtom(item.atom) + PrintQuant(item.quant)
  }

  function PrintAtom(atom: Atom): string {
    match atom
    case Lit(c) => [c]
    case Esc(c) => ['\\', c]
    case Class(members) => "[" + (PrintMembers(members) + "]")
    case Group(prefix, body) => "(" + (PrintPrefix(prefix) + (PrintAlts(body) + ")"))
  }

  function PrintMembers(members: seq<Member>): string {
    if members == [] then ""
    else (match members[0] case Plain(c) => [c] case Escaped(c) => ['\\', c]) + PrintMembers(members[1..])
  }

  function PrintPrefix(prefix: Prefix): string {
    match prefix
    case Capture => ""
    case NonCapture => "?:"
    case Ahead => "?="
    case NotAhead => "?!"
    case Named(name) => "?<" + name + ">"
    case NamedP(name) => "?P<" + name + ">"
    case Behind => "?<="
    case NotBehind => "?<!"
  }

  function PrintQuant(quant: Quant): string {
    match quant
    case Bare => ""
    case Star(mode) => "*" + PrintMode(mode)
    case Plus(mode) => "+" + PrintMode(mode)
    case Optional(mode) => "?" + PrintMode(mode)
    case Braces(text, mode) => "{" + (text + ("}" + PrintMode(mode)))
  }

  function PrintMode(mode: Mode): string {
    match mode
    case Greedy => ""
    case Lazy => "?"
    case Possessive => "+"
  }

  // --- what a tree may hold ----------------------------------------------

  /** A character with a meaning of its own outside a class. */
  predicate Special(c: char) {
    c in {'\\', '[', '(', ')', '|', '*', '+', '?', '{'}
  }

  predicate NameChar(c: char) {
    !Special(c) && c != '>' && c != '=' && c != '!'
  }

  predicate CountChar(c: char) {
    c == ',' || '0' <= c <= '9'
  }

  predicate WfPrefix(prefix: Prefix) {
    match prefix
    case Named(name) => forall c :: c in name ==> NameChar(c)
    case NamedP(name) => forall c :: c in name ==> NameChar(c)
    case _ => true
  }

  predicate WfQuant(quant: Quant) {
    quant.Braces? ==> forall c :: c in quant.text ==> CountChar(c)
  }

  predicate WfAlts(a: Alts) {
    match a
    case One(items) => WfItems(items)
    case Or(first, rest) => WfItems(first) && WfAlts(rest)
  }

  predicate WfItems(items: Items) {
    match items
    case Empty => true
    case Cons(item, rest) => WfAtom(item.atom) && WfQuant(item.quant) && WfItems(rest)
  }

  predicate WfAtom(atom: Atom) {
    match atom
    case Lit(c) => !Special(c)
    case Esc(_) => true
    case Class(members) => forall k :: 0 <= k < |members| ==> WfMember(members[k])
    case Group(prefix, body) => WfPrefix(prefix) && WfAlts(body)
  }

  predicate WfMember(m: Member) {
    m.Plain? ==> m.c != ']' && m.c != '\\'
  }

  /** No group is a lookbehind. */
  predicate NoBehindAlts(a: Alts) {
    match a
    case One(items) => NoBehindItems(items)
    case Or(first, rest) => NoBehindItems(first) && NoBehindAlts(rest)
  }

  predicate NoBehindItems(items: Items) {
    match items
    case Empty => true
    case Cons(item, rest) => NoBehindAtom(item.atom) && NoBehindItems(rest)
  }

  predicate NoBehindAtom(atom: Atom) {
    match atom
    case Group(prefix, body) => !prefix.Behind? && !prefix.NotBehind? && NoBehindAlts(body)
    case _ => true
  }

  // --- what makes a group ambiguous --------------------------------------

  /** The count has no upper bound, or an upper bound of two digits or more. */
  predicate UnboundedText(text: string) {
    var k := CommaAt(text);
    k < |text| && (k == |text| - 1 || |text| - k - 1 >= 2)
  }

  function CommaAt(text: string): (k: nat)
    ensures k <= |text| && ',' !in text[..k] && (k < |text| ==> text[k] == ',')
  {
    if text == "" || text[0] == ',' then 0 else 1 + CommaAt(text[1..])
  }

  /** The quantifier can match many times. */
  predicate Many(quant: Quant) {
    match quant
    case Star(_) => true
    case Plus(_) => true
    case Braces(text, _) => UnboundedText(text)
    case _ => false
  }

  /** The quantifier makes what holds it repeatable. A possessive marker is written as a
      plus and counts as one. */
  predicate Marks(quant: Quant) {
    Many(quant) || (!quant.Bare? && quant.mode == Possessive)
  }

  /** The branches hold, at any depth, an alternation or a quantifier that marks. */
  predicate RiskyAlts(a: Alts) {
    match a
    case One(items) => RiskyItems(items)
    case Or(_, _) => true
  }

  predicate RiskyItems(items: Items) {
    match items
    case Empty => false
    case Cons(item, rest) => RiskyItem(item) || RiskyItems(rest)
  }

  predicate RiskyItem(item: Item) {
    Marks(item.quant) || (item.atom.Group? && RiskyAlts(item.atom.body))
  }
}
