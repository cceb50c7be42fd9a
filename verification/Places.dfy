/** Pieces of a pattern's text and where they stand in it. */
module Places {
  import opened Regex
  import opened Scanner

  datatype Text = Nowhere | Text(s: string)

  /** The text from a place on. */
  function From(p: string, i: nat): Text {
    if i <= |p| then Text(p[i..]) else Nowhere
  }

  /** The text from here on is this piece and then that tail. */
  predicate At(p: string, i: nat, x: string, tail: string) {
    From(p, i) == Text(x + tail)
  }

  lemma AtMeans(p: string, i: nat, x: string, tail: string)
    ensures At(p, i, x, tail) <==> i <= |p| && p[i..] == x + tail
  {
  }

  lemma AtSplit(p: string, i: nat, x: string, y: string, tail: string)
    requires At(p, i, x + y, tail)
    ensures At(p, i, x, y + tail) && At(p, i + |x|, y, tail)
  {
    AtMeans(p, i, x + y, tail);
    AtMeans(p, i, x, y + tail);
    AtMeans(p, i + |x|, y, tail);
    assert x + y + tail == x + (y + tail);
    assert p[i + |x|..] == p[i..][|x|..];
  }

  lemma AtHead(p: string, i: nat, x: string, tail: string)
    requires At(p, i, x, tail) && x != ""
    ensures i < |p| && p[i] == x[0] && At(p, i + 1, x[1..], tail)
  {
    assert p[i] == p[i..][0];
    assert p[i + 1..] == p[i..][1..];
    assert (x + tail)[1..] == x[1..] + tail;
  }

  lemma AtFirst(p: string, i: nat, c: char, y: string, tail: string)
    requires At(p, i, [c] + y, tail)
    ensures i < |p| && p[i] == c && At(p, i + 1, y, tail)
  {
    AtHead(p, i, [c] + y, tail);
    assert ([c] + y)[1..] == y;
  }

  lemma AtChar(p: string, i: nat, c: char, tail: string)
    requires At(p, i, [c], tail)
    ensures i < |p| && p[i] == c
  {
    AtHead(p, i, [c], tail);
  }

  lemma AtPiece(p: string, i: nat, x: string, tail: string)
    requires At(p, i, x, tail)
    ensures i + |x| <= |p| && p[i..i + |x|] == x && p[i + |x|..] == tail
  {
    AtMeans(p, i, x, tail);
    assert p[i..i + |x|] == p[i..][..|x|];
    assert p[i + |x|..] == p[i..][|x|..];
  }

  lemma AtNothing(p: string, i: nat, tail: string)
    requires At(p, i, "", tail)
    ensures if tail == "" then i == |p| else i < |p| && p[i] == tail[0]
  {
    assert p[i..] == tail;
    if tail != "" {
      assert p[i] == p[i..][0];
    }
  }

  /** A tail can be looked at as a piece of its own. */
  lemma AtTail(p: string, i: nat, x: string, y: string, tail: string)
    requires At(p, i, x, y + tail)
    ensures At(p, i + |x|, y, tail)
  {
    AtPiece(p, i, x, y + tail);
    AtMeans(p, i + |x|, y, tail);
  }

  lemma AtSplitThree(p: string, i: nat, x: string, y: string, z: string, tail: string)
    requires At(p, i, x + (y + z), tail)
    ensures At(p, i, x, y + (z + tail)) && At(p, i + |x|, y, z + tail)
  {
    AtSplit(p, i, x, y + z, tail);
    AtSplit(p, i + |x|, y, z, tail);
    assert y + z + tail == y + (z + tail);
  }

  lemma LastIndexIs(p: string, c: char, k: nat)
    requires k < |p| && p[k] == c && forall j :: k < j < |p| ==> p[j] != c
    ensures LastIndex(p, c) == k
  {
  }

  /** The text that follows does not begin with a quantifier. */
  predicate TailOk(tail: string) {
    tail == "" || tail[0] !in {'*', '+', '?', '{'}
  }

  lemma ItemsTailOk(items: Items, tail: string)
    requires WfItems(items) && TailOk(tail)
    ensures TailOk(PrintItems(items) + tail)
  {
    if items.Cons? {
      var text := PrintAtom(items.item.atom);
      assert text != "" && text[0] !in {'*', '+', '?', '{'};
      assert (PrintItems(items) + tail)[0] == text[0];
    }
  }

  lemma AltsTailOk(a: Alts, tail: string)
    requires WfAlts(a) && TailOk(tail)
    ensures TailOk(PrintAlts(a) + tail)
  {
    match a
    case One(items) => ItemsTailOk(items, tail);
    case Or(first, rest) =>
      var more := "|" + PrintAlts(rest) + tail;
      ItemsTailOk(first, more);
      assert PrintAlts(a) + tail == PrintItems(first) + more;
  }

  lemma {:induction false} FindAcross(p: string, i: nat, j: nat, c: char)
    requires i <= j <= |p|
    requires forall k :: i <= k < j ==> p[k] != c
    ensures Find(p, c, i) == Find(p, c, j)
    decreases j - i
  {
    if i < j { FindAcross(p, i + 1, j, c); }
  }

  lemma FindAfter(p: string, i: nat, x: string, c: char, tail: string)
    requires At(p, i, x, [c] + tail)
    requires forall k :: 0 <= k < |x| ==> x[k] != c
    ensures Find(p, c, i) == i + |x| < |p|
  {
    AtPiece(p, i, x, [c] + tail);
    AtTail(p, i, x, [c], tail);
    AtHead(p, i + |x|, [c], tail);
    forall k | i <= k < i + |x| ensures p[k] != c {
      assert p[k] == p[i..i + |x|][k - i];
    }
    FindAcross(p, i, i + |x|, c);
  }

  lemma FindIn(p: string, i: nat, x: string, c: char, tail: string)
    requires At(p, i, x, tail)
    ensures i + |x| <= |p|
    ensures Find(x, c, 0) < |x| ==> Find(p, c, i) == i + Find(x, c, 0)
    ensures Find(x, c, 0) == |x| && c !in tail ==> Find(p, c, i) == |p|
    ensures Find(x, c, 0) == |x| && c in tail ==> i + |x| <= Find(p, c, i) < |p|
  {
    AtPiece(p, i, x, tail);
    var k := Find(x, c, 0);
    forall j | i <= j < i + k ensures p[j] != c {
      assert p[j] == p[i..i + |x|][j - i];
    }
    FindAcross(p, i, i + k, c);
    if k < |x| {
      assert p[i + k] == p[i..i + |x|][k];
    } else {
      var n := Find(p, c, i);
      if c in tail {
        var j :| 0 <= j < |tail| && tail[j] == c;
        assert p[i + |x| + j] == p[i + |x|..][j];
      }
      if n < |p| {
        assert p[n] == p[i + |x|..][n - i - |x|];
      }
    }
  }

  /** A character the scan passes over. */
  predicate Neutral(c: char) {
    c !in {'\\', '[', '(', ')', '|', '*', '+', '{'}
  }

  lemma CountsNoBrace(text: string)
    requires forall c :: c in text ==> CountChar(c)
    ensures forall k :: 0 <= k < |text| ==> text[k] != '}'
    ensures forall c :: c in text + "}" ==> Neutral(c)
  {
    forall k | 0 <= k < |text| ensures text[k] != '}' {
      assert text[k] in text;
    }
  }

  /** The braces end where their text does. */
  lemma BraceText(p: string, i: nat, text: string, tail: string)
    requires At(p, i, "{" + (text + "}"), tail)
    requires forall c :: c in text ==> CountChar(c)
    ensures i < |p| && p[i] == '{' && Find(p, '}', i) == i + 1 + |text| < |p| && p[i + 1..i + 1 + |text|] == text
  {
    AtFirst(p, i, '{', text + "}", tail);
    AtSplit(p, i + 1, text, "}", tail);
    AtPiece(p, i + 1, text, "}" + tail);
    CountsNoBrace(text);
    FindAfter(p, i + 1, text, '}', tail);
  }

  lemma BraceIsUnbounded(p: string, i: nat, text: string, tail: string)
    requires At(p, i, "{" + (text + "}"), tail)
    requires forall c :: c in text ==> CountChar(c)
    ensures i < |p| && p[i] == '{' && UnboundedBrace(p, i) == UnboundedText(text)
  {
    BraceText(p, i, text, tail);
  }

  /** A quantifier is what it repeats by and then its mode. */
  function PrintSign(quant: Quant): string
    requires !quant.Bare?
  {
    match quant
    case Star(_) => "*"
    case Plus(_) => "+"
    case Optional(_) => "?"
    case Braces(text, _) => "{" + (text + "}")
  }

  lemma SignAndMode(quant: Quant)
    requires !quant.Bare?
    ensures PrintQuant(quant) == PrintSign(quant) + PrintMode(quant.mode)
  {
    if quant.Braces? {
      assert "{" + (quant.text + ("}" + PrintMode(quant.mode))) == "{" + (quant.text + "}") + PrintMode(quant.mode);
    }
  }

  /** Looking at the text after an atom sees its quantifier. */
  lemma RepeatsIsMany(p: string, i: nat, quant: Quant, tail: string)
    requires At(p, i, PrintQuant(quant), tail)
    requires WfQuant(quant) && TailOk(tail)
    ensures Repeats(p, i) == Many(quant)
  {
    if quant.Bare? {
      AtNothing(p, i, tail);
    } else {
      SignAndMode(quant);
      AtSplit(p, i, PrintSign(quant), PrintMode(quant.mode), tail);
      if quant.Braces? {
        BraceIsUnbounded(p, i, quant.text, PrintMode(quant.mode) + tail);
      } else {
        AtHead(p, i, PrintSign(quant), PrintMode(quant.mode) + tail);
      }
    }
  }

  lemma GroupOpen(p: string, i: nat, pre: string, text: string, tail: string)
    requires At(p, i, "(" + (pre + (text + ")")), tail)
    ensures i < |p| && p[i] == '(' && At(p, i + 1, pre + (text + ")"), tail)
  {
    AtFirst(p, i, '(', pre + (text + ")"), tail);
  }

  lemma GroupText(p: string, i: nat, pre: string, text: string, tail: string)
    requires i < |p| && p[i] == '(' && At(p, i + 1, pre + (text + ")"), tail)
    ensures At(p, i + 1, pre, text + (")" + tail)) && At(p, i + 1 + |pre|, text, ")" + tail)
  {
    AtSplitThree(p, i + 1, pre, text, ")", tail);
  }

  /** The parts of a group. */
  lemma GroupParts(p: string, i: nat, prefix: Prefix, body: Alts, tail: string)
    requires At(p, i, PrintAtom(Group(prefix, body)), tail)
    ensures i < |p| && p[i] == '('
    ensures At(p, i + 1, PrintPrefix(prefix), PrintAlts(body) + (")" + tail))
    ensures At(p, i + 1 + |PrintPrefix(prefix)|, PrintAlts(body), ")" + tail)
  {
    GroupOpen(p, i, PrintPrefix(prefix), PrintAlts(body), tail);
    GroupText(p, i, PrintPrefix(prefix), PrintAlts(body), tail);
  }

  lemma GroupEnds(p: string, from: nat, body: string, tail: string)
    requires At(p, from, body, ")" + tail)
    ensures from + |body| < |p| && p[from + |body|] == ')' && p[from..from + |body|] == body
    ensures At(p, from + |body| + 1, "", tail)
  {
    AtPiece(p, from, body, ")" + tail);
    AtTail(p, from, body, ")", tail);
    AtHead(p, from + |body|, ")", tail);
  }

  lemma BarParts(p: string, i: nat, text: string, more: string, tail: string)
    requires At(p, i, text + ("|" + more), tail)
    ensures At(p, i, text, "|" + more + tail) && At(p, i + |text| + 1, more, tail)
    ensures i + |text| < |p| && p[i + |text|] == '|'
  {
    AtSplit(p, i, text, "|" + more, tail);
    AtFirst(p, i + |text|, '|', more, tail);
  }
}
