/** Renaming what a template's free names stand for, one include at a time. */
module Rebinding {

  /** A name free in a view. */
  datatype Name = Name(text: string)

  /** A dotted path, rooted at a name. */
  datatype Path = Path(text: string)

  type Rebind = map<Name, Path>

  // --- dotted paths ------------------------------------------------------

  /** Where a character first occurs, or the length. */
  function IndexOf(s: string, c: char): (k: nat)
    ensures k <= |s| && c !in s[..k]
    ensures k < |s| ==> s[k] == c
  {
    if s == [] || s[0] == c then 0 else 1 + IndexOf(s[1..], c)
  }

  /** A path's first segment. */
  function Root(p: Path): Name {
    Name(p.text[..IndexOf(p.text, '.')])
  }

  /** What follows a path's first dot. */
  function Rest(p: Path): string {
    var k := IndexOf(p.text, '.');
    if k < |p.text| then p.text[k + 1..] else ""
  }

  /** A field read below a path. */
  function Field(p: Path, rest: string): Path {
    Path(p.text + "." + rest)
  }

  predicate Dotted(p: Path) {
    '.' in p.text
  }

  /** Cutting is determined by where the first dot is. */
  lemma {:induction false} IndexOfIs(s: string, c: char, k: nat)
    requires k <= |s| && c !in s[..k] && (k < |s| ==> s[k] == c)
    ensures IndexOf(s, c) == k
  {
    if k > 0 {
      assert s[0] in s[..k];
      assert forall x :: x in s[1..][..k - 1] ==> x in s[..k];
      IndexOfIs(s[1..], c, k - 1);
    }
  }

  /** The root of a path with a field read below it. */
  lemma RootOfField(v: Path, rest: string)
    ensures Root(Field(v, rest)) == Root(v)
    ensures Rest(Field(v, rest)) == if Dotted(v) then Rest(v) + "." + rest else rest
  {
    var k := IndexOf(v.text, '.');
    var p := v.text + "." + rest;
    assert p[..k] == v.text[..k];
    if k < |v.text| {
      assert v.text[k] == '.';
      IndexOfIs(p, '.', k);
      assert p[k + 1..] == v.text[k + 1..] + "." + rest;
    } else {
      assert v.text[..k] == v.text && '.' !in v.text;
      IndexOfIs(p, '.', k);
      assert p[k + 1..] == rest;
    }
  }

  lemma RestWithoutDot(v: Path)
    requires !Dotted(v)
    ensures Root(v) == Name(v.text) && Rest(v) == ""
  {
    assert IndexOf(v.text, '.') == |v.text|;
  }

  // --- rebinding ---------------------------------------------------------

  /** Puts what the root stands for in place of the root, and keeps the fields below. */
  function RebindPath(p: Path, rebind: Rebind): Path {
    if rebind == map[] then p
    else if Root(p) !in rebind then p
    else if Rest(p) == "" then rebind[Root(p)]
    else Field(rebind[Root(p)], Rest(p))
  }

  /** The inner names, read through the outer rebinding, over the outer names. */
  function Compose(inner: Rebind, outer: Rebind): Rebind {
    if inner == map[] then outer
    else
      map k | k in inner.Keys + outer.Keys ::
        if k in inner then RebindPath(inner[k], outer) else outer[k]
  }

  /** Fills the composed map in the two passes the program makes: the inner names, renamed,
      then the outer names nothing shadows. */
  method ComposeMaps(inner: Rebind, outer: Rebind) returns (out: Rebind)
    ensures out == Compose(inner, outer)
  {
    if |inner| == 0 {
      return outer;
    }
    out := RenameAll(inner, outer);
    out := FillFrom(out, outer);
    forall k ensures SameAt(out, Compose(inner, outer), k) {
      ComposeAt(inner, outer, k);
    }
    SameEverywhere(out, Compose(inner, outer));
  }

  /** The inner names, each renamed by the outer rebinding. */
  method RenameAll(inner: Rebind, outer: Rebind) returns (out: Rebind)
    ensures out.Keys == inner.Keys
    ensures forall k :: k in inner ==> out[k] == RebindPath(inner[k], outer)
  {
    out := map[];
    var rest := inner.Keys;
    while rest != {}
      invariant rest <= inner.Keys && out.Keys == inner.Keys - rest
      invariant forall k :: k in out ==> out[k] == RebindPath(inner[k], outer)
    {
      var k :| k in rest;
      out := out[k := RebindPath(inner[k], outer)];
      rest := rest - {k};
    }
  }

  /** Adds every entry whose name is not there yet. */
  method FillFrom<K, V>(into: map<K, V>, from: map<K, V>) returns (out: map<K, V>)
    ensures out == map k | k in into.Keys + from.Keys :: if k in into then into[k] else from[k]
  {
    out := into;
    var rest := from.Keys;
    while rest != {}
      invariant rest <= from.Keys
      invariant forall k :: k in out <==> k in into || (k in from && k !in rest)
      invariant forall k :: k in out ==> out[k] == if k in into then into[k] else from[k]
    {
      var k :| k in rest;
      if k !in out {
        out := out[k := from[k]];
      }
      rest := rest - {k};
    }
  }

  /** One entry of a composed map. */
  lemma ComposeAt(inner: Rebind, outer: Rebind, k: Name)
    ensures k in Compose(inner, outer) <==> k in inner || k in outer
    ensures k in inner ==> Compose(inner, outer)[k] == RebindPath(inner[k], outer)
    ensures k !in inner && k in outer ==> Compose(inner, outer)[k] == outer[k]
  {
  }

  /** A path that is one name and a dot with nothing after it. */
  predicate Dangling(v: Path) {
    Dotted(v) && Rest(v) == ""
  }

  /** The one shape composition does not respect: a field read below a name that the inner
      rebinding sends to a dangling path whose name the outer one rebinds. */
  predicate Clashes(p: Path, inner: Rebind, outer: Rebind) {
    && Root(p) in inner && Rest(p) != ""
    && Dangling(inner[Root(p)]) && Root(inner[Root(p)]) in outer
  }

  /** Rebinding by a composition is rebinding by its parts, inner first, exactly on the
      paths that do not clash. */
  lemma ComposeActs(p: Path, inner: Rebind, outer: Rebind)
    ensures RebindPath(p, Compose(inner, outer)) == RebindPath(RebindPath(p, inner), outer)
            <==> !Clashes(p, inner, outer)
  {
    if inner != map[] {
      ComposeAt(inner, outer, Root(p));
      if Root(p) in inner && Rest(p) != "" {
        FieldOfRebound(inner[Root(p)], Rest(p), outer);
      }
    }
  }

  /** A field read below a renamed path, against the renamed field path. */
  lemma FieldOfRebound(v: Path, rest: string, outer: Rebind)
    requires rest != ""
    ensures Field(RebindPath(v, outer), rest) == RebindPath(Field(v, rest), outer)
            <==> !(Dangling(v) && Root(v) in outer)
  {
    RootOfField(v, rest);
    if Root(v) in outer {
      var to := outer[Root(v)].text;
      if Dotted(v) {
        var whole := to + "." + (Rest(v) + "." + rest);
        assert RebindPath(Field(v, rest), outer).text == whole;
        if Rest(v) == "" {
          assert |to + "." + rest| + 1 == |whole|;
        } else {
          assert (to + "." + Rest(v)) + "." + rest == whole;
        }
      } else {
        RestWithoutDot(v);
      }
    }
  }

  /** Composition associates exactly when no innermost name clashes with the two outside. */
  lemma ComposeAssociates(a: Rebind, b: Rebind, c: Rebind)
    ensures Compose(Compose(a, b), c) == Compose(a, Compose(b, c))
            <==> forall k :: k in a ==> !Clashes(a[k], b, c)
  {
    if k :| k in a && Clashes(a[k], b, c) {
      ComposeTwiceAt(a, b, c, k);
    } else {
      forall k
        ensures SameAt(Compose(Compose(a, b), c), Compose(a, Compose(b, c)), k)
      {
        ComposeTwiceAt(a, b, c, k);
      }
      SameEverywhere(Compose(Compose(a, b), c), Compose(a, Compose(b, c)));
    }
  }

  ghost predicate SameAt<K, V>(m: map<K, V>, n: map<K, V>, k: K) {
    (k in m <==> k in n) && (k in m ==> m[k] == n[k])
  }

  lemma SameEverywhere<K(!new), V>(m: map<K, V>, n: map<K, V>)
    requires forall k :: SameAt(m, n, k)
    ensures m == n
  {
    assert forall k :: k in m ==> SameAt(m, n, k);
    assert forall k :: k in n ==> SameAt(m, n, k);
  }

  lemma ComposeTwiceAt(a: Rebind, b: Rebind, c: Rebind, k: Name)
    ensures var left, right := Compose(Compose(a, b), c), Compose(a, Compose(b, c));
            && (k in left <==> k in a || k in b || k in c)
            && (k in right <==> k in a || k in b || k in c)
            && (k in left ==> (left[k] == right[k] <==> !(k in a && Clashes(a[k], b, c))))
  {
    ComposeAt(a, b, k);
    ComposeAt(Compose(a, b), c, k);
    ComposeAt(b, c, k);
    ComposeAt(a, Compose(b, c), k);
    if k in a {
      ComposeActs(a[k], b, c);
    }
  }

  lemma ComposeIdentity(m: Rebind)
    ensures Compose(map[], m) == m && Compose(m, map[]) == m
  {
  }

  // --- a chain of includes -----------------------------------------------

  /** What the names in the last view of a chain stand for at the render. The chain lists
      the includes outermost first. */
  ghost function Accumulated(chain: seq<Rebind>): Rebind {
    if chain == [] then map[] else Compose(chain[|chain| - 1], Accumulated(chain[..|chain| - 1]))
  }

  /** The same, one include at a time from the inside out. */
  ghost function Unwound(path: Path, chain: seq<Rebind>): Path
    decreases |chain|
  {
    if chain == [] then path
    else Unwound(RebindPath(path, chain[|chain| - 1]), chain[..|chain| - 1])
  }

  /** No name stands for a dangling path. */
  predicate Tidy(m: Rebind) {
    forall k :: k in m ==> !Dangling(m[k])
  }

  /** However deep the includes go, the accumulated rebinding names what undoing them one
      at a time names. */
  lemma {:induction false} AccumulatedUnwinds(path: Path, chain: seq<Rebind>)
    requires forall i :: 0 <= i < |chain| ==> Tidy(chain[i])
    ensures RebindPath(path, Accumulated(chain)) == Unwound(path, chain)
    decreases |chain|
  {
    if chain != [] {
      var n := |chain| - 1;
      AccumulatedUnwinds(RebindPath(path, chain[n]), chain[..n]);
      assert Tidy(chain[n]);
      ComposeActs(path, chain[n], Accumulated(chain[..n]));
    }
  }

  /** The clash is real: a dangling name loses a dot when the rebindings are composed. */
  lemma ClashExample()
    ensures var inner: Rebind, outer: Rebind := map[Name("a") := Path("x.")], map[Name("x") := Path("y")];
            && RebindPath(Path("a.b"), Compose(inner, outer)) == Path("y.b")
            && RebindPath(RebindPath(Path("a.b"), inner), outer) == Path("y..b")
  {
    var inner: Rebind, outer: Rebind := map[Name("a") := Path("x.")], map[Name("x") := Path("y")];
    IndexOfIs("a.b", '.', 1);
    IndexOfIs("x.", '.', 1);
    IndexOfIs("x..b", '.', 1);
    assert Root(Path("a.b")) == Name("a") && Rest(Path("a.b")) == "b";
    assert Root(Path("x.")) == Name("x") && Rest(Path("x.")) == "";
    assert Root(Path("x..b")) == Name("x") && Rest(Path("x..b")) == ".b";
    ComposeAt(inner, outer, Name("a"));
    assert RebindPath(Path("x."), outer) == Path("y");
    assert Field(Path("x."), "b") == Path("x..b");
    assert Field(Path("y"), ".b") == Path("y..b") && Field(Path("y"), "b") == Path("y.b");
  }
}
