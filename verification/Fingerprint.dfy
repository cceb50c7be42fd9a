/** The string a rebinding is remembered by, and when it identifies the rebinding. */
module Fingerprint {
  import opened Rebinding

  // --- byte order --------------------------------------------------------

  predicate Less(a: string, b: string) {
    b != [] && (a == [] || a[0] < b[0] || (a[0] == b[0] && Less(a[1..], b[1..])))
  }

  lemma {:induction false} LessTotal(a: string, b: string)
    ensures Less(a, b) || Less(b, a) || a == b
    ensures !(Less(a, b) && Less(b, a)) && !Less(a, a)
  {
    if a != [] {
      LessTotal(a[1..], if b == [] then a[1..] else b[1..]);
      if b != [] && a[0] == b[0] && a[1..] == b[1..] {
        assert a == [a[0]] + a[1..] && b == [b[0]] + b[1..];
      }
    }
  }

  lemma {:induction false} LessTransitive(a: string, b: string, c: string)
    requires Less(a, b) && Less(b, c)
    ensures Less(a, c)
  {
    if a != [] && a[0] == b[0] && b[0] == c[0] {
      LessTransitive(a[1..], b[1..], c[1..]);
    }
  }

  // --- rendering ---------------------------------------------------------

  ghost predicate InOrder(ks: seq<Name>) {
    forall i, j :: 0 <= i < j < |ks| ==> Less(ks[i].text, ks[j].text)
  }

  function Written(k: Name, p: Path): string {
    k.text + ['='] + p.text + [';']
  }

  /** The listed names, each with its path. */
  function Render(ks: seq<Name>, m: Rebind): string
    requires forall k :: k in ks ==> k in m
  {
    if ks == [] then "" else Written(ks[0], m[ks[0]]) + Render(ks[1..], m)
  }

  ghost predicate IsFingerprint(m: Rebind, r: string) {
    exists ks :: InOrder(ks) && (forall k :: k in ks <==> k in m) && r == Render(ks, m)
  }

  /** Puts a name where it belongs in an ordered list. */
  method Insert(ks: seq<Name>, k: Name) returns (r: seq<Name>)
    requires InOrder(ks) && k !in ks
    ensures InOrder(r) && forall x :: x in r <==> x in ks || x == k
  {
    var i := 0;
    while i < |ks| && Less(ks[i].text, k.text)
      invariant i <= |ks|
      invariant forall j :: 0 <= j < i ==> Less(ks[j].text, k.text)
    {
      i := i + 1;
    }
    r := ks[..i] + [k] + ks[i..];
    InsertOrdered(ks, k, i);
    assert forall x :: x in ks <==> x in ks[..i] || x in ks[i..] by {
      assert ks == ks[..i] + ks[i..];
    }
  }

  lemma InsertOrdered(ks: seq<Name>, k: Name, i: nat)
    requires InOrder(ks) && k !in ks && i <= |ks|
    requires forall j :: 0 <= j < i ==> Less(ks[j].text, k.text)
    requires i < |ks| ==> !Less(ks[i].text, k.text)
    ensures InOrder(ks[..i] + [k] + ks[i..])
  {
    forall j | i <= j < |ks| ensures Less(k.text, ks[j].text) {
      LessTotal(k.text, ks[i].text);
      assert ks[i] in ks;
      if i < j {
        LessTransitive(k.text, ks[i].text, ks[j].text);
      }
    }
  }

  /** Writes a rebinding's entries in the order of their names. */
  method WriteEntries(m: Rebind) returns (r: string)
    ensures IsFingerprint(m, r)
  {
    var ks: seq<Name> := [];
    var rest := m.Keys;
    while rest != {}
      invariant rest <= m.Keys && InOrder(ks)
      invariant forall k :: k in ks <==> k in m && k !in rest
    {
      var k :| k in rest;
      ks := Insert(ks, k);
      rest := rest - {k};
    }
    r := "";
    for i := 0 to |ks|
      invariant r == Render(ks[..i], m)
    {
      RenderNext(ks, m, i);
      r := r + Written(ks[i], m[ks[i]]);
    }
    assert ks[..|ks|] == ks;
  }

  lemma {:induction false} RenderNext(ks: seq<Name>, m: Rebind, i: nat)
    requires (forall k :: k in ks ==> k in m) && i < |ks|
    ensures Render(ks[..i + 1], m) == Render(ks[..i], m) + Written(ks[i], m[ks[i]])
    decreases |ks|
  {
    if i == 0 {
      assert ks[..1] == [ks[0]] && ks[..0] == [];
      assert Render(ks[..1], m) == Written(ks[0], m[ks[0]]) + Render([], m);
    } else {
      RenderNext(ks[1..], m, i - 1);
      assert ks[..i + 1][1..] == ks[1..][..i] && ks[..i][1..] == ks[1..][..i - 1];
      Associate(Written(ks[0], m[ks[0]]), Render(ks[1..][..i - 1], m), Written(ks[i], m[ks[i]]));
    }
  }

  lemma Associate(a: string, b: string, c: string)
    ensures a + (b + c) == (a + b) + c
  {
  }

  // --- one fingerprint a rebinding, one rebinding a fingerprint -----------

  lemma HeadNotAgain(a: seq<Name>, k: Name)
    requires InOrder(a) && a != []
    ensures k in a <==> k == a[0] || k in a[1..]
    ensures k in a[1..] ==> k != a[0]
  {
    assert a == [a[0]] + a[1..];
    LessTotal(a[0].text, a[0].text);
    if k in a[1..] {
      var i :| 0 <= i < |a[1..]| && a[1..][i] == k;
      assert Less(a[0].text, a[i + 1].text);
    }
  }

  lemma HeadListed(b: seq<Name>)
    ensures b == [] || b[0] in b
  {
  }

  lemma {:induction false} OrderUnique(a: seq<Name>, b: seq<Name>)
    requires InOrder(a) && InOrder(b) && forall k :: k in a <==> k in b
    ensures a == b
    decreases |a|
  {
    HeadListed(b);
    if a != [] {
      assert a[0] in a && a[0] in b;
      assert b != [] && b[0] in b && b[0] in a;
      var i :| 0 <= i < |b| && b[i] == a[0];
      var j :| 0 <= j < |a| && a[j] == b[0];
      LessTotal(a[0].text, b[0].text);
      assert a[0] == b[0];
      forall k ensures k in a[1..] <==> k in b[1..] {
        HeadNotAgain(a, k);
        HeadNotAgain(b, k);
      }
      OrderUnique(a[1..], b[1..]);
      assert a == [a[0]] + a[1..] && b == [b[0]] + b[1..];
    }
  }

  /** A rebinding has one fingerprint, whatever order its entries were visited in. */
  lemma FingerprintDetermined(m: Rebind, r: string, s: string)
    requires IsFingerprint(m, r) && IsFingerprint(m, s)
    ensures r == s
  {
    var a :| InOrder(a) && (forall k :: k in a <==> k in m) && r == Render(a, m);
    var b :| InOrder(b) && (forall k :: k in b <==> k in m) && s == Render(b, m);
    OrderUnique(a, b);
  }

  /** No name holds '=' and no path holds ';'. */
  predicate Plain(m: Rebind) {
    forall k :: k in m ==> '=' !in k.text && ';' !in m[k].text
  }

  /** Text up to a character it does not hold can be read back. */
  lemma CutBack(a: string, b: string, c: char, x: string, y: string)
    requires c !in a && c !in b && a + [c] + x == b + [c] + y
    ensures a == b && x == y
  {
    var s := a + [c] + x;
    assert s[..|a|] == a && s[..|b|] == b;
    IndexOfIs(s, c, |a|);
    IndexOfIs(s, c, |b|);
    assert s[|a| + 1..] == x && s[|b| + 1..] == y;
  }

  lemma RenderStarts(ks: seq<Name>, m: Rebind)
    requires (forall k :: k in ks ==> k in m) && ks != []
    ensures Render(ks, m) == ks[0].text + ['='] + (m[ks[0]].text + [';'] + Render(ks[1..], m))
  {
    Regroup(ks[0].text, ['='], m[ks[0]].text, [';'], Render(ks[1..], m));
  }

  lemma Regroup(a: string, b: string, c: string, d: string, e: string)
    ensures (a + b + c + d) + e == a + b + (c + d + e)
  {
  }

  lemma {:induction false} RenderReadsBack(a: seq<Name>, m: Rebind, b: seq<Name>, n: Rebind)
    requires (forall k :: k in a ==> k in m) && (forall k :: k in b ==> k in n)
    requires Plain(m) && Plain(n) && Render(a, m) == Render(b, n)
    ensures a == b && forall k :: k in a ==> m[k] == n[k]
    decreases |a|
  {
    if a != [] { RenderStarts(a, m); }
    if b != [] { RenderStarts(b, n); }
    if a != [] && b != [] {
      assert a[0] in a && b[0] in b;
      CutBack(a[0].text, b[0].text, '=', m[a[0]].text + [';'] + Render(a[1..], m), n[b[0]].text + [';'] + Render(b[1..], n));
      CutBack(m[a[0]].text, n[b[0]].text, ';', Render(a[1..], m), Render(b[1..], n));
      assert a == [a[0]] + a[1..] && b == [b[0]] + b[1..];
      RenderReadsBack(a[1..], m, b[1..], n);
    }
  }

  /** Without '=' in names and ';' in paths, a fingerprint belongs to one rebinding. */
  lemma FingerprintInjective(m: Rebind, n: Rebind, r: string)
    requires IsFingerprint(m, r) && IsFingerprint(n, r) && Plain(m) && Plain(n)
    ensures m == n
  {
    var a :| InOrder(a) && (forall k :: k in a <==> k in m) && r == Render(a, m);
    var b :| InOrder(b) && (forall k :: k in b <==> k in n) && r == Render(b, n);
    RenderReadsBack(a, m, b, n);
    SameEverywhere(m, n) by {
      forall k ensures SameAt(m, n, k) {
      }
    }
  }

  // --- exactly which rebindings share theirs ------------------------------

  /** Some other rebinding has this fingerprint too. */
  ghost predicate SharedByAnother(m: Rebind, r: string) {
    exists n :: n != m && IsFingerprint(n, r)
  }

  /** More than one entry, or one with '=' in its name or its path. */
  predicate Splits(m: Rebind) {
    |m| > 1 || exists k :: k in m && ('=' in k.text || '=' in m[k].text)
  }

  lemma OneEntry(k: Name, v: string)
    ensures IsFingerprint(map[k := Path(v)], k.text + ['='] + (v + [';']))
  {
    var m: Rebind, ks := map[k := Path(v)], [k];
    RenderStarts(ks, m);
    assert ks[1..] == [] && v + [';'] + "" == v + [';'];
  }

  /** An ordered list of names has no other names, and as many. */
  lemma {:induction false} AsMany(ks: seq<Name>, m: Rebind)
    requires InOrder(ks) && forall k :: k in ks <==> k in m
    ensures |ks| == |m|
    decreases |ks|
  {
    if ks != [] {
      var k := ks[0];
      assert k in ks;
      forall x ensures x in ks[1..] <==> x in m - {k} {
        HeadNotAgain(ks, x);
      }
      AsMany(ks[1..], m - {k});
      assert |m| == |m - {k}| + 1 by {
        assert (m - {k}).Keys == m.Keys - {k} && |m.Keys| == |m.Keys - {k}| + 1;
      }
    }
  }

  /** What is rendered ends with the last entry's semicolon. */
  lemma {:induction false} RenderEnds(ks: seq<Name>, m: Rebind) returns (body: string)
    requires (forall k :: k in ks ==> k in m) && ks != []
    ensures Render(ks, m) == body + [';']
    decreases |ks|
  {
    var entry := ks[0].text + ['='] + m[ks[0]].text;
    if |ks| == 1 {
      assert ks[1..] == [];
      body := entry;
    } else {
      var rest := RenderEnds(ks[1..], m);
      body := entry + [';'] + rest;
    }
  }

  /** The first name with everything after it for its path is one entry, written alike. */
  lemma SeveralAreShared(m: Rebind, r: string)
    requires IsFingerprint(m, r) && |m| > 1
    ensures SharedByAnother(m, r)
  {
    var a: seq<Name> :| InOrder(a) && (forall k :: k in a <==> k in m) && r == Render(a, m);
    AsMany(a, m);
    RenderStarts(a, m);
    var rest := RenderEnds(a[1..], m);
    var k, path := a[0], m[a[0]].text;
    var v := path + [';'] + rest;
    assert v + [';'] == path + [';'] + Render(a[1..], m);
    OneEntry(k, v);
    assert |map[k := Path(v)]| == 1;
  }

  /** One entry, divided at another '=' than its own. */
  lemma OneIsShared(k: Name, v: string)
    requires '=' in k.text || '=' in v
    ensures SharedByAnother(map[k := Path(v)], k.text + ['='] + (v + [';']))
  {
    var r := k.text + ['='] + (v + [';']);
    var j: Name, w: string;
    if '=' in k.text {
      var i :| 0 <= i < |k.text| && k.text[i] == '=';
      j, w := Name(k.text[..i]), k.text[i + 1..] + ['='] + v;
    } else {
      var i :| 0 <= i < |v| && v[i] == '=';
      j, w := Name(k.text + ['='] + v[..i]), v[i + 1..];
    }
    assert j.text + ['='] + (w + [';']) == r;
    OneEntry(j, w);
    assert |j.text| != |k.text|;
    assert j in map[j := Path(w)] && j !in map[k := Path(v)];
  }

  lemma OnlyEntry(k: Name, v: string, n: Rebind)
    requires '=' !in k.text && '=' !in v && IsFingerprint(n, k.text + ['='] + (v + [';']))
    ensures n == map[k := Path(v)]
  {
    var r := k.text + ['='] + (v + [';']);
    var b: seq<Name> :| InOrder(b) && (forall x :: x in b <==> x in n) && r == Render(b, n);
    assert b != [];
    RenderStarts(b, n);
    var after := n[b[0]].text + [';'] + Render(b[1..], n);
    FirstCut(k.text, v + [';'], b[0].text, after);
    HoldsEquals(b[1..], n);
    assert '=' !in v + [';'];
    assert b[1..] == [];
    assert n[b[0]].text + [';'] == v + [';'];
    assert n[b[0]].text == (v + [';'])[..|v|];
    OnlyOne(b, n);
  }

  lemma HoldsEquals(ks: seq<Name>, m: Rebind)
    requires forall k :: k in ks ==> k in m
    ensures ks != [] ==> '=' in Render(ks, m)
  {
    if ks != [] {
      RenderStarts(ks, m);
    }
  }

  /** Only one '=' to divide at. */
  lemma FirstCut(a: string, x: string, b: string, y: string)
    requires '=' !in a && '=' !in x && a + ['='] + x == b + ['='] + y
    ensures a == b && x == y
  {
    var s := a + ['='] + x;
    forall i | 0 <= i < |a| ensures s[i] != '=' {
      assert s[i] == a[i];
    }
    forall i | |a| < i < |s| ensures s[i] != '=' {
      assert s[i] == x[i - |a| - 1];
    }
    assert s[|b|] == '=';
    assert s[..|a|] == a && s[..|b|] == b && s[|a| + 1..] == x && s[|b| + 1..] == y;
  }

  /** A rebinding shares its fingerprint with another exactly when it has more than one
      entry, or '=' in the only one: nothing marks where an entry ends. */
  lemma SharedExactly(m: Rebind, r: string)
    requires IsFingerprint(m, r)
    ensures SharedByAnother(m, r) <==> Splits(m)
  {
    var a: seq<Name> :| InOrder(a) && (forall k :: k in a <==> k in m) && r == Render(a, m);
    AsMany(a, m);
    if |m| > 1 {
      SeveralAreShared(m, r);
    } else if a == [] {
      forall n | IsFingerprint(n, r) ensures n == m {
        var b: seq<Name> :| InOrder(b) && (forall x :: x in b <==> x in n) && r == Render(b, n);
        if b != [] { RenderStarts(b, n); }
        AsMany(b, n);
      }
    } else {
      var k, v := a[0], m[a[0]].text;
      RenderStarts(a, m);
      assert a[1..] == [];
      assert r == k.text + ['='] + (v + [';']);
      OnlyOne(a, m);
      if '=' in k.text || '=' in v {
        OneIsShared(k, v);
      } else {
        forall n | IsFingerprint(n, r) ensures n == m {
          OnlyEntry(k, v, n);
        }
      }
    }
  }

  lemma OnlyOne(a: seq<Name>, m: Rebind)
    requires |a| == 1 && forall k :: k in a <==> k in m
    ensures m == map[a[0] := Path(m[a[0]].text)]
  {
    assert forall k :: k in a <==> k == a[0];
  }

  /** And with them it need not: two rebindings that share a fingerprint. */
  lemma FingerprintCollides()
    ensures var m: Rebind, n: Rebind :=
              map[Name("a") := Path("b;c=d")], map[Name("a") := Path("b"), Name("c") := Path("d")];
            m != n && exists r :: IsFingerprint(m, r) && IsFingerprint(n, r)
  {
    var m: Rebind, n: Rebind :=
      map[Name("a") := Path("b;c=d")], map[Name("a") := Path("b"), Name("c") := Path("d")];
    assert Name("c") in n && Name("c") !in m;
    var r := "a=b;c=d;";
    var one, two := [Name("a")], [Name("a"), Name("c")];
    assert one[1..] == [] && two[1..] == [Name("c")] && two[1..][1..] == [];
    assert Render(one, m) == Written(Name("a"), Path("b;c=d")) + "";
    assert Render(two, n) == Written(Name("a"), Path("b")) + (Written(Name("c"), Path("d")) + "");
    assert IsFingerprint(m, r) && IsFingerprint(n, r);
  }
}
