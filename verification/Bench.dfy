/** Scoring findings against what a corpus expects. */
module Bench {
  import opened Tally

  /** What makes a finding the expected one: the class, where it lands, and where it came
      from. */
  datatype Key = Key(cwe: string, sinkFile: string, sinkLine: int, sourceLabel: string)

  datatype Expectation = Expectation(key: Key, confidence: string)

  datatype Finding = Finding(key: Key, confidence: string, reportable: bool)

  datatype Mismatch = Mismatch(expectation: Expectation, got: string)

  datatype Report = Report(
    notApplicable: bool,
    truePositives: nat,
    falsePositives: seq<Finding>,
    enumeratedOnly: seq<Finding>,
    expectedButNotReported: seq<Expectation>,
    falseNegatives: seq<Expectation>,
    wrongConfidence: seq<Mismatch>)

  function KeyWanted(e: Expectation): Key { e.key }

  function KeyGot(f: Finding): Key { f.key }

  function Wanted(expected: seq<Expectation>): multiset<Key> {
    KeysBy(KeyWanted, expected)
  }

  function Got(findings: seq<Finding>): multiset<Key> {
    KeysBy(KeyGot, findings)
  }

  /** The keys of the entries flagged the given way. */
  function Flagged<T, K>(key: T -> K, s: seq<T>, claimed: seq<bool>, flag: bool): multiset<K>
    requires |claimed| == |s|
  {
    if s == [] then multiset{}
    else
      var n := |s| - 1;
      Flagged(key, s[..n], claimed[..n], flag) + if claimed[n] == flag then multiset{key(s[n])} else multiset{}
  }

  lemma {:induction false} FlaggedSplits<T, K>(key: T -> K, s: seq<T>, claimed: seq<bool>)
    requires |claimed| == |s|
    ensures KeysBy(key, s) == Flagged(key, s, claimed, true) + Flagged(key, s, claimed, false)
  {
    if s != [] {
      FlaggedSplits(key, s[..|s| - 1], claimed[..|s| - 1]);
    }
  }

  lemma {:induction false} FlaggedSize<T, K>(key: T -> K, s: seq<T>, claimed: seq<bool>)
    requires |claimed| == |s|
    ensures |Flagged(key, s, claimed, true)| + |Flagged(key, s, claimed, false)| == |s|
  {
    if s != [] {
      FlaggedSize(key, s[..|s| - 1], claimed[..|s| - 1]);
    }
  }

  lemma {:induction false} FlaggedHolds<T, K>(key: T -> K, s: seq<T>, claimed: seq<bool>, flag: bool, i: nat)
    requires |claimed| == |s| && i < |s| && claimed[i] == flag
    ensures key(s[i]) in Flagged(key, s, claimed, flag)
  {
    if i < |s| - 1 {
      FlaggedHolds(key, s[..|s| - 1], claimed[..|s| - 1], flag, i);
    }
  }

  lemma {:induction false} FlaggedLacks<T, K>(key: T -> K, s: seq<T>, claimed: seq<bool>, flag: bool, k: K)
    requires |claimed| == |s|
    requires forall i :: 0 <= i < |s| ==> claimed[i] != flag || key(s[i]) != k
    ensures k !in Flagged(key, s, claimed, flag)
  {
    if s != [] {
      FlaggedLacks(key, s[..|s| - 1], claimed[..|s| - 1], flag, k);
    }
  }

  lemma {:induction false} NoneFlagged<T, K>(key: T -> K, s: seq<T>, claimed: seq<bool>)
    requires |claimed| == |s| && forall i :: 0 <= i < |s| ==> !claimed[i]
    ensures Flagged(key, s, claimed, true) == multiset{}
  {
    if s != [] {
      NoneFlagged(key, s[..|s| - 1], claimed[..|s| - 1]);
    }
  }

  lemma {:induction false} FlaggedClaim<T, K>(key: T -> K, s: seq<T>, claimed: seq<bool>, m: nat)
    requires |claimed| == |s| && m < |s| && !claimed[m]
    ensures Flagged(key, s, claimed[m := true], true) == Flagged(key, s, claimed, true) + multiset{key(s[m])}
  {
    var n := |s| - 1;
    var after := claimed[m := true];
    if m == n {
      assert after[..n] == claimed[..n];
    } else {
      assert after[..n] == claimed[..n][m := true];
      FlaggedClaim(key, s[..n], claimed[..n], m);
    }
  }

  /** Claiming the next expectation's match, or finding none, keeps the claimed keys the
      intersection of what was wanted so far and what was found. */
  lemma ClaimNext<K>(wanted: multiset<K>, got: multiset<K>, claimed: multiset<K>, left: multiset<K>, k: K)
    requires got == claimed + left && claimed == wanted * got
    ensures k in left ==> (wanted + multiset{k}) * got == claimed + multiset{k}
    ensures k in left ==> (wanted + multiset{k}) - got == wanted - got
    ensures k !in left ==> (wanted + multiset{k}) * got == claimed
    ensures k !in left ==> (wanted + multiset{k}) - got == (wanted - got) + multiset{k}
  {
  }

  /** The finding an expectation claims: the first with its key that no earlier expectation
      claimed, or none, which is written as the number of findings. */
  predicate FirstFree(findings: seq<Finding>, taken: seq<nat>, key: Key, m: nat) {
    && m <= |findings|
    && (m < |findings| ==> m !in taken && findings[m].key == key)
    && (forall j :: 0 <= j < m ==> j in taken || findings[j].key != key)
  }

  ghost predicate ClaimsInTurn(expected: seq<Expectation>, findings: seq<Finding>, claims: seq<nat>) {
    |claims| == |expected|
    && forall k :: 0 <= k < |claims| ==> FirstFree(findings, claims[..k], expected[k].key, claims[k])
  }

  /** What claiming in turn comes to: a claimed finding has its expectation's key and is
      claimed once, and any before it with that key went to an earlier expectation; with none
      claimed, they all did. */
  lemma ClaimsAreFirst(expected: seq<Expectation>, findings: seq<Finding>, claims: seq<nat>, k: nat)
    requires ClaimsInTurn(expected, findings, claims) && k < |expected|
    ensures claims[k] <= |findings|
    ensures claims[k] < |findings| ==>
              findings[claims[k]].key == expected[k].key && forall j :: 0 <= j < k ==> claims[j] != claims[k]
    ensures forall i :: 0 <= i < claims[k] && findings[i].key == expected[k].key ==> exists j :: 0 <= j < k && claims[j] == i
  {
    forall i | 0 <= i < claims[k] && findings[i].key == expected[k].key ensures exists j :: 0 <= j < k && claims[j] == i {
      assert i in claims[..k];
    }
    assert forall j :: 0 <= j < k ==> claims[j] in claims[..k];
  }

  /** Expectations met by a finding that is not reported. */
  function Unreported(expected: seq<Expectation>, findings: seq<Finding>, claims: seq<nat>): seq<Expectation>
    requires |claims| == |expected|
  {
    if claims == [] then []
    else
      var n := |claims| - 1;
      Unreported(expected[..n], findings, claims[..n])
      + if claims[n] < |findings| && !findings[claims[n]].reportable then [expected[n]] else []
  }

  /** Expectations that assert a confidence their finding does not have. */
  function Drifted(expected: seq<Expectation>, findings: seq<Finding>, claims: seq<nat>): seq<Mismatch>
    requires |claims| == |expected|
  {
    if claims == [] then []
    else
      var n := |claims| - 1;
      Drifted(expected[..n], findings, claims[..n])
      + if claims[n] < |findings| && expected[n].confidence != "" && findings[claims[n]].confidence != expected[n].confidence
        then [Mismatch(expected[n], findings[claims[n]].confidence)] else []
  }

  /** Expectations no finding was left for. */
  function Missed(expected: seq<Expectation>, findings: seq<Finding>, claims: seq<nat>): seq<Expectation>
    requires |claims| == |expected|
  {
    if claims == [] then []
    else
      var n := |claims| - 1;
      Missed(expected[..n], findings, claims[..n]) + if claims[n] >= |findings| then [expected[n]] else []
  }

  ghost function MetUnreported(findings: seq<Finding>, claims: seq<nat>): nat -> bool {
    (k: nat) => k < |claims| && claims[k] < |findings| && !findings[claims[k]].reportable
  }

  ghost function MetOtherwise(expected: seq<Expectation>, findings: seq<Finding>, claims: seq<nat>): nat -> bool {
    (k: nat) => k < |claims| && claims[k] < |findings| && k < |expected| && expected[k].confidence != ""
                && expected[k].confidence != findings[claims[k]].confidence
  }

  ghost function WithWhatWasGot(expected: seq<Expectation>, findings: seq<Finding>, claims: seq<nat>): (nat, Mismatch) -> bool {
    (k: nat, m: Mismatch) => k < |claims| && claims[k] < |findings| && k < |expected|
                             && m == Mismatch(expected[k], findings[claims[k]].confidence)
  }

  ghost function Unmet(findings: seq<Finding>, claims: seq<nat>): nat -> bool {
    (k: nat) => k < |claims| && claims[k] >= |findings|
  }

  /** Exactly the expectations met by a finding that is not reported, in order. */
  lemma {:induction false} UnreportedAre(expected: seq<Expectation>, findings: seq<Finding>, claims: seq<nat>, n: nat) returns (ks: seq<nat>)
    requires |claims| == |expected| && n <= |claims|
    ensures Gathers(n, MetUnreported(findings, claims), Element(expected), ks, Unreported(expected[..n], findings, claims[..n]))
    decreases n
  {
    var keep, gives := MetUnreported(findings, claims), Element(expected);
    ks := [];
    if n > 0 {
      var before := UnreportedAre(expected, findings, claims, n - 1);
      ks := if keep(n - 1) then before + [n - 1] else before;
      UnreportedStep(expected, findings, claims, n - 1, expected[n - 1]);
      GathersNext(n - 1, keep, gives, before, Unreported(expected[..n - 1], findings, claims[..n - 1]), expected[n - 1], ks, Unreported(expected[..n], findings, claims[..n]));
    }
  }

  lemma UnreportedStep(expected: seq<Expectation>, findings: seq<Finding>, claims: seq<nat>, k: nat, e: Expectation)
    requires |claims| == |expected| && k < |claims| && e == expected[k]
    ensures Unreported(expected[..k + 1], findings, claims[..k + 1])
      == Unreported(expected[..k], findings, claims[..k]) + if MetUnreported(findings, claims)(k) then [e] else []
  {
    assert expected[..k + 1][..k] == expected[..k] && claims[..k + 1][..k] == claims[..k];
  }

  /** Exactly the expectations that assert a confidence, met by a finding that has another,
      each with that other one, in order. */
  lemma {:induction false} DriftedAre(expected: seq<Expectation>, findings: seq<Finding>, claims: seq<nat>, n: nat) returns (ks: seq<nat>)
    requires |claims| == |expected| && n <= |claims|
    ensures Gathers(n, MetOtherwise(expected, findings, claims), WithWhatWasGot(expected, findings, claims), ks,
                    Drifted(expected[..n], findings, claims[..n]))
    decreases n
  {
    var keep, gives := MetOtherwise(expected, findings, claims), WithWhatWasGot(expected, findings, claims);
    ks := [];
    if n > 0 {
      var before := DriftedAre(expected, findings, claims, n - 1);
      var got := if claims[n - 1] < |findings| then findings[claims[n - 1]].confidence else "";
      ks := if keep(n - 1) then before + [n - 1] else before;
      DriftedStep(expected, findings, claims, n - 1, Mismatch(expected[n - 1], got));
      GathersNext(n - 1, keep, gives, before, Drifted(expected[..n - 1], findings, claims[..n - 1]), Mismatch(expected[n - 1], got), ks, Drifted(expected[..n], findings, claims[..n]));
    }
  }

  lemma DriftedStep(expected: seq<Expectation>, findings: seq<Finding>, claims: seq<nat>, k: nat, m: Mismatch)
    requires |claims| == |expected| && k < |claims|
    requires m == Mismatch(expected[k], if claims[k] < |findings| then findings[claims[k]].confidence else "")
    ensures Drifted(expected[..k + 1], findings, claims[..k + 1])
      == Drifted(expected[..k], findings, claims[..k]) + if MetOtherwise(expected, findings, claims)(k) then [m] else []
  {
    var wanted, claimed := expected[..k + 1], claims[..k + 1];
    assert wanted[..k] == expected[..k] && claimed[..k] == claims[..k];
    assert wanted[k] == expected[k] && claimed[k] == claims[k] && |claimed| - 1 == k;
  }

  /** Exactly the expectations no finding was left for, in order. */
  lemma {:induction false} MissedAre(expected: seq<Expectation>, findings: seq<Finding>, claims: seq<nat>, n: nat) returns (ks: seq<nat>)
    requires |claims| == |expected| && n <= |claims|
    ensures Gathers(n, Unmet(findings, claims), Element(expected), ks, Missed(expected[..n], findings, claims[..n]))
    decreases n
  {
    var keep, gives := Unmet(findings, claims), Element(expected);
    ks := [];
    if n > 0 {
      var before := MissedAre(expected, findings, claims, n - 1);
      ks := if keep(n - 1) then before + [n - 1] else before;
      MissedStep(expected, findings, claims, n - 1, expected[n - 1]);
      GathersNext(n - 1, keep, gives, before, Missed(expected[..n - 1], findings, claims[..n - 1]), expected[n - 1], ks, Missed(expected[..n], findings, claims[..n]));
    }
  }

  lemma MissedStep(expected: seq<Expectation>, findings: seq<Finding>, claims: seq<nat>, k: nat, e: Expectation)
    requires |claims| == |expected| && k < |claims| && e == expected[k]
    ensures Missed(expected[..k + 1], findings, claims[..k + 1])
      == Missed(expected[..k], findings, claims[..k]) + if Unmet(findings, claims)(k) then [e] else []
  {
    assert expected[..k + 1][..k] == expected[..k] && claims[..k + 1][..k] == claims[..k];
  }

  /** Claims, for each expectation in turn, the first unclaimed finding with its key. The
      claims decide every list of the report. */
  method Score(expected: seq<Expectation>, findings: seq<Finding>, applicable: bool)
    returns (rep: Report, ghost claims: seq<nat>)
    ensures rep.notApplicable == !applicable
    ensures !applicable ==> rep == Report(true, 0, [], [], [], expected, [])
    ensures applicable ==> ClaimsInTurn(expected, findings, claims)
    ensures applicable ==> rep.expectedButNotReported == Unreported(expected, findings, claims)
    ensures applicable ==> rep.falseNegatives == Missed(expected, findings, claims)
    ensures applicable ==> rep.wrongConfidence == Drifted(expected, findings, claims)
    ensures applicable ==> rep.falsePositives == Unclaimed(findings, ClaimedBy(findings, claims), true)
    ensures applicable ==> rep.enumeratedOnly == Unclaimed(findings, ClaimedBy(findings, claims), false)
    ensures applicable ==> rep.truePositives == |Wanted(expected) * Got(findings)|
    ensures applicable ==> Wanted(rep.falseNegatives) == Wanted(expected) - Got(findings)
    ensures applicable ==> Got(rep.falsePositives) + Got(rep.enumeratedOnly) == Got(findings) - Wanted(expected)
    ensures rep.truePositives + |rep.falseNegatives| == |expected|
    ensures applicable ==>
              rep.truePositives + |rep.falsePositives| + |rep.enumeratedOnly| == |findings|
  {
    if !applicable {
      claims := [];
      rep := Report(true, 0, [], [], [], expected, []);
      return;
    }
    var claimed, found, missed, unreported, drifted;
    claimed, found, missed, unreported, drifted, claims := ClaimMatches(expected, findings);
    FlaggedSplits(KeyGot, findings, claimed);
    FlaggedSize(KeyGot, findings, claimed);
    UnclaimedKeys(findings, claimed);
    UnclaimedSize(findings, claimed);
    var falsePositives, enumeratedOnly := Unexplained(findings, claimed);
    rep := Report(false, found, falsePositives, enumeratedOnly, unreported, missed, drifted);
  }

  ghost function ClaimedBy(findings: seq<Finding>, claims: seq<nat>): seq<bool> {
    seq(|findings|, i => i in claims)
  }

  /** What has been claimed and said so far is what the claims decide. */
  ghost predicate SaidSoFar(wanted: seq<Expectation>, findings: seq<Finding>, claims: seq<nat>, claimed: seq<bool>,
                            missed: seq<Expectation>, unreported: seq<Expectation>, drifted: seq<Mismatch>) {
    && ClaimsInTurn(wanted, findings, claims) && claimed == ClaimedBy(findings, claims)
    && missed == Missed(wanted, findings, claims)
    && unreported == Unreported(wanted, findings, claims)
    && drifted == Drifted(wanted, findings, claims)
  }

  lemma SaidNext(expected: seq<Expectation>, i: nat, findings: seq<Finding>, claims: seq<nat>, m: nat, claimed: seq<bool>,
                 missed: seq<Expectation>, unreported: seq<Expectation>, drifted: seq<Mismatch>)
    requires i < |expected| && SaidSoFar(expected[..i], findings, claims, claimed, missed, unreported, drifted)
    requires m <= |findings| && (m < |findings| ==> !claimed[m] && findings[m].key == expected[i].key)
    requires forall j :: 0 <= j < m ==> claimed[j] || findings[j].key != expected[i].key
    ensures m >= |findings| ==>
              SaidSoFar(expected[..i + 1], findings, claims + [m], claimed, missed + [expected[i]], unreported, drifted)
    ensures m < |findings| ==>
              SaidSoFar(expected[..i + 1], findings, claims + [m], claimed[m := true], missed,
                        unreported + if !findings[m].reportable then [expected[i]] else [],
                        drifted + if expected[i].confidence != "" && findings[m].confidence != expected[i].confidence
                                  then [Mismatch(expected[i], findings[m].confidence)] else [])
  {
    ClaimsNext(expected, i, findings, claims, m);
    ListsNext(expected, i, findings, claims, m);
  }

  /** The pass over the expectations: what was claimed, and what was said along the way. */
  method ClaimMatches(expected: seq<Expectation>, findings: seq<Finding>)
    returns (claimed: seq<bool>, found: nat, missed: seq<Expectation>,
             unreported: seq<Expectation>, drifted: seq<Mismatch>, ghost claims: seq<nat>)
    ensures ClaimedSoFar(expected, findings, claimed, found, missed)
    ensures SaidSoFar(expected, findings, claims, claimed, missed, unreported, drifted)
  {
    claimed := seq(|findings|, _ => false);
    found, missed, unreported, drifted := 0, [], [], [];
    claims := [];
    NoneFlagged(KeyGot, findings, claimed);
    for i := 0 to |expected|
      invariant ClaimedSoFar(expected[..i], findings, claimed, found, missed)
      invariant SaidSoFar(expected[..i], findings, claims, claimed, missed, unreported, drifted)
    {
      var want := expected[i];
      var matched := FirstUnclaimed(findings, claimed, want.key);
      SaidNext(expected, i, findings, claims, matched, claimed, missed, unreported, drifted);
      claims := claims + [matched];
      if matched == |findings| {
        ClaimMisses(expected, i, findings, claimed, found, missed);
        missed := missed + [want];
        continue;
      }
      ClaimHits(expected, i, findings, claimed, found, missed, matched);
      claimed := claimed[matched := true];
      found := found + 1;
      if !findings[matched].reportable {
        unreported := unreported + [want];
      }
      if want.confidence != "" && findings[matched].confidence != want.confidence {
        drifted := drifted + [Mismatch(want, findings[matched].confidence)];
      }
    }
    assert expected[..|expected|] == expected;
  }

  lemma ClaimsNext(expected: seq<Expectation>, i: nat, findings: seq<Finding>, claims: seq<nat>, m: nat)
    requires i < |expected| && ClaimsInTurn(expected[..i], findings, claims)
    requires FirstFree(findings, claims, expected[i].key, m)
    ensures ClaimsInTurn(expected[..i + 1], findings, claims + [m])
    ensures ClaimedBy(findings, claims + [m]) ==
            if m < |findings| then ClaimedBy(findings, claims)[m := true] else ClaimedBy(findings, claims)
  {
    var after := claims + [m];
    forall k | 0 <= k < |after| ensures FirstFree(findings, after[..k], expected[..i + 1][k].key, after[k]) {
      if k < i {
        assert after[..k] == claims[..k];
      } else {
        assert after[..k] == claims;
      }
    }
  }

  lemma ListsNext(expected: seq<Expectation>, i: nat, findings: seq<Finding>, claims: seq<nat>, m: nat)
    requires i < |expected| && |claims| == i
    ensures Missed(expected[..i + 1], findings, claims + [m]) ==
            Missed(expected[..i], findings, claims) + if m >= |findings| then [expected[i]] else []
    ensures Unreported(expected[..i + 1], findings, claims + [m]) ==
            Unreported(expected[..i], findings, claims)
            + if m < |findings| && !findings[m].reportable then [expected[i]] else []
    ensures Drifted(expected[..i + 1], findings, claims + [m]) ==
            Drifted(expected[..i], findings, claims)
            + if m < |findings| && expected[i].confidence != "" && findings[m].confidence != expected[i].confidence
              then [Mismatch(expected[i], findings[m].confidence)] else []
  {
    assert (claims + [m])[..i] == claims && expected[..i + 1][..i] == expected[..i];
  }

  /** The claimed keys are the intersection of what was wanted so far and what was found;
      what is wanted and not found is missed. */
  ghost predicate ClaimedSoFar(wanted: seq<Expectation>, findings: seq<Finding>, claimed: seq<bool>,
                               found: nat, missed: seq<Expectation>)
  {
    && |claimed| == |findings|
    && Flagged(KeyGot, findings, claimed, true) == Wanted(wanted) * Got(findings)
    && found == |Flagged(KeyGot, findings, claimed, true)|
    && Wanted(missed) == Wanted(wanted) - Got(findings)
    && found + |missed| == |wanted|
  }

  lemma ClaimMisses(expected: seq<Expectation>, i: nat, findings: seq<Finding>, claimed: seq<bool>,
                    found: nat, missed: seq<Expectation>)
    requires i < |expected| && ClaimedSoFar(expected[..i], findings, claimed, found, missed)
    requires forall j :: 0 <= j < |findings| ==> claimed[j] || findings[j].key != expected[i].key
    ensures ClaimedSoFar(expected[..i + 1], findings, claimed, found, missed + [expected[i]])
  {
    KeysByNext(KeyWanted, expected, i);
    KeysByAppend(KeyWanted, missed, expected[i]);
    FlaggedLacks(KeyGot, findings, claimed, false, expected[i].key);
    FlaggedSplits(KeyGot, findings, claimed);
    ClaimNext(Wanted(expected[..i]), Got(findings), Flagged(KeyGot, findings, claimed, true),
              Flagged(KeyGot, findings, claimed, false), expected[i].key);
  }

  lemma ClaimHits(expected: seq<Expectation>, i: nat, findings: seq<Finding>, claimed: seq<bool>,
                  found: nat, missed: seq<Expectation>, m: nat)
    requires i < |expected| && ClaimedSoFar(expected[..i], findings, claimed, found, missed)
    requires m < |findings| && !claimed[m] && findings[m].key == expected[i].key
    ensures ClaimedSoFar(expected[..i + 1], findings, claimed[m := true], found + 1, missed)
  {
    KeysByNext(KeyWanted, expected, i);
    FlaggedHolds(KeyGot, findings, claimed, false, m);
    FlaggedClaim(KeyGot, findings, claimed, m);
    FlaggedSplits(KeyGot, findings, claimed);
    ClaimNext(Wanted(expected[..i]), Got(findings), Flagged(KeyGot, findings, claimed, true),
              Flagged(KeyGot, findings, claimed, false), expected[i].key);
  }

  /** The first unclaimed finding with a key, or the number of findings. */
  method FirstUnclaimed(findings: seq<Finding>, claimed: seq<bool>, key: Key) returns (m: nat)
    requires |claimed| == |findings|
    ensures m <= |findings|
    ensures m < |findings| ==> !claimed[m] && findings[m].key == key
    ensures forall i :: 0 <= i < m ==> claimed[i] || findings[i].key != key
  {
    m := 0;
    while m < |findings|
      invariant m <= |findings|
      invariant forall i :: 0 <= i < m ==> claimed[i] || findings[i].key != key
    {
      if !claimed[m] && findings[m].key == key {
        return;
      }
      m := m + 1;
    }
  }

  /** The unclaimed findings that are, or are not, reported. */
  function Unclaimed(findings: seq<Finding>, claimed: seq<bool>, reportable: bool): seq<Finding>
    requires |claimed| == |findings|
  {
    if findings == [] then []
    else
      var n := |findings| - 1;
      Unclaimed(findings[..n], claimed[..n], reportable)
      + if !claimed[n] && findings[n].reportable == reportable then [findings[n]] else []
  }

  ghost function LeftFree(findings: seq<Finding>, claimed: seq<bool>, reportable: bool): nat -> bool {
    (k: nat) => k < |claimed| && !claimed[k] && k < |findings| && findings[k].reportable == reportable
  }

  /** Exactly the findings nothing claimed, of those reported or of the others, in order. */
  lemma {:induction false} UnclaimedAre(findings: seq<Finding>, claimed: seq<bool>, reportable: bool, n: nat) returns (ks: seq<nat>)
    requires |claimed| == |findings| && n <= |findings|
    ensures Gathers(n, LeftFree(findings, claimed, reportable), Element(findings), ks,
                    Unclaimed(findings[..n], claimed[..n], reportable))
    decreases n
  {
    var keep, gives := LeftFree(findings, claimed, reportable), Element(findings);
    ks := [];
    if n > 0 {
      var before := UnclaimedAre(findings, claimed, reportable, n - 1);
      ks := if keep(n - 1) then before + [n - 1] else before;
      UnclaimedStep(findings, claimed, reportable, n - 1, findings[n - 1]);
      GathersNext(n - 1, keep, gives, before, Unclaimed(findings[..n - 1], claimed[..n - 1], reportable), findings[n - 1],
                  ks, Unclaimed(findings[..n], claimed[..n], reportable));
    }
  }

  lemma UnclaimedStep(findings: seq<Finding>, claimed: seq<bool>, reportable: bool, k: nat, f: Finding)
    requires |claimed| == |findings| && k < |findings| && f == findings[k]
    ensures Unclaimed(findings[..k + 1], claimed[..k + 1], reportable)
      == Unclaimed(findings[..k], claimed[..k], reportable) + if LeftFree(findings, claimed, reportable)(k) then [f] else []
  {
    UnclaimedNext(findings, claimed, reportable, k);
  }

  lemma UnclaimedNext(findings: seq<Finding>, claimed: seq<bool>, reportable: bool, i: nat)
    requires |claimed| == |findings| && i < |findings|
    ensures Unclaimed(findings[..i + 1], claimed[..i + 1], reportable) ==
            Unclaimed(findings[..i], claimed[..i], reportable)
            + if !claimed[i] && findings[i].reportable == reportable then [findings[i]] else []
  {
    assert findings[..i + 1][..i] == findings[..i] && claimed[..i + 1][..i] == claimed[..i];
  }

  lemma {:induction false} UnclaimedKeys(findings: seq<Finding>, claimed: seq<bool>)
    requires |claimed| == |findings|
    ensures Got(Unclaimed(findings, claimed, true)) + Got(Unclaimed(findings, claimed, false))
            == Flagged(KeyGot, findings, claimed, false)
  {
    if findings == [] {
      var none: multiset<Key> := multiset{};
      assert none + none == none;
    } else {
      var n := |findings| - 1;
      UnclaimedKeys(findings[..n], claimed[..n]);
      var reported := Unclaimed(findings[..n], claimed[..n], true);
      var others := Unclaimed(findings[..n], claimed[..n], false);
      if claimed[n] {
        assert reported + [] == reported && others + [] == others;
      } else if findings[n].reportable {
        assert others + [] == others;
        KeysByAppend(KeyGot, reported, findings[n]);
      } else {
        assert reported + [] == reported;
        KeysByAppend(KeyGot, others, findings[n]);
      }
    }
  }

  lemma {:induction false} UnclaimedSize(findings: seq<Finding>, claimed: seq<bool>)
    requires |claimed| == |findings|
    ensures |Unclaimed(findings, claimed, true)| + |Unclaimed(findings, claimed, false)|
            == |Flagged(KeyGot, findings, claimed, false)|
  {
    if findings != [] {
      UnclaimedSize(findings[..|findings| - 1], claimed[..|findings| - 1]);
    }
  }

  /** The unclaimed findings, split by whether they are reported. */
  method Unexplained(findings: seq<Finding>, claimed: seq<bool>)
    returns (falsePositives: seq<Finding>, enumeratedOnly: seq<Finding>)
    requires |claimed| == |findings|
    ensures falsePositives == Unclaimed(findings, claimed, true)
    ensures enumeratedOnly == Unclaimed(findings, claimed, false)
  {
    falsePositives, enumeratedOnly := [], [];
    for i := 0 to |findings|
      invariant falsePositives == Unclaimed(findings[..i], claimed[..i], true)
      invariant enumeratedOnly == Unclaimed(findings[..i], claimed[..i], false)
    {
      UnclaimedNext(findings, claimed, true, i);
      UnclaimedNext(findings, claimed, false, i);
      if claimed[i] {
        continue;
      }
      if findings[i].reportable {
        falsePositives := falsePositives + [findings[i]];
        continue;
      }
      enumeratedOnly := enumeratedOnly + [findings[i]];
    }
    assert findings[..|findings|] == findings && claimed[..|claimed|] == claimed;
  }

  // --- no matching does better -------------------------------------------

  /** One way to pair expectations with findings: each pair agrees on its key, and neither
      side is used twice. */
  ghost predicate Matching(expected: seq<Expectation>, findings: seq<Finding>, pairs: seq<(nat, nat)>) {
    && (forall k :: 0 <= k < |pairs| ==>
          && pairs[k].0 < |expected| && pairs[k].1 < |findings|
          && expected[pairs[k].0].key == findings[pairs[k].1].key)
    && (forall j, k :: 0 <= j < k < |pairs| ==> pairs[j].0 != pairs[k].0 && pairs[j].1 != pairs[k].1)
  }

  ghost function PairKeys(expected: seq<Expectation>, pairs: seq<(nat, nat)>): multiset<Key>
    requires forall k :: 0 <= k < |pairs| ==> pairs[k].0 < |expected|
  {
    if pairs == [] then multiset{}
    else PairKeys(expected, pairs[..|pairs| - 1]) + multiset{expected[pairs[|pairs| - 1].0].key}
  }

  ghost function LeftOf(pairs: seq<(nat, nat)>): set<nat> {
    set k | 0 <= k < |pairs| :: pairs[k].0
  }

  ghost function RightOf(pairs: seq<(nat, nat)>): set<nat> {
    set k | 0 <= k < |pairs| :: pairs[k].1
  }

  lemma SidesGrow(pairs: seq<(nat, nat)>)
    requires pairs != []
    ensures var n := |pairs| - 1;
            && LeftOf(pairs) == LeftOf(pairs[..n]) + {pairs[n].0}
            && RightOf(pairs) == RightOf(pairs[..n]) + {pairs[n].1}
  {
    var n := |pairs| - 1;
    assert forall k :: 0 <= k < n ==> pairs[..n][k] == pairs[k];
    forall x | x in LeftOf(pairs[..n]) ensures x in LeftOf(pairs) {
      var k :| 0 <= k < n && pairs[..n][k].0 == x;
      assert pairs[k].0 == x;
    }
    forall x | x in RightOf(pairs[..n]) ensures x in RightOf(pairs) {
      var k :| 0 <= k < n && pairs[..n][k].1 == x;
      assert pairs[k].1 == x;
    }
    forall x | x in LeftOf(pairs) ensures x in LeftOf(pairs[..n]) + {pairs[n].0} {
      var k :| 0 <= k < |pairs| && pairs[k].0 == x;
      if k < n { assert pairs[..n][k].0 == x; }
    }
    forall x | x in RightOf(pairs) ensures x in RightOf(pairs[..n]) + {pairs[n].1} {
      var k :| 0 <= k < |pairs| && pairs[k].1 == x;
      if k < n { assert pairs[..n][k].1 == x; }
    }
  }

  lemma MatchingPrefix(expected: seq<Expectation>, findings: seq<Finding>, pairs: seq<(nat, nat)>)
    requires Matching(expected, findings, pairs) && pairs != []
    ensures var n := |pairs| - 1;
            && Matching(expected, findings, pairs[..n])
            && pairs[n].0 !in LeftOf(pairs[..n]) && pairs[n].1 !in RightOf(pairs[..n])
  {
    var n := |pairs| - 1;
    assert forall k :: 0 <= k < n ==> pairs[..n][k] == pairs[k];
  }

  lemma {:induction false} PairKeysLeft(expected: seq<Expectation>, findings: seq<Finding>, pairs: seq<(nat, nat)>)
    requires Matching(expected, findings, pairs)
    ensures PairKeys(expected, pairs) == KeysAt(KeyWanted, expected, LeftOf(pairs))
    ensures |PairKeys(expected, pairs)| == |pairs|
  {
    if pairs == [] {
      assert LeftOf(pairs) == {};
      KeysAtNone(KeyWanted, expected);
    } else {
      var n := |pairs| - 1;
      MatchingPrefix(expected, findings, pairs);
      PairKeysLeft(expected, findings, pairs[..n]);
      SidesGrow(pairs);
      KeysAtAdd(KeyWanted, expected, LeftOf(pairs[..n]), pairs[n].0);
    }
  }

  lemma {:induction false} PairKeysRight(expected: seq<Expectation>, findings: seq<Finding>, pairs: seq<(nat, nat)>)
    requires Matching(expected, findings, pairs)
    ensures PairKeys(expected, pairs) == KeysAt(KeyGot, findings, RightOf(pairs))
  {
    if pairs == [] {
      assert RightOf(pairs) == {};
      KeysAtNone(KeyGot, findings);
    } else {
      var n := |pairs| - 1;
      MatchingPrefix(expected, findings, pairs);
      PairKeysRight(expected, findings, pairs[..n]);
      SidesGrow(pairs);
      KeysAtAdd(KeyGot, findings, RightOf(pairs[..n]), pairs[n].1);
    }
  }

  /** However expectations are paired with findings, no more of them can be paired than the
      score counts: claiming the first match is as good as any choice. */
  lemma NoMatchingBeatsScore(expected: seq<Expectation>, findings: seq<Finding>, pairs: seq<(nat, nat)>)
    requires Matching(expected, findings, pairs)
    ensures |pairs| <= |Wanted(expected) * Got(findings)|
  {
    PairKeysLeft(expected, findings, pairs);
    PairKeysRight(expected, findings, pairs);
    KeysAtWithin(KeyWanted, expected, LeftOf(pairs));
    KeysAtWithin(KeyGot, findings, RightOf(pairs));
    SizeMonotone(PairKeys(expected, pairs), Wanted(expected) * Got(findings));
  }

  // --- order does not matter ---------------------------------------------

  /** The count does not depend on the order of either list. */
  lemma CountIgnoresOrder(e1: seq<Expectation>, e2: seq<Expectation>, f1: seq<Finding>, f2: seq<Finding>)
    requires multiset(e1) == multiset(e2) && multiset(f1) == multiset(f2)
    ensures |Wanted(e1) * Got(f1)| == |Wanted(e2) * Got(f2)|
  {
    KeysByIgnoresOrder(KeyWanted, e1, e2);
    KeysByIgnoresOrder(KeyGot, f1, f2);
  }
}
