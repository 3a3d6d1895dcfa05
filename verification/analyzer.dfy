/** Analyzer: the rules that turn the offline candidates and the online checks of one
    jar into a coordinate. A jar is selected automatically when exactly one exact jar
    match was found online; otherwise the user completes the coordinate component by
    component, choosing among numbered proposals or typing a value that must pass the
    component's validation pattern. Console lines are the input sequence; printing
    is left out. */
module Analyzer {
  import opened Wrappers
  import Seqs
  import opened Text
  import opened MavenUid
  import opened ValueCandidate
  import opened Helper
  import opened OnlineAnalyzer

  /** The no-version results of the online search: a map from version-less
      coordinate to its checks, as the entries of its (unspecified) iteration order. */
  type NoVersionResults = seq<(Uid, seq<UidCheck>)>

  // ---------------------------------------------------------------- auto selection

  /** The checks that found the very same jar online, each as often as it occurs. */
  function ExactShaChecks(checks: seq<UidCheck>): (r: seq<UidCheck>)
    ensures forall c :: multiset(r)[c] == if c.matchType == ExactSha then multiset(checks)[c] else 0
    decreases |checks|
  {
    if |checks| == 0 then []
    else
      assert checks == [checks[0]] + checks[1..];
      (if checks[0].matchType == ExactSha then [checks[0]] else []) + ExactShaChecks(checks[1..])
  }

  /** Reference definition: the checks of all no-version entries, in entry order. */
  function Flatten(entries: NoVersionResults): seq<UidCheck>
    decreases |entries|
  {
    if |entries| == 0 then [] else entries[0].1 + Flatten(entries[1..])
  }

  lemma {:induction false} FlattenAppend(a: NoVersionResults, b: NoVersionResults)
    ensures Flatten(a + b) == Flatten(a) + Flatten(b)
    decreases |a|
  {
    if |a| == 0 {
      assert a + b == b;
    } else {
      assert (a + b)[1..] == a[1..] + b;
      FlattenAppend(a[1..], b);
    }
  }

  /** The order in which the map is iterated does not change which checks it holds. */
  lemma {:induction false} FlattenPermutation(a: NoVersionResults, b: NoVersionResults)
    requires multiset(a) == multiset(b)
    ensures multiset(Flatten(a)) == multiset(Flatten(b))
    decreases |a|
  {
    if |a| == 0 {
      assert |b| == |multiset(b)| == 0;
    } else {
      var e := a[0];
      assert e in multiset(b);
      var j :| 0 <= j < |b| && b[j] == e;
      var rest := b[..j] + b[j + 1..];
      MultisetRemove(a, b, j);
      FlattenPermutation(a[1..], rest);
      FlattenRemoveAt(b, j);
    }
  }

  /** Taking one entry out of the iteration takes exactly its checks out. */
  lemma FlattenRemoveAt(b: NoVersionResults, j: nat)
    requires j < |b|
    ensures multiset(Flatten(b)) == multiset(b[j].1) + multiset(Flatten(b[..j] + b[j + 1..]))
  {
    FlattenSplitAt(b, j);
    FlattenAppend(b[..j], b[j + 1..]);
  }

  lemma FlattenSplitAt(b: NoVersionResults, j: nat)
    requires j < |b|
    ensures Flatten(b) == Flatten(b[..j]) + b[j].1 + Flatten(b[j + 1..])
  {
    var pre, rest, post := b[..j], b[j..], b[j + 1..];
    assert b == pre + rest;
    assert rest[1..] == post;
    FlattenAppend(pre, rest);
  }

  /** Every online check of the jar: the with-version ones, then those of each
      version-less coordinate. */
  function AllChecks(withVersion: seq<UidCheck>, noVersion: NoVersionResults): seq<UidCheck> {
    withVersion + Flatten(noVersion)
  }

  /** c is the one and only exact jar match among the checks. Checks are distinct
      objects, so two equal-valued exact checks are two matches. */
  ghost predicate SoleExactMatch(c: UidCheck, checks: seq<UidCheck>) {
    c.matchType == ExactSha && multiset(checks)[c] == 1
    && forall d :: d in checks && d.matchType == ExactSha ==> d == c
  }

  /** Analyzer.autoSelectCandidate: the check that is the only exact jar match, if
      there is exactly one; zero or several exact matches select nothing. */
  function AutoSelect(withVersion: seq<UidCheck>, noVersion: NoVersionResults): (r: Option<UidCheck>)
    ensures r.Some? ==> SoleExactMatch(r.value, AllChecks(withVersion, noVersion))
    ensures r.None? ==> forall c :: !SoleExactMatch(c, AllChecks(withVersion, noVersion))
  {
    var found := ExactShaChecks(withVersion) + ExactShaChecks(Flatten(noVersion));
    ExactShaChecksAppend(withVersion, Flatten(noVersion));
    SelectSole(found, AllChecks(withVersion, noVersion))
  }

  lemma ExactShaChecksAppend(a: seq<UidCheck>, b: seq<UidCheck>)
    ensures var found := ExactShaChecks(a) + ExactShaChecks(b);
      forall c :: multiset(found)[c] == if c.matchType == ExactSha then multiset(a + b)[c] else 0
  {
  }

  /** The only exact match among the checks `all`, given the exact ones among them. */
  function SelectSole(found: seq<UidCheck>, all: seq<UidCheck>): (r: Option<UidCheck>)
    requires forall c :: multiset(found)[c] == if c.matchType == ExactSha then multiset(all)[c] else 0
    ensures r.Some? ==> SoleExactMatch(r.value, all)
    ensures r.None? ==> forall c :: !SoleExactMatch(c, all)
  {
    if |found| == 1 then
      assert multiset(found) == multiset{found[0]} by {
        assert found == [found[0]];
      }
      assert forall d :: d in all && d.matchType == ExactSha ==> d in multiset(found);
      Some(found[0])
    else
      SoleMatchCount(found, all);
      None
  }

  lemma SoleMatchCount(found: seq<UidCheck>, all: seq<UidCheck>)
    requires forall c :: multiset(found)[c] == if c.matchType == ExactSha then multiset(all)[c] else 0
    requires |found| != 1
    ensures forall c :: !SoleExactMatch(c, all)
  {
    forall c ensures !SoleExactMatch(c, all) {
      if SoleExactMatch(c, all) {
        SoleMatchIsOne(found, all, c);
      }
    }
  }

  lemma SoleMatchIsOne(found: seq<UidCheck>, all: seq<UidCheck>, c: UidCheck)
    requires forall c :: multiset(found)[c] == if c.matchType == ExactSha then multiset(all)[c] else 0
    requires SoleExactMatch(c, all)
    ensures |found| == 1
  {
    assert multiset(found)[c] == 1;
    assert multiset(found) == multiset{c} by {
      forall d ensures multiset(found)[d] == multiset{c}[d] {
      }
    }
    assert |found| == |multiset(found)|;
  }

  /** The outcome does not depend on the order in which the version-less results are
      visited. */
  lemma AutoSelectOrderIndependent(withVersion: seq<UidCheck>, n1: NoVersionResults, n2: NoVersionResults)
    requires multiset(n1) == multiset(n2)
    ensures AutoSelect(withVersion, n1) == AutoSelect(withVersion, n2)
  {
    FlattenPermutation(n1, n2);
    var a1 := AllChecks(withVersion, n1);
    var a2 := AllChecks(withVersion, n2);
    assert multiset(a1) == multiset(a2);
    assert forall c :: SoleExactMatch(c, a1) <==> SoleExactMatch(c, a2) by {
      assert forall d :: d in a1 <==> d in multiset(a1);
      assert forall d :: d in a2 <==> d in multiset(a2);
    }
  }

  // ---------------------------------------------------------------- proposals

  /** Offline candidates need this score sum to be proposed. */
  const ProposalScoreThreshold: int := 4

  /** The component of a check's coordinate, when the check found the same jar (or
      the same classes) and the component is set. */
  function OnlineProposal(check: UidCheck, c: Component): (r: Option<string>)
    ensures r.Some? <==> IsConsideredIdentical(check.matchType) && Get(check.fullUid, c).Some?
    ensures r.Some? ==> Get(check.fullUid, c) == r
  {
    var value := Get(check.fullUid, c);
    if value.Some? && (check.matchType == ExactSha || check.matchType == ExactClassesSha) then value else None
  }

  function OfflineProposals(offline: seq<Candidate>): (r: seq<Str>)
    ensures forall x :: x in r <==> exists i :: 0 <= i < |offline| && offline[i].scoreSum >= ProposalScoreThreshold && offline[i].value == x
    decreases |offline|
  {
    if |offline| == 0 then []
    else
      var rest := OfflineProposals(offline[1..]);
      assert forall i :: 1 <= i < |offline| ==> offline[i] == offline[1..][i - 1];
      (if offline[0].scoreSum >= ProposalScoreThreshold then [offline[0].value] else []) + rest
  }

  function CheckProposals(checks: seq<UidCheck>, c: Component): (r: seq<Str>)
    ensures forall x :: x in r <==> exists i :: 0 <= i < |checks| && OnlineProposal(checks[i], c).Some? && OnlineProposal(checks[i], c) == x
    decreases |checks|
  {
    if |checks| == 0 then []
    else
      var rest := CheckProposals(checks[1..], c);
      assert forall i :: 1 <= i < |checks| ==> checks[i] == checks[1..][i - 1];
      (match OnlineProposal(checks[0], c) case Some(v) => [Some(v)] case None => []) + rest
  }

  /** For each version-less coordinate: its groupId or artifactId (never its
      version), then the proposals of its checks. */
  function EntryProposals(entries: NoVersionResults, c: Component): (r: seq<Str>)
    ensures forall x :: x in r <==>
      exists i :: 0 <= i < |entries| && ((c != Version && Get(entries[i].0, c) == x) || x in CheckProposals(entries[i].1, c))
    decreases |entries|
  {
    if |entries| == 0 then []
    else
      var rest := EntryProposals(entries[1..], c);
      assert forall i :: 1 <= i < |entries| ==> entries[i] == entries[1..][i - 1];
      (if c != Version then [Get(entries[0].0, c)] else []) + CheckProposals(entries[0].1, c) + rest
  }

  /** LinkedHashSet insertion: every value once, at its first occurrence. */
  function Dedup(s: seq<Str>): (r: seq<Str>)
    ensures forall x :: x in r <==> x in s
    ensures forall i, j :: 0 <= i < j < |r| ==> r[i] != r[j]
    ensures |r| <= |s|
    decreases |s|
  {
    if |s| == 0 then []
    else
      var init := s[..|s| - 1];
      var r := Dedup(init);
      assert forall x :: x in s <==> x in init || x == s[|s| - 1];
      if s[|s| - 1] in r then r else r + [s[|s| - 1]]
  }

  /** The index of the first occurrence of x in s. */
  function FirstIndex(s: seq<Str>, x: Str): (k: nat)
    requires x in s
    ensures k < |s| && s[k] == x && x !in s[..k]
    decreases |s|
  {
    if s[0] == x then 0
    else
      var k := FirstIndex(s[1..], x);
      assert s[..k + 1] == [s[0]] + s[1..][..k];
      k + 1
  }

  /** The values of r occur in s, in the order of their first occurrences there. */
  ghost predicate InFirstOrder(r: seq<Str>, s: seq<Str>) {
    (forall i :: 0 <= i < |r| ==> r[i] in s)
    && forall i, j :: 0 <= i < j < |r| ==> FirstIndex(s, r[i]) < FirstIndex(s, r[j])
  }

  /** Dedup keeps the values in the order of their first occurrences. */
  lemma {:induction false} DedupOrder(s: seq<Str>)
    ensures forall i, j :: 0 <= i < j < |Dedup(s)| ==> FirstIndex(s, Dedup(s)[i]) < FirstIndex(s, Dedup(s)[j])
    decreases |s|
  {
    DedupInFirstOrder(s);
  }

  lemma {:induction false} DedupInFirstOrder(s: seq<Str>)
    ensures InFirstOrder(Dedup(s), s)
    decreases |s|
  {
    if |s| > 0 {
      var init := s[..|s| - 1];
      DedupInFirstOrder(init);
      var r := Dedup(init);
      InFirstOrderExtend(r, init, s);
      if s[|s| - 1] !in r {
        InFirstOrderAppendNew(r, s);
      }
    }
  }

  /** Extending s at the end keeps the first occurrences of the values already in it. */
  lemma InFirstOrderExtend(r: seq<Str>, init: seq<Str>, s: seq<Str>)
    requires |init| <= |s| && init == s[..|init|] && InFirstOrder(r, init)
    ensures InFirstOrder(r, s)
    ensures forall i :: 0 <= i < |r| ==> FirstIndex(s, r[i]) < |init|
  {
    forall i | 0 <= i < |r| ensures r[i] in s && FirstIndex(s, r[i]) == FirstIndex(init, r[i]) {
      FirstIndexPrefix(s, init, r[i]);
    }
  }

  /** A value first met at the last position goes after all the others. */
  lemma InFirstOrderAppendNew(r: seq<Str>, s: seq<Str>)
    requires |s| > 0 && InFirstOrder(r, s) && forall i :: 0 <= i < |r| ==> FirstIndex(s, r[i]) < |s| - 1
    requires s[|s| - 1] !in r
    requires s[|s| - 1] !in s[..|s| - 1]
    ensures InFirstOrder(r + [s[|s| - 1]], s)
  {
    var last := s[|s| - 1];
    FirstIndexOfNew(s);
    var r' := r + [last];
    forall i | 0 <= i < |r'| ensures r'[i] in s {
      if i < |r| {
        assert r'[i] == r[i];
      }
    }
    forall i, j | 0 <= i < j < |r'| ensures FirstIndex(s, r'[i]) < FirstIndex(s, r'[j]) {
      assert r'[i] == r[i];
      if j < |r| {
        assert r'[j] == r[j];
      }
    }
  }

  lemma FirstIndexOfNew(s: seq<Str>)
    requires |s| > 0 && s[|s| - 1] !in s[..|s| - 1]
    ensures FirstIndex(s, s[|s| - 1]) == |s| - 1
  {
  }

  lemma FirstIndexPrefix(s: seq<Str>, p: seq<Str>, x: Str)
    requires x in p && |p| <= |s| && p == s[..|p|]
    ensures FirstIndex(s, x) == FirstIndex(p, x)
  {
    var k := FirstIndex(p, x);
    assert s[k] == x;
  }

  /** The values deduplicated first keep their places when more are inserted. */
  lemma {:induction false} DedupPrefix(a: seq<Str>, b: seq<Str>)
    ensures |Dedup(a)| <= |Dedup(a + b)| && Dedup(a + b)[..|Dedup(a)|] == Dedup(a)
    decreases |b|
  {
    if |b| == 0 {
      assert a + b == a;
    } else {
      var b' := b[..|b| - 1];
      DedupPrefix(a, b');
      assert (a + b)[..|a + b| - 1] == a + b';
    }
  }

  /** Dedup leaves a list without repetitions as it is. */
  lemma {:induction false} DedupDistinct(s: seq<Str>)
    requires forall i, j :: 0 <= i < j < |s| ==> s[i] != s[j]
    ensures Dedup(s) == s
    decreases |s|
  {
    if |s| > 0 {
      var init := s[..|s| - 1];
      DedupDistinct(init);
      assert s[|s| - 1] !in init;
      assert init + [s[|s| - 1]] == s;
    }
  }

  /** The proposals for component c in insertion order: offline candidates scoring
      at least 4 in rank order, then the identical-jar checks with version, then per
      version-less coordinate its own groupId/artifactId and its identical-jar
      checks. */
  function RawProposals(c: Component, offline: seq<Candidate>, withVersion: seq<UidCheck>, noVersion: NoVersionResults)
    : seq<Str>
  {
    OfflineProposals(offline) + CheckProposals(withVersion, c) + EntryProposals(noVersion, c)
  }

  /** x is proposed for component c: by an offline candidate scoring at least the
      threshold, by an identical-jar check, or by a version-less coordinate (its own
      groupId or artifactId, or one of its checks). */
  ghost predicate IsProposed(x: Str, c: Component, offline: seq<Candidate>, withVersion: seq<UidCheck>,
                             noVersion: NoVersionResults) {
    (exists i :: 0 <= i < |offline| && offline[i].scoreSum >= ProposalScoreThreshold && offline[i].value == x)
    || (exists i :: 0 <= i < |withVersion| && OnlineProposal(withVersion[i], c).Some? && OnlineProposal(withVersion[i], c) == x)
    || (exists i :: 0 <= i < |noVersion| && ((c != Version && Get(noVersion[i].0, c) == x) || x in CheckProposals(noVersion[i].1, c)))
  }

  /** The proposal list of Analyzer.userSelectCandidate for component c: exactly the
      values proposed by some source, each once, the offline ones first in rank
      order. */
  function Proposals(c: Component, offline: seq<Candidate>, withVersion: seq<UidCheck>, noVersion: NoVersionResults)
    : (r: seq<Str>)
    ensures forall i, j :: 0 <= i < j < |r| ==> r[i] != r[j]
    ensures forall x :: x in r <==> IsProposed(x, c, offline, withVersion, noVersion)
    ensures |Dedup(OfflineProposals(offline))| <= |r| && r[..|Dedup(OfflineProposals(offline))|] == Dedup(OfflineProposals(offline))
  {
    var off := OfflineProposals(offline);
    var raw := RawProposals(c, offline, withVersion, noVersion);
    assert raw == off + (CheckProposals(withVersion, c) + EntryProposals(noVersion, c));
    DedupPrefix(off, CheckProposals(withVersion, c) + EntryProposals(noVersion, c));
    RawProposalsMembers(c, offline, withVersion, noVersion);
    Dedup(raw)
  }

  lemma RawProposalsMembers(c: Component, offline: seq<Candidate>, withVersion: seq<UidCheck>, noVersion: NoVersionResults)
    ensures forall x :: x in RawProposals(c, offline, withVersion, noVersion) <==>
      IsProposed(x, c, offline, withVersion, noVersion)
  {
  }

  /** Coordinate values are never proposed for the version from a version-less
      coordinate itself: a version proposal comes from an offline candidate or from
      an identical-jar check. */
  lemma NoPairKeyForVersion(offline: seq<Candidate>, withVersion: seq<UidCheck>, noVersion: NoVersionResults, x: Str)
    requires x in Proposals(Version, offline, withVersion, noVersion)
    ensures (exists i :: 0 <= i < |offline| && offline[i].scoreSum >= ProposalScoreThreshold && offline[i].value == x)
      || (exists ch :: ch in AllChecks(withVersion, noVersion) && IsConsideredIdentical(ch.matchType)
                      && x.Some? && ch.fullUid.version == x)
  {
    if !exists i :: 0 <= i < |offline| && offline[i].scoreSum >= ProposalScoreThreshold && offline[i].value == x {
      if exists i :: 0 <= i < |withVersion| && OnlineProposal(withVersion[i], Version).Some? && OnlineProposal(withVersion[i], Version) == x {
        var i :| 0 <= i < |withVersion| && OnlineProposal(withVersion[i], Version).Some? && OnlineProposal(withVersion[i], Version) == x;
        assert withVersion[i] in AllChecks(withVersion, noVersion);
      } else {
        var i :| 0 <= i < |noVersion| && x in CheckProposals(noVersion[i].1, Version);
        var k :| 0 <= k < |noVersion[i].1| && OnlineProposal(noVersion[i].1[k], Version).Some? && OnlineProposal(noVersion[i].1[k], Version) == x;
        FlattenContains(noVersion, i, k);
      }
    }
  }

  lemma {:induction false} FlattenContains(entries: NoVersionResults, i: nat, k: nat)
    requires i < |entries| && k < |entries[i].1|
    ensures entries[i].1[k] in Flatten(entries)
    decreases i
  {
    if i > 0 {
      FlattenContains(entries[1..], i - 1, k);
    }
  }

  // ---------------------------------------------------------------- input lines

  const MaxInt: int := 0x7fff_ffff
  const MinInt: int := -0x8000_0000

  predicate IsAsciiDigit(c: char) { '0' <= c <= '9' }

  predicate AllDigits(s: string) {
    forall i :: 0 <= i < |s| ==> IsAsciiDigit(s[i])
  }

  /** The value of a string of decimal digits. */
  function DigitsValue(s: string): nat
    requires AllDigits(s)
    decreases |s|
  {
    if |s| == 0 then 0
    else
      assert IsAsciiDigit(s[|s| - 1]);
      DigitsValue(s[..|s| - 1]) * 10 + (s[|s| - 1] as int - '0' as int)
  }

  predicate IsSign(c: char) { c == '-' || c == '+' }

  /** The shape Integer.parseInt accepts: an optional sign followed by at least one
      ASCII digit. */
  predicate IntShape(s: string) {
    |s| > 0 && (if IsSign(s[0]) then |s| > 1 && AllDigits(s[1..]) else AllDigits(s))
  }

  /** The number a well-shaped string denotes, before the range check. */
  function SignedValue(s: string): int
    requires IntShape(s)
  {
    if s[0] == '-' then -(DigitsValue(s[1..]) as int)
    else if s[0] == '+' then DigitsValue(s[1..])
    else DigitsValue(s)
  }

  /** Integer.parseInt in radix 10: an optional sign, at least one digit, and a value
      within the int range; None is the NumberFormatException. */
  function ParseInt(s: string): (r: Option<int>)
    ensures r.Some? <==> IntShape(s) && MinInt <= SignedValue(s) <= MaxInt
    ensures r.Some? ==> r.value == SignedValue(s)
    ensures r.Some? ==> MinInt <= r.value <= MaxInt
    ensures r.Some? ==> |s| > 0 && (IsAsciiDigit(s[0]) || s[0] == '-' || s[0] == '+')
  {
    if |s| == 0 then None
    else
      var signed := s[0] == '-' || s[0] == '+';
      var digits := if signed then s[1..] else s;
      if |digits| == 0 || !AllDigits(digits) then None
      else
        var v: int := if s[0] == '-' then -(DigitsValue(digits) as int) else DigitsValue(digits);
        if MinInt <= v <= MaxInt then Some(v) else None
  }

  /** A leading zero does not change the value of a digit string. */
  lemma {:induction false} DigitsValueLeadingZero(d: string)
    requires AllDigits(d)
    ensures AllDigits("0" + d) && DigitsValue("0" + d) == DigitsValue(d)
    decreases |d|
  {
    var z := "0" + d;
    assert AllDigits(z) by {
      forall i | 0 <= i < |z| ensures IsAsciiDigit(z[i]) {
        if i > 0 { assert z[i] == d[i - 1]; }
      }
    }
    if |d| > 0 {
      DigitsValueLeadingZero(d[..|d| - 1]);
      assert z[..|z| - 1] == "0" + d[..|d| - 1];
    }
  }

  /** Integer.parseInt ignores leading zeros: "007" reads as 7. */
  lemma ParseIntLeadingZero(d: string)
    requires |d| > 0 && AllDigits(d)
    ensures ParseInt("0" + d) == ParseInt(d)
  {
    DigitsValueLeadingZero(d);
  }

  /** Integer.parseInt accepts an explicit plus sign: "+5" reads as 5. */
  lemma ParseIntPlusSign(d: string)
    requires |d| > 0 && AllDigits(d)
    ensures ParseInt("+" + d) == ParseInt(d)
  {
    assert ("+" + d)[1..] == d;
  }

  /** Integer.parseInt accepts a negative zero, and a bare sign is rejected. */
  lemma ParseIntSignEdges()
    ensures ParseInt("-0") == Some(0)
    ensures ParseInt("-") == None && ParseInt("+") == None
  {
    assert "-0"[1..] == "0";
    assert DigitsValue("0") == 0 by {
      assert "0"[..0] == "";
    }
  }

  /** Reading back a rendered number gives the number. */
  lemma {:induction false} DigitsValueOfNatToString(n: nat)
    ensures AllDigits(NatToString(n))
    ensures DigitsValue(NatToString(n)) == n
    decreases n
  {
    if n >= 10 {
      DigitsValueOfNatToString(n / 10);
      var s := NatToString(n);
      assert s[..|s| - 1] == NatToString(n / 10);
    }
  }

  /** Integer.parseInt inverts the decimal rendering of every int. */
  lemma ParseIntRoundTrip(k: int)
    requires MinInt <= k <= MaxInt
    ensures ParseInt(IntToString(k)) == Some(k)
  {
    if k < 0 {
      ParseNegative(k);
    } else {
      ParseNonNegative(k);
    }
  }

  lemma ParseNonNegative(n: nat)
    requires n <= MaxInt
    ensures ParseInt(NatToString(n)) == Some(n)
  {
    DigitsValueOfNatToString(n);
    var s := NatToString(n);
    assert IsAsciiDigit(s[0]);
  }

  lemma ParseNegative(k: int)
    requires MinInt <= k < 0
    ensures ParseInt("-" + NatToString(-k)) == Some(k)
  {
    var digits := NatToString(-k);
    DigitsValueOfNatToString(-k);
    var s := "-" + digits;
    assert s[0] == '-' && s[1..] == digits;
    assert -(DigitsValue(digits) as int) == k;
  }

  /** The user-input validation pattern of each component (Helper.Regex): a groupId,
      an artifactId-like name, a version with optional classifiers. */
  predicate IsValidInput(c: Component, s: string) {
    match c
    case GroupId => IsGroupId(s)
    case ArtifactId => IsArtifactIdLike(s)
    case Version => IsVersionWithClassifiers(s)
  }

  /** What one input line amounts to. */
  datatype Step = SkipJar | Accept(value: string) | Reject(value: string) | Crash

  /** The value a line selects before validation: None for a skip, Failure for the
      exceptions of picking a proposal (a null proposal, an index out of range). */
  function Selected(proposals: seq<Str>, input: string): (r: Result<Option<string>, string>)
    ensures !EndsWith(input, "!") ==> r == Success(Some(input))
    ensures EndsWith(input, "!") && ParseInt(input[..|input| - 1]).None? ==> r == Success(Some(input))
    ensures EndsWith(input, "!") && ParseInt(input[..|input| - 1]) == Some(0) ==> r == Success(None)
    ensures r.Success? && r.value.Some? && r.value.value != input ==>
      EndsWith(input, "!") && (var k := ParseInt(input[..|input| - 1]).value;
                               1 <= k <= |proposals| && proposals[k - 1] == r.value)
    ensures r.Failure? <==>
      EndsWith(input, "!") && ParseInt(input[..|input| - 1]).Some? && ParseInt(input[..|input| - 1]) != Some(0)
      && (!(1 <= ParseInt(input[..|input| - 1]).value <= |proposals|) || None in proposals)
  {
    if EndsWith(input, "!") then
      match ParseInt(input[..|input| - 1])
      case None => Success(Some(input))
      case Some(k) =>
        if k == 0 then Success(None)
        else if None in proposals then Failure("NullPointerException")
        else if 1 <= k <= |proposals| then Success(proposals[k - 1])
        else Failure("IndexOutOfBoundsException")
    else Success(Some(input))
  }

  /** One iteration of the input loop of Analyzer.userSelectCandidate: the trimmed
      line is a skip ("0!"), a pick ("k!"), or a literal value; a picked or literal
      value is accepted only if it passes the component's validation pattern. */
  function Interpret(c: Component, proposals: seq<Str>, line: string): (r: Step)
    ensures r == SkipJar <==> Selected(proposals, Trim(line)) == Success(None)
    ensures r == Crash <==> Selected(proposals, Trim(line)).Failure?
    ensures r.Accept? <==> (Selected(proposals, Trim(line)).Success? && Selected(proposals, Trim(line)).value.Some?
                            && IsValidInput(c, Selected(proposals, Trim(line)).value.value))
    ensures r.Accept? || r.Reject? ==> Selected(proposals, Trim(line)) == Success(Some(r.value))
  {
    match Selected(proposals, Trim(line))
    case Failure(_) => Crash
    case Success(None) => SkipJar
    case Success(Some(v)) => if IsValidInput(c, v) then Accept(v) else Reject(v)
  }

  lemma TrimNoPadding(s: string)
    requires |s| > 0 && !IsTrimmable(s[0]) && !IsTrimmable(s[|s| - 1])
    ensures Trim(s) == s
  {
  }

  /** "0!" skips the jar whatever the proposals are. */
  lemma ZeroSkips(c: Component, proposals: seq<Str>)
    ensures Interpret(c, proposals, "0!") == SkipJar
  {
    TrimNoPadding("0!");
    assert "0!"[..1] == "0";
    ParseZero();
  }

  lemma ParseZero()
    ensures ParseInt("0") == Some(0)
  {
    assert DigitsValue("0") == 0 by {
      assert "0"[..0] == "";
    }
  }

  /** "k!" with 1 <= k <= the number of proposals picks the k-th proposal (counting
      from 1), provided no proposal is null. */
  lemma PickKth(c: Component, proposals: seq<Str>, k: nat)
    requires 1 <= k <= |proposals| && k <= MaxInt && None !in proposals
    ensures Interpret(c, proposals, NatToString(k) + "!") ==
      if IsValidInput(c, proposals[k - 1].value) then Accept(proposals[k - 1].value) else Reject(proposals[k - 1].value)
  {
    var line := NatToString(k) + "!";
    TrimNoPadding(line);
    assert line[..|line| - 1] == NatToString(k) == IntToString(k);
    ParseIntRoundTrip(k);
    SelectedPick(proposals, NatToString(k), k);
  }

  /** A line "k!" with k in range and no null proposal selects the k-th proposal. */
  lemma SelectedPick(proposals: seq<Str>, digits: string, k: int)
    requires ParseInt(digits) == Some(k)
    requires 1 <= k <= |proposals| && None !in proposals
    ensures Selected(proposals, digits + "!") == Success(proposals[k - 1])
  {
    assert (digits + "!")[..|digits + "!"| - 1] == digits;
  }

  /** How asking for one component ends. */
  datatype Answer = Answered(value: string, rest: seq<string>) | Skipped | Aborted

  /** What each input line amounts to for component c. */
  function Steps(c: Component, proposals: seq<Str>, lines: seq<string>): (r: seq<Step>)
    ensures |r| == |lines| && forall i :: 0 <= i < |lines| ==> r[i] == Interpret(c, proposals, lines[i])
  {
    seq(|lines|, i requires 0 <= i < |lines| => Interpret(c, proposals, lines[i]))
  }

  /** The loop reading from line `from` stops at line k with the given step: every
      line before it was rejected. */
  ghost predicate StopsAt(steps: seq<Step>, from: nat, k: int, step: Step) {
    from <= k < |steps| && steps[k] == step && forall i :: from <= i < k ==> steps[i].Reject?
  }

  /** The do-while loop for one component from line `from` on: lines are read until
      one is accepted or skips the jar; a rejected line is reported and the component
      is asked again. Aborted stands for an exception: a failed pick, or no input
      left. */
  function AskFrom(steps: seq<Step>, lines: seq<string>, from: nat): (r: Answer)
    requires |steps| == |lines| && from <= |lines|
    ensures r.Answered? ==> (exists k :: StopsAt(steps, from, k, Accept(r.value)) && r.rest == lines[k + 1..])
    ensures r.Skipped? <==> (exists k :: StopsAt(steps, from, k, SkipJar))
    ensures forall k, v :: StopsAt(steps, from, k, Accept(v)) ==> r == Answered(v, lines[k + 1..])
    decreases |lines| - from
  {
    if from == |lines| then Aborted
    else
      match steps[from]
      case SkipJar =>
        assert StopsAt(steps, from, from, SkipJar);
        Skipped
      case Crash =>
        assert forall k :: !StopsAt(steps, from, k, SkipJar) by {
          forall k | from < k < |steps| && steps[k] == SkipJar ensures !StopsAt(steps, from, k, SkipJar) {
            assert !steps[from].Reject?;
          }
        }
        Aborted
      case Accept(v) =>
        assert StopsAt(steps, from, from, Accept(v));
        assert forall k :: !StopsAt(steps, from, k, SkipJar) by {
          forall k | from < k < |steps| && steps[k] == SkipJar ensures !StopsAt(steps, from, k, SkipJar) {
            assert !steps[from].Reject?;
          }
        }
        Answered(v, lines[from + 1..])
      case Reject(_) =>
        var r := AskFrom(steps, lines, from + 1);
        assert r.Answered? ==> (exists k :: StopsAt(steps, from, k, Accept(r.value)) && r.rest == lines[k + 1..]) by {
          if r.Answered? {
            var k :| StopsAt(steps, from + 1, k, Accept(r.value)) && r.rest == lines[k + 1..];
            assert StopsAt(steps, from, k, Accept(r.value));
          }
        }
        assert r.Skipped? <==> (exists k :: StopsAt(steps, from, k, SkipJar)) by {
          if r.Skipped? {
            var k :| StopsAt(steps, from + 1, k, SkipJar);
            assert StopsAt(steps, from, k, SkipJar);
          }
          if exists k :: StopsAt(steps, from, k, SkipJar) {
            var k :| StopsAt(steps, from, k, SkipJar);
            assert StopsAt(steps, from + 1, k, SkipJar);
          }
        }
        assert forall k, v :: StopsAt(steps, from, k, Accept(v)) ==> StopsAt(steps, from + 1, k, Accept(v)) by {
          forall k, v | StopsAt(steps, from, k, Accept(v)) ensures StopsAt(steps, from + 1, k, Accept(v)) {
            assert k != from;
          }
        }
        r
  }

  /** Asking for component c: the value of the first accepted line, all lines before
      it rejected; Skipped exactly when a skip comes before any accepted line. */
  function Ask(c: Component, proposals: seq<Str>, lines: seq<string>): (r: Answer)
    ensures r.Answered? ==> IsValidInput(c, r.value)
    ensures r.Answered? ==> (exists k :: StopsAt(Steps(c, proposals, lines), 0, k, Accept(r.value)) && r.rest == lines[k + 1..])
    ensures r.Skipped? <==> (exists k :: StopsAt(Steps(c, proposals, lines), 0, k, SkipJar))
  {
    var steps := Steps(c, proposals, lines);
    var r := AskFrom(steps, lines, 0);
    assert r.Answered? ==> IsValidInput(c, r.value) by {
      if r.Answered? {
        var k :| StopsAt(steps, 0, k, Accept(r.value)) && r.rest == lines[k + 1..];
        assert Interpret(c, proposals, lines[k]) == Accept(r.value);
      }
    }
    r
  }

  /** How Analyzer.userSelectCandidate ends for one jar. */
  datatype Selection = Chosen(uid: Uid) | JarSkipped | Failed

  /** The proposal lists of the three components. */
  datatype ProposalLists = ProposalLists(groupIds: seq<Str>, artifactIds: seq<Str>, versions: seq<Str>)

  /** Analyzer.userSelectCandidate: groupId, artifactId and version are asked in this
      order, each reading on where the previous one stopped; a skip ends the jar at
      once, and the chosen coordinate is built from the three accepted values. */
  function UserSelect(p: ProposalLists, lines: seq<string>): (r: Selection)
    ensures r.Chosen? ==> (r.uid.classifier == Some("")
      && r.uid.groupId.Some? && IsValidInput(GroupId, r.uid.groupId.value)
      && r.uid.artifactId.Some? && IsValidInput(ArtifactId, r.uid.artifactId.value)
      && r.uid.version.Some? && IsValidInput(Version, r.uid.version.value))
    ensures Ask(GroupId, p.groupIds, lines).Skipped? ==> r == JarSkipped
    ensures Ask(GroupId, p.groupIds, lines).Aborted? ==> r == Failed
    ensures r.Chosen? <==> (Ask(GroupId, p.groupIds, lines).Answered?
      && Ask(ArtifactId, p.artifactIds, Ask(GroupId, p.groupIds, lines).rest).Answered?
      && Ask(Version, p.versions, Ask(ArtifactId, p.artifactIds, Ask(GroupId, p.groupIds, lines).rest).rest).Answered?)
    ensures r.Chosen? ==> r.uid == New(Some(Ask(GroupId, p.groupIds, lines).value),
      Some(Ask(ArtifactId, p.artifactIds, Ask(GroupId, p.groupIds, lines).rest).value),
      Some(Ask(Version, p.versions, Ask(ArtifactId, p.artifactIds, Ask(GroupId, p.groupIds, lines).rest).rest).value))
    ensures Ask(GroupId, p.groupIds, lines).Answered? ==>
      ((Ask(ArtifactId, p.artifactIds, Ask(GroupId, p.groupIds, lines).rest).Skipped? ==> r == JarSkipped)
      && (Ask(ArtifactId, p.artifactIds, Ask(GroupId, p.groupIds, lines).rest).Aborted? ==> r == Failed))
    ensures (Ask(GroupId, p.groupIds, lines).Answered?
      && Ask(ArtifactId, p.artifactIds, Ask(GroupId, p.groupIds, lines).rest).Answered?) ==>
      ((Ask(Version, p.versions, Ask(ArtifactId, p.artifactIds, Ask(GroupId, p.groupIds, lines).rest).rest).Skipped?
        ==> r == JarSkipped)
      && (Ask(Version, p.versions, Ask(ArtifactId, p.artifactIds, Ask(GroupId, p.groupIds, lines).rest).rest).Aborted?
        ==> r == Failed))
  {
    match Ask(GroupId, p.groupIds, lines)
    case Skipped => JarSkipped
    case Aborted => Failed
    case Answered(g, rest) =>
      match Ask(ArtifactId, p.artifactIds, rest)
      case Skipped => JarSkipped
      case Aborted => Failed
      case Answered(a, rest') =>
        match Ask(Version, p.versions, rest')
        case Skipped => JarSkipped
        case Aborted => Failed
        case Answered(v, _) => Chosen(New(Some(g), Some(a), Some(v)))
  }

  /** Three accepted lines, one per component, choose the coordinate built from their
      values, whatever input follows. */
  lemma ThreeAcceptedLinesChoose(p: ProposalLists, lg: string, la: string, lv: string, rest: seq<string>)
    ensures Interpret(GroupId, p.groupIds, lg).Accept?
         && Interpret(ArtifactId, p.artifactIds, la).Accept?
         && Interpret(Version, p.versions, lv).Accept?
         ==> UserSelect(p, [lg, la, lv] + rest)
             == Chosen(New(Some(Interpret(GroupId, p.groupIds, lg).value),
                           Some(Interpret(ArtifactId, p.artifactIds, la).value),
                           Some(Interpret(Version, p.versions, lv).value)))
  {
    var sg, sa, sv := Interpret(GroupId, p.groupIds, lg), Interpret(ArtifactId, p.artifactIds, la),
                      Interpret(Version, p.versions, lv);
    if sg.Accept? && sa.Accept? && sv.Accept? {
      Seqs.ThreeThenRest(lg, la, lv, rest);
      FirstLineAccepted(GroupId, p.groupIds, lg, [la] + ([lv] + rest), sg.value);
      FirstLineAccepted(ArtifactId, p.artifactIds, la, [lv] + rest, sa.value);
      FirstLineAccepted(Version, p.versions, lv, rest, sv.value);
    }
  }

  /** An accepted first line answers with its value and leaves the lines after it. */
  lemma FirstLineAccepted(c: Component, proposals: seq<Str>, l: string, rest: seq<string>, v: string)
    requires Interpret(c, proposals, l) == Accept(v)
    ensures Ask(c, proposals, [l] + rest) == Answered(v, rest)
  {
    var lines := [l] + rest;
    assert Steps(c, proposals, lines)[0] == Accept(v);
    assert lines[1..] == rest;
  }

  /** A groupId line that fails validation is reported and the groupId is asked
      again: the outcome is that of the input after it. */
  lemma RejectedGroupIdAskedAgain(p: ProposalLists, l: string, lines: seq<string>)
    requires Interpret(GroupId, p.groupIds, l).Reject?
    ensures UserSelect(p, [l] + lines) == UserSelect(p, lines)
  {
    RejectedLineSkipped(GroupId, p.groupIds, l, lines);
  }

  /** A rejected first line leaves the answer to the lines after it. */
  lemma RejectedLineSkipped(c: Component, proposals: seq<Str>, l: string, lines: seq<string>)
    requires Interpret(c, proposals, l).Reject?
    ensures Ask(c, proposals, [l] + lines) == Ask(c, proposals, lines)
  {
    var all := [l] + lines;
    var steps := Steps(c, proposals, all);
    assert steps[0].Reject?;
    assert AskFrom(steps, all, 0) == AskFrom(steps, all, 1);
    AskFromDrop(steps, all, 1);
    assert all[1..] == lines;
    assert steps[1..] == Steps(c, proposals, lines);
  }

  /** Reading from line `from` of the whole input is reading from line 0 of what is
      left of it. */
  lemma {:induction false} AskFromDrop(steps: seq<Step>, lines: seq<string>, from: nat)
    requires |steps| == |lines| && from <= |lines|
    ensures AskFrom(steps, lines, from) == AskFrom(steps[from..], lines[from..], 0)
    decreases |lines| - from
  {
    if from < |lines| {
      assert steps[from..][0] == steps[from];
      if steps[from].Reject? {
        AskFromDrop(steps, lines, from + 1);
        AskFromDrop(steps[from..], lines[from..], 1);
        assert steps[from..][1..] == steps[from + 1..];
        assert lines[from..][1..] == lines[from + 1..];
      } else if steps[from].Accept? {
        assert lines[from..][1..] == lines[from + 1..];
      }
    }
  }

  /** Entering "0!" for the groupId skips the jar: nothing after it is read and no
      coordinate results. */
  lemma SkipFirstStopsAsking(p: ProposalLists, rest: seq<string>)
    ensures UserSelect(p, ["0!"] + rest) == JarSkipped
  {
    ZeroSkips(GroupId, p.groupIds);
    assert (["0!"] + rest)[0] == "0!";
  }

  // ---------------------------------------------------------------- manifest fallback

  /** manual[k] is the first manifest the consumer parsed. */
  ghost predicate FirstPresent<M>(manual: seq<Option<M>>, k: int) {
    0 <= k < |manual| && manual[k].Some? && forall i :: 0 <= i < k ==> manual[i].None?
  }

  /** The manifest loop of Analyzer.readJarStream, from the manifest found so far: a
      manually parsed one only fills a gap. */
  function ManifestFallback<M>(found: Option<M>, manual: seq<Option<M>>): (r: Option<M>)
    ensures found.Some? ==> r == found
    ensures found.None? ==> (r.None? <==> forall i :: 0 <= i < |manual| ==> manual[i].None?)
    ensures found.None? && r.Some? ==> (exists k :: FirstPresent(manual, k) && manual[k] == r)
    decreases |manual|
  {
    if |manual| == 0 then found
    else
      var r := ManifestFallback(if found.None? && manual[0].Some? then manual[0] else found, manual[1..]);
      assert forall i :: 1 <= i < |manual| ==> manual[i] == manual[1..][i - 1];
      assert found.None? && manual[0].None? && r.Some? ==> (exists k :: FirstPresent(manual, k) && manual[k] == r) by {
        if found.None? && manual[0].None? && r.Some? {
          var k :| FirstPresent(manual[1..], k) && manual[1..][k] == r;
          assert FirstPresent(manual, k + 1) && manual[k + 1] == r;
        }
      }
      assert found.None? && manual[0].Some? ==> FirstPresent(manual, 0);
      r
  }

  /** Analyzer.readJarStream: the manifest JarInputStream parsed itself is preferred;
      without it, the first manifest the entry consumer parsed is used. */
  function ReadJarStreamManifest<M>(auto: Option<M>, manual: seq<Option<M>>): (r: Option<M>)
    ensures auto.Some? ==> r == auto
    ensures auto.None? ==> (r.None? <==> forall i :: 0 <= i < |manual| ==> manual[i].None?)
    ensures auto.None? && r.Some? ==> (exists k :: FirstPresent(manual, k) && manual[k] == r)
  {
    ManifestFallback(auto, manual)
  }
}
