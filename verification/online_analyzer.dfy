/** OnlineAnalyzer: turning the ranked offline candidates into concrete coordinates
    and comparing the local jar with the jars a remote repository holds for them. The
    remote repository is a parameter: `resolve` answers a download of a coordinate
    (None when nothing is found) and `listVersions` answers a version listing. */
module OnlineAnalyzer {
  import opened Wrappers
  import opened Seqs
  import opened MavenUid
  import opened ValueCandidate
  import opened Util

  datatype OnlineMatch = ExactSha | ExactClassesSha | SupersetClassnames | NoMatch | NotFound

  /** Matches that count as "the same jar". */
  predicate IsConsideredIdentical(m: OnlineMatch) {
    m == ExactSha || m == ExactClassesSha
  }

  /** The outcome of checking one fully qualified coordinate. */
  datatype UidCheck = UidCheck(fullUid: Uid, matchType: OnlineMatch, url: Option<string>)

  /** A downloaded jar: where it came from and its hashes. */
  datatype OnlineJar = OnlineJar(url: string, hashes: JarHashes)

  /** Minimum score sum a candidate needs to be searched online. */
  const OnlineSearchThreshold: int := 1

  /** How many candidates of each component are combined. */
  function ConfigCount(c: Component): int {
    match c
    case GroupId => 2
    case ArtifactId => 2
    case Version => 2
  }

  /** The product of the per-component counts: the most coordinates ever checked. */
  const MaxCount: int := ConfigCount(GroupId) * ConfigCount(ArtifactId) * ConfigCount(Version)

  const ScoreCheck: Option<Candidate -> bool> := Some((c: Candidate) => c.scoreSum >= OnlineSearchThreshold)

  /** Util.subList(candidates, configured count, score check): the best candidates of
      one component that pass the threshold. */
  function Shortlist(cs: seq<Candidate>, c: Component): (r: seq<Candidate>)
    ensures |r| <= ConfigCount(c)
    ensures forall i :: 0 <= i < |r| ==> r[i].scoreSum >= OnlineSearchThreshold && r[i] in cs
    ensures |r| == Min(ConfigCount(c), |Filter(cs, ScoreCheck)|)
    ensures r == Filter(cs, ScoreCheck)[..|r|]
  {
    var passing := Filter(cs, ScoreCheck);
    FilterAllPass(cs, ScoreCheck);
    passing[..Min(Limit(ConfigCount(c)), |passing|)]
  }

  /** A coordinate together with the score sums of its components. */
  datatype Scored = Scored(uid: Uid, scores: map<Component, int>)

  function Keys(m: seq<Scored>): set<Uid> {
    set i | 0 <= i < |m| :: m[i].uid
  }

  /** A LinkedHashMap holds each key once. */
  ghost predicate DistinctKeys(m: seq<Scored>) {
    forall i, j :: 0 <= i < j < |m| ==> m[i].uid != m[j].uid
  }

  function IndexOf(m: seq<Scored>, u: Uid): (k: int)
    ensures -1 <= k < |m|
    ensures k >= 0 ==> m[k].uid == u
    ensures k < 0 ==> forall i :: 0 <= i < |m| ==> m[i].uid != u
    decreases |m|
  {
    if |m| == 0 then -1
    else if m[|m| - 1].uid == u then |m| - 1
    else IndexOf(m[..|m| - 1], u)
  }

  /** LinkedHashMap.put: a new key goes to the end; an existing key keeps its
      position and gets the new value. */
  function Put(m: seq<Scored>, e: Scored): (r: seq<Scored>)
    requires DistinctKeys(m)
    ensures DistinctKeys(r)
    ensures Keys(r) == Keys(m) + {e.uid}
    ensures |r| == |m| + (if e.uid in Keys(m) then 0 else 1)
    ensures forall i :: 0 <= i < |m| ==> r[i] == (if m[i].uid == e.uid then e else m[i])
    ensures e.uid !in Keys(m) ==> r[|m|] == e
    ensures forall x :: x in r ==> x in m || x == e
  {
    var k := IndexOf(m, e.uid);
    if k < 0 then
      assert e.uid !in Keys(m);
      var r := m + [e];
      assert Keys(r) == Keys(m) + {e.uid} by {
        assert forall i :: 0 <= i < |m| ==> r[i] == m[i];
        assert r[|m|] == e;
      }
      r
    else
      assert m[k].uid in Keys(m);
      var r := m[k := e];
      assert Keys(r) == Keys(m) + {e.uid} by {
        forall u | u in Keys(m) ensures u in Keys(r) {
          var i :| 0 <= i < |m| && m[i].uid == u;
          assert r[i].uid == u;
        }
      }
      r
  }

  /** put for every entry of es, in order. */
  function PutAll(m: seq<Scored>, es: seq<Scored>): (r: seq<Scored>)
    requires DistinctKeys(m)
    ensures DistinctKeys(r)
    ensures Keys(r) == Keys(m) + Keys(es)
    ensures |m| <= |r| <= |m| + |es|
    ensures forall i :: 0 <= i < |m| ==> r[i].uid == m[i].uid
    decreases |es|
  {
    if |es| == 0 then m
    else
      var m' := Put(m, es[0]);
      assert forall i :: 0 <= i < |m| ==> m'[i].uid == m[i].uid;
      var r := PutAll(m', es[1..]);
      KeysCons(es);
      assert Keys(r) == Keys(m) + Keys(es) by {
        assert Keys(r) == Keys(m') + Keys(es[1..]);
        assert Keys(m') == Keys(m) + {es[0].uid};
      }
      r
  }

  /** Every entry of the result was already in the map or is one of the entries put. */
  lemma {:induction false} PutAllFrom(m: seq<Scored>, es: seq<Scored>)
    requires DistinctKeys(m)
    ensures forall x :: x in PutAll(m, es) ==> x in m || x in es
    decreases |es|
  {
    if |es| > 0 {
      var m' := Put(m, es[0]);
      PutAllFrom(m', es[1..]);
      assert PutAll(m, es) == PutAll(m', es[1..]);
      assert es[0] in es;
      assert forall x :: x in es[1..] ==> x in es;
    }
  }

  lemma KeysCons(es: seq<Scored>)
    requires |es| > 0
    ensures Keys(es) == {es[0].uid} + Keys(es[1..])
  {
    forall u | u in Keys(es) ensures u in {es[0].uid} + Keys(es[1..]) {
      var i :| 0 <= i < |es| && es[i].uid == u;
      if i > 0 { assert es[1..][i - 1].uid == u; }
    }
    forall u | u in Keys(es[1..]) ensures u in Keys(es) {
      var i :| 0 <= i < |es[1..]| && es[1..][i].uid == u;
      assert es[i + 1].uid == u;
    }
  }

  /** The map entry for a group, an artifact and, when any version passed, a version. */
  function Entry(g: Candidate, a: Candidate, v: Option<Candidate>): Scored {
    match v
    case None =>
      Scored(New(g.value, a.value, None), map[GroupId := g.scoreSum, ArtifactId := a.scoreSum])
    case Some(ver) =>
      Scored(New(g.value, a.value, ver.value),
             map[GroupId := g.scoreSum, ArtifactId := a.scoreSum, Version := ver.scoreSum])
  }

  /** The entries for one group and one artifact. */
  function Cell(g: Candidate, a: Candidate, vs: seq<Candidate>): seq<Scored> {
    if |vs| == 0 then [Entry(g, a, None)]
    else seq(|vs|, k requires 0 <= k < |vs| => Entry(g, a, Some(vs[k])))
  }

  function Row(g: Candidate, as_: seq<Candidate>, vs: seq<Candidate>): seq<Scored>
    decreases |as_|
  {
    if |as_| == 0 then [] else Cell(g, as_[0], vs) + Row(g, as_[1..], vs)
  }

  /** Reference definition: every combination, groups outermost and versions
      innermost, each list in rank order. */
  function Combinations(gs: seq<Candidate>, as_: seq<Candidate>, vs: seq<Candidate>): seq<Scored>
    decreases |gs|
  {
    if |gs| == 0 then [] else Row(gs[0], as_, vs) + Combinations(gs[1..], as_, vs)
  }

  /** e is the entry of some group of gs and artifact of as_ (see CellEntries). */
  ghost predicate IsEntryOf(e: Scored, gs: seq<Candidate>, as_: seq<Candidate>, vs: seq<Candidate>) {
    exists i, j :: 0 <= i < |gs| && 0 <= j < |as_| && e in Cell(gs[i], as_[j], vs)
  }

  /** The entries for a group and an artifact: the one without a version when no
      version passed, otherwise one per version. */
  lemma {:induction false} CellEntries(g: Candidate, a: Candidate, vs: seq<Candidate>)
    ensures forall e :: e in Cell(g, a, vs) <==>
      (if |vs| == 0 then e == Entry(g, a, None) else exists k :: 0 <= k < |vs| && e == Entry(g, a, Some(vs[k])))
    ensures |Cell(g, a, vs)| == if |vs| == 0 then 1 else |vs|
  {
    if |vs| > 0 {
      var c := Cell(g, a, vs);
      forall e | e in c ensures exists k :: 0 <= k < |vs| && e == Entry(g, a, Some(vs[k])) {
        var k :| 0 <= k < |c| && c[k] == e;
        assert e == Entry(g, a, Some(vs[k]));
      }
      forall k | 0 <= k < |vs| ensures Entry(g, a, Some(vs[k])) in c {
        assert c[k] == Entry(g, a, Some(vs[k]));
      }
    }
  }

  lemma {:induction false} RowEntries(g: Candidate, as_: seq<Candidate>, vs: seq<Candidate>)
    ensures forall e :: e in Row(g, as_, vs) <==> exists j :: 0 <= j < |as_| && e in Cell(g, as_[j], vs)
    decreases |as_|
  {
    if |as_| > 0 {
      RowEntries(g, as_[1..], vs);
      forall e | e in Row(g, as_, vs) ensures exists j :: 0 <= j < |as_| && e in Cell(g, as_[j], vs) {
        if e !in Cell(g, as_[0], vs) {
          assert e in Row(g, as_[1..], vs);
          var j :| 0 <= j < |as_[1..]| && e in Cell(g, as_[1..][j], vs);
          assert as_[1..][j] == as_[j + 1];
        }
      }
      forall e, j | 0 <= j < |as_| && e in Cell(g, as_[j], vs) ensures e in Row(g, as_, vs) {
        if j > 0 {
          assert as_[1..][j - 1] == as_[j];
        }
      }
    }
  }

  lemma {:induction false} RowsEntries(gs: seq<Candidate>, as_: seq<Candidate>, vs: seq<Candidate>)
    ensures forall e :: e in Combinations(gs, as_, vs) <==> exists i :: 0 <= i < |gs| && e in Row(gs[i], as_, vs)
    decreases |gs|
  {
    if |gs| > 0 {
      RowsEntries(gs[1..], as_, vs);
      assert Combinations(gs, as_, vs) == Row(gs[0], as_, vs) + Combinations(gs[1..], as_, vs);
      forall e
        ensures e in Combinations(gs, as_, vs) <==> exists i :: 0 <= i < |gs| && e in Row(gs[i], as_, vs)
      {
        InSomeRowCons(e, gs, as_, vs);
      }
    }
  }

  /** Lying in the row of some group splits into the first group's row or a later one. */
  lemma InSomeRowCons(e: Scored, gs: seq<Candidate>, as_: seq<Candidate>, vs: seq<Candidate>)
    requires |gs| > 0
    ensures (exists i :: 0 <= i < |gs| && e in Row(gs[i], as_, vs)) <==>
      (e in Row(gs[0], as_, vs) || exists i :: 0 <= i < |gs[1..]| && e in Row(gs[1..][i], as_, vs))
  {
    if i :| 0 <= i < |gs| && e in Row(gs[i], as_, vs) {
      if i > 0 {
        assert gs[1..][i - 1] == gs[i];
      }
    }
    if i :| 0 <= i < |gs[1..]| && e in Row(gs[1..][i], as_, vs) {
      assert gs[1..][i] == gs[i + 1];
    }
  }

  /** The combinations are exactly the entries of every group with every artifact. */
  lemma CombinationEntries(gs: seq<Candidate>, as_: seq<Candidate>, vs: seq<Candidate>)
    ensures forall e :: e in Combinations(gs, as_, vs) <==> IsEntryOf(e, gs, as_, vs)
  {
    RowsEntries(gs, as_, vs);
    forall i | 0 <= i < |gs| {
      RowEntries(gs[i], as_, vs);
    }
  }

  lemma {:induction false} RowLength(g: Candidate, as_: seq<Candidate>, vs: seq<Candidate>)
    ensures |Row(g, as_, vs)| == |as_| * (if |vs| == 0 then 1 else |vs|)
    decreases |as_|
  {
    if |as_| > 0 {
      RowLength(g, as_[1..], vs);
      CellEntries(g, as_[0], vs);
    }
  }

  /** One entry per group, artifact and (when any) version. */
  lemma {:induction false} CombinationsLength(gs: seq<Candidate>, as_: seq<Candidate>, vs: seq<Candidate>)
    ensures |Combinations(gs, as_, vs)| == |gs| * (|as_| * (if |vs| == 0 then 1 else |vs|))
    decreases |gs|
  {
    if |gs| > 0 {
      CombinationsLength(gs[1..], as_, vs);
      RowLength(gs[0], as_, vs);
      var w := |as_| * (if |vs| == 0 then 1 else |vs|);
      assert |gs| * w == w + (|gs| - 1) * w;
    }
  }

  // ---------------------------------------------------------------- order of the combinations

  /** The number of entries per group and artifact: one per version, or one without
      a version. */
  function Width(vs: seq<Candidate>): nat {
    if |vs| == 0 then 1 else |vs|
  }

  function VersionAt(vs: seq<Candidate>, k: nat): Option<Candidate>
    requires k < Width(vs)
  {
    if |vs| == 0 then None else Some(vs[k])
  }

  /** The place of the entry for the i-th group, j-th artifact and k-th version. */
  function Position(i: nat, j: nat, k: nat, as_: seq<Candidate>, vs: seq<Candidate>): nat {
    (i * |as_| + j) * Width(vs) + k
  }

  lemma CellAt(g: Candidate, a: Candidate, vs: seq<Candidate>, k: nat)
    requires k < Width(vs)
    ensures |Cell(g, a, vs)| == Width(vs) && Cell(g, a, vs)[k] == Entry(g, a, VersionAt(vs, k))
  {
  }

  lemma {:induction false} RowAt(g: Candidate, as_: seq<Candidate>, vs: seq<Candidate>, j: nat, k: nat)
    requires j < |as_| && k < Width(vs)
    ensures |Row(g, as_, vs)| == |as_| * Width(vs)
    ensures j * Width(vs) + k < |Row(g, as_, vs)|
    ensures Row(g, as_, vs)[j * Width(vs) + k] == Entry(g, as_[j], VersionAt(vs, k))
    decreases j
  {
    RowLength(g, as_, vs);
    LastInRow(j, |as_|, Width(vs), k);
    if j > 0 {
      RowAt(g, as_[1..], vs, j - 1, k);
      assert as_[1..][j - 1] == as_[j];
      RowInLaterCell(g, as_, vs, (j - 1) * Width(vs) + k);
      ShiftByWidth(j, Width(vs), k);
    } else {
      CellAt(g, as_[0], vs, k);
      RowCons(g, as_, vs);
      IndexAppend(Cell(g, as_[0], vs), Row(g, as_[1..], vs), k);
    }
  }

  /** An entry found in the row of the later artifacts sits one cell further on. */
  lemma RowInLaterCell(g: Candidate, as_: seq<Candidate>, vs: seq<Candidate>, q: nat)
    requires 0 < |as_| && q < |Row(g, as_[1..], vs)|
    ensures Width(vs) + q < |Row(g, as_, vs)| && Row(g, as_, vs)[Width(vs) + q] == Row(g, as_[1..], vs)[q]
  {
    CellAt(g, as_[0], vs, 0);
    RowCons(g, as_, vs);
    IndexAppendRight(Cell(g, as_[0], vs), Row(g, as_[1..], vs), q);
  }

  lemma ShiftByWidth(j: nat, w: nat, k: nat)
    requires j > 0
    ensures j * w + k == w + ((j - 1) * w + k)
  {
  }

  lemma LastInRow(j: nat, n: nat, w: nat, k: nat)
    requires j < n && k < w
    ensures j * w + k < n * w
  {
    MulLe(j + 1, n, w);
  }

  lemma MulLe(a: int, b: int, c: int)
    requires a <= b && c >= 0
    ensures a * c <= b * c
  {
  }

  /** The entry for the i-th group, the j-th artifact and the k-th version sits at
      place (i * |as_| + j) * Width(vs) + k: groups outermost, then artifacts, then
      versions, each list in rank order. */
  lemma {:induction false} CombinationAt(gs: seq<Candidate>, as_: seq<Candidate>, vs: seq<Candidate>,
                                         i: nat, j: nat, k: nat)
    requires i < |gs| && j < |as_| && k < Width(vs)
    ensures Position(i, j, k, as_, vs) < |Combinations(gs, as_, vs)|
    ensures Combinations(gs, as_, vs)[Position(i, j, k, as_, vs)] == Entry(gs[i], as_[j], VersionAt(vs, k))
    decreases i
  {
    if i > 0 {
      CombinationAt(gs[1..], as_, vs, i - 1, j, k);
      assert gs[1..][i - 1] == gs[i];
      CombinationInLaterRow(gs, as_, vs, i, j, k);
    } else {
      CombinationInFirstRow(gs, as_, vs, j, k);
    }
  }

  /** An entry found in the combinations of the later groups sits one row further on. */
  lemma CombinationInLaterRow(gs: seq<Candidate>, as_: seq<Candidate>, vs: seq<Candidate>, i: nat, j: nat, k: nat)
    requires 0 < i < |gs| && j < |as_| && k < Width(vs)
    requires Position(i - 1, j, k, as_, vs) < |Combinations(gs[1..], as_, vs)|
    requires Combinations(gs[1..], as_, vs)[Position(i - 1, j, k, as_, vs)] == Entry(gs[i], as_[j], VersionAt(vs, k))
    ensures Position(i, j, k, as_, vs) < |Combinations(gs, as_, vs)|
    ensures Combinations(gs, as_, vs)[Position(i, j, k, as_, vs)] == Entry(gs[i], as_[j], VersionAt(vs, k))
  {
    var row, rest := Row(gs[0], as_, vs), Combinations(gs[1..], as_, vs);
    CombinationsCons(gs, as_, vs);
    RowLength(gs[0], as_, vs);
    var q := Position(i - 1, j, k, as_, vs);
    PositionStep(i, j, k, as_, vs);
    assert Position(i, j, k, as_, vs) == |row| + q;
    IndexAppendRight(row, rest, q);
  }

  lemma CombinationInFirstRow(gs: seq<Candidate>, as_: seq<Candidate>, vs: seq<Candidate>, j: nat, k: nat)
    requires 0 < |gs| && j < |as_| && k < Width(vs)
    ensures Position(0, j, k, as_, vs) < |Combinations(gs, as_, vs)|
    ensures Combinations(gs, as_, vs)[Position(0, j, k, as_, vs)] == Entry(gs[0], as_[j], VersionAt(vs, k))
  {
    var row, rest := Row(gs[0], as_, vs), Combinations(gs[1..], as_, vs);
    CombinationsCons(gs, as_, vs);
    RowAt(gs[0], as_, vs, j, k);
    PositionFirst(j, k, as_, vs);
    IndexAppend(row, rest, Position(0, j, k, as_, vs));
  }

  lemma RowCons(g: Candidate, as_: seq<Candidate>, vs: seq<Candidate>)
    requires |as_| > 0
    ensures Row(g, as_, vs) == Cell(g, as_[0], vs) + Row(g, as_[1..], vs)
  {
  }

  lemma CombinationsCons(gs: seq<Candidate>, as_: seq<Candidate>, vs: seq<Candidate>)
    requires |gs| > 0
    ensures Combinations(gs, as_, vs) == Row(gs[0], as_, vs) + Combinations(gs[1..], as_, vs)
  {
  }

  lemma PositionFirst(j: nat, k: nat, as_: seq<Candidate>, vs: seq<Candidate>)
    ensures Position(0, j, k, as_, vs) == j * Width(vs) + k
  {
  }

  lemma PositionStep(i: nat, j: nat, k: nat, as_: seq<Candidate>, vs: seq<Candidate>)
    requires i > 0
    ensures Position(i, j, k, as_, vs) == |as_| * Width(vs) + Position(i - 1, j, k, as_, vs)
  {
    var n, w := |as_|, Width(vs);
    assert (i * n + j) * w == ((i - 1) * n + j) * w + n * w;
  }

  /** Lexicographically smaller (group, artifact, version) ranks come first. */
  lemma PositionOrder(i: nat, j: nat, k: nat, i': nat, j': nat, k': nat, as_: seq<Candidate>, vs: seq<Candidate>)
    requires j < |as_| && j' < |as_| && k < Width(vs) && k' < Width(vs)
    requires i < i' || (i == i' && j < j') || (i == i' && j == j' && k < k')
    ensures Position(i, j, k, as_, vs) < Position(i', j', k', as_, vs)
  {
    var n, w := |as_|, Width(vs);
    if i < i' || j < j' {
      RowBefore(i, j, i', j', n);
      PlaceBefore(i * n + j, i' * n + j', k, k', w);
    }
  }

  lemma RowBefore(i: nat, j: nat, i': nat, j': nat, n: nat)
    requires j < n && j' < n
    requires i < i' || (i == i' && j < j')
    ensures i * n + j < i' * n + j'
  {
    if i < i' {
      MulLe(i + 1, i', n);
    }
  }

  lemma PlaceBefore(x: nat, y: nat, k: nat, k': nat, w: nat)
    requires x < y && k < w
    ensures x * w + k < y * w + k'
  {
    MulLe(x + 1, y, w);
  }

  // ---------------------------------------------------------------- distinct coordinates

  /** Each value appears once among the candidates, as in a ranked pool. */
  predicate DistinctCandidateValues(cs: seq<Candidate>) {
    forall i, j :: 0 <= i < j < |cs| ==> cs[i].value != cs[j].value
  }

  lemma {:induction false} FilterKeepsDistinct(cs: seq<Candidate>, f: Option<Candidate -> bool>)
    requires DistinctCandidateValues(cs)
    ensures DistinctCandidateValues(Filter(cs, f))
    decreases |cs|
  {
    if |cs| > 0 {
      var init := cs[..|cs| - 1];
      assert DistinctCandidateValues(init);
      FilterKeepsDistinct(init, f);
      FilterAllPass(init, f);
      var fi := Filter(init, f);
      forall i | 0 <= i < |fi| ensures fi[i].value != cs[|cs| - 1].value {
        assert fi[i] in init;
        var m :| 0 <= m < |init| && init[m] == fi[i];
      }
    }
  }

  lemma ShortlistDistinct(cs: seq<Candidate>, c: Component)
    requires DistinctCandidateValues(cs)
    ensures DistinctCandidateValues(Shortlist(cs, c))
  {
    FilterKeepsDistinct(cs, ScoreCheck);
  }

  /** Every entry of a cell carries the cell's group and artifact. */
  lemma CellUids(g: Candidate, a: Candidate, vs: seq<Candidate>)
    ensures forall e :: e in Cell(g, a, vs) ==> e.uid.groupId == g.value && e.uid.artifactId == a.value
  {
    CellEntries(g, a, vs);
  }

  lemma CellDistinct(g: Candidate, a: Candidate, vs: seq<Candidate>)
    requires DistinctCandidateValues(vs)
    ensures DistinctKeys(Cell(g, a, vs))
  {
    if |vs| > 0 {
      var c := Cell(g, a, vs);
      forall i, j | 0 <= i < j < |c| ensures c[i].uid != c[j].uid {
        assert c[i].uid.version == vs[i].value && c[j].uid.version == vs[j].value;
      }
    }
  }

  lemma DistinctKeysAppend(a: seq<Scored>, b: seq<Scored>)
    requires DistinctKeys(a) && DistinctKeys(b)
    requires forall x, y :: x in a && y in b ==> x.uid != y.uid
    ensures DistinctKeys(a + b)
  {
    var ab := a + b;
    forall i, j | 0 <= i < j < |ab| ensures ab[i].uid != ab[j].uid {
      if j < |a| {
        assert ab[i] == a[i] && ab[j] == a[j];
      } else if i >= |a| {
        assert ab[i] == b[i - |a|] && ab[j] == b[j - |a|];
      } else {
        assert ab[i] in a && ab[j] in b;
      }
    }
  }

  /** Every entry of a row carries the row's group and one of the artifacts. */
  lemma RowUids(g: Candidate, as_: seq<Candidate>, vs: seq<Candidate>, e: Scored)
    requires e in Row(g, as_, vs)
    ensures e.uid.groupId == g.value
    ensures exists j :: 0 <= j < |as_| && e.uid.artifactId == as_[j].value
  {
    RowEntries(g, as_, vs);
    var j :| 0 <= j < |as_| && e in Cell(g, as_[j], vs);
    CellUids(g, as_[j], vs);
  }

  lemma {:induction false} RowDistinct(g: Candidate, as_: seq<Candidate>, vs: seq<Candidate>)
    requires DistinctCandidateValues(as_) && DistinctCandidateValues(vs)
    ensures DistinctKeys(Row(g, as_, vs))
    decreases |as_|
  {
    if |as_| > 0 {
      var c, rest := Cell(g, as_[0], vs), Row(g, as_[1..], vs);
      CellDistinct(g, as_[0], vs);
      assert DistinctCandidateValues(as_[1..]);
      RowDistinct(g, as_[1..], vs);
      CellUids(g, as_[0], vs);
      forall x, y | x in c && y in rest ensures x.uid != y.uid {
        RowUids(g, as_[1..], vs, y);
        var j :| 0 <= j < |as_[1..]| && y.uid.artifactId == as_[1..][j].value;
        assert as_[1..][j] == as_[j + 1];
      }
      DistinctKeysAppend(c, rest);
    }
  }

  /** Every combination carries one of the groups. */
  lemma CombinationUids(gs: seq<Candidate>, as_: seq<Candidate>, vs: seq<Candidate>, e: Scored)
    requires e in Combinations(gs, as_, vs)
    ensures exists i :: 0 <= i < |gs| && e.uid.groupId == gs[i].value
  {
    RowsEntries(gs, as_, vs);
    var i :| 0 <= i < |gs| && e in Row(gs[i], as_, vs);
    RowUids(gs[i], as_, vs, e);
  }

  /** Distinct values in each list give distinct coordinates. */
  lemma {:induction false} CombinationsDistinct(gs: seq<Candidate>, as_: seq<Candidate>, vs: seq<Candidate>)
    requires DistinctCandidateValues(gs) && DistinctCandidateValues(as_) && DistinctCandidateValues(vs)
    ensures DistinctKeys(Combinations(gs, as_, vs))
    decreases |gs|
  {
    if |gs| > 0 {
      var row, rest := Row(gs[0], as_, vs), Combinations(gs[1..], as_, vs);
      RowDistinct(gs[0], as_, vs);
      assert DistinctCandidateValues(gs[1..]);
      CombinationsDistinct(gs[1..], as_, vs);
      forall x, y | x in row && y in rest ensures x.uid != y.uid {
        RowUids(gs[0], as_, vs, x);
        CombinationUids(gs[1..], as_, vs, y);
        var i :| 0 <= i < |gs[1..]| && y.uid.groupId == gs[1..][i].value;
        assert gs[1..][i] == gs[i + 1];
      }
      DistinctKeysAppend(row, rest);
    }
  }

  /** Putting entries with fresh, distinct keys appends them in order. */
  lemma {:induction false} PutAllFresh(m: seq<Scored>, es: seq<Scored>)
    requires DistinctKeys(m + es)
    ensures DistinctKeys(m)
    ensures PutAll(m, es) == m + es
    decreases |es|
  {
    assert forall i :: 0 <= i < |m| ==> (m + es)[i] == m[i];
    if |es| == 0 {
      assert m + es == m;
    } else {
      assert es[0].uid !in Keys(m) by {
        forall i | 0 <= i < |m| ensures m[i].uid != es[0].uid {
          assert (m + es)[i] == m[i] && (m + es)[|m|] == es[0];
        }
      }
      var m' := Put(m, es[0]);
      assert m' == m + [es[0]];
      assert m' + es[1..] == m + es;
      PutAllFresh(m', es[1..]);
    }
  }

  /** OnlineAnalyzer.selectCandidatesToCheck: the coordinates to look up, in order,
      with the score sums of their components. Up to two candidates per component that
      reach the threshold are combined; when no version qualifies the coordinates
      carry no version. */
  function SelectCandidatesToCheck(groups: seq<Candidate>, artifacts: seq<Candidate>, versions: seq<Candidate>)
    : (r: seq<Scored>)
    ensures |r| <= MaxCount
    ensures DistinctKeys(r)
    ensures forall i :: 0 <= i < |r| ==>
      IsEntryOf(r[i], Shortlist(groups, GroupId), Shortlist(artifacts, ArtifactId), Shortlist(versions, Version))
    ensures forall e :: (IsEntryOf(e, Shortlist(groups, GroupId), Shortlist(artifacts, ArtifactId), Shortlist(versions, Version))
                         ==> e.uid in Keys(r))
    ensures |Shortlist(groups, GroupId)| > 0 && |Shortlist(artifacts, ArtifactId)| > 0 ==>
      (var vs := Shortlist(versions, Version);
       |r| > 0 && r[0].uid == New(Shortlist(groups, GroupId)[0].value, Shortlist(artifacts, ArtifactId)[0].value,
                                  if |vs| == 0 then None else vs[0].value))
  {
    var gs := Shortlist(groups, GroupId);
    var as_ := Shortlist(artifacts, ArtifactId);
    var vs := Shortlist(versions, Version);
    SelectFacts(gs, as_, vs);
    PutAll([], Combinations(gs, as_, vs))
  }

  /** When each list holds every value once, as ranked pools do, no coordinate repeats
      and the coordinates to check are exactly the combinations of the shortlists, in
      their order (see CombinationAt and PositionOrder). */
  lemma SelectIsCombinations(groups: seq<Candidate>, artifacts: seq<Candidate>, versions: seq<Candidate>)
    requires DistinctCandidateValues(groups) && DistinctCandidateValues(artifacts)
    requires DistinctCandidateValues(versions)
    ensures SelectCandidatesToCheck(groups, artifacts, versions)
      == Combinations(Shortlist(groups, GroupId), Shortlist(artifacts, ArtifactId), Shortlist(versions, Version))
  {
    var gs, as_, vs := Shortlist(groups, GroupId), Shortlist(artifacts, ArtifactId), Shortlist(versions, Version);
    ShortlistDistinct(groups, GroupId);
    ShortlistDistinct(artifacts, ArtifactId);
    ShortlistDistinct(versions, Version);
    CombinationsDistinct(gs, as_, vs);
    var es := Combinations(gs, as_, vs);
    assert [] + es == es;
    PutAllFresh([], es);
  }

  lemma SelectFacts(gs: seq<Candidate>, as_: seq<Candidate>, vs: seq<Candidate>)
    requires |gs| <= 2 && |as_| <= 2 && |vs| <= 2
    ensures |PutAll([], Combinations(gs, as_, vs))| <= MaxCount
    ensures forall i :: 0 <= i < |PutAll([], Combinations(gs, as_, vs))| ==>
      IsEntryOf(PutAll([], Combinations(gs, as_, vs))[i], gs, as_, vs)
    ensures forall e :: IsEntryOf(e, gs, as_, vs) ==> e.uid in Keys(PutAll([], Combinations(gs, as_, vs)))
    ensures |gs| > 0 && |as_| > 0 ==>
      |PutAll([], Combinations(gs, as_, vs))| > 0
      && PutAll([], Combinations(gs, as_, vs))[0].uid == New(gs[0].value, as_[0].value, if |vs| == 0 then None else vs[0].value)
  {
    var es := Combinations(gs, as_, vs);
    var r := PutAll([], es);
    PutAllFrom([], es);
    CombinationEntries(gs, as_, vs);
    SelectBound(gs, as_, vs);
    forall e | IsEntryOf(e, gs, as_, vs) ensures e.uid in Keys(r) {
      InKeys(es, e);
    }
    if |gs| > 0 && |as_| > 0 {
      FirstCombination(gs, as_, vs);
      PutAllFirst(es);
    }
  }

  lemma SelectBound(gs: seq<Candidate>, as_: seq<Candidate>, vs: seq<Candidate>)
    requires |gs| <= 2 && |as_| <= 2 && |vs| <= 2
    ensures |Combinations(gs, as_, vs)| <= MaxCount
  {
    CombinationsLength(gs, as_, vs);
    var n := if |vs| == 0 then 1 else |vs|;
    assert |as_| * n <= 2 * n <= 4;
    assert |gs| * (|as_| * n) <= 2 * 4;
  }

  /** The first combination is the best group with the best artifact and version. */
  lemma FirstCombination(gs: seq<Candidate>, as_: seq<Candidate>, vs: seq<Candidate>)
    requires |gs| > 0 && |as_| > 0
    ensures |Combinations(gs, as_, vs)| > 0
    ensures Combinations(gs, as_, vs)[0].uid == New(gs[0].value, as_[0].value, if |vs| == 0 then None else vs[0].value)
  {
    CellEntries(gs[0], as_[0], vs);
    var c := Cell(gs[0], as_[0], vs);
    assert Row(gs[0], as_, vs) == c + Row(gs[0], as_[1..], vs);
    assert Combinations(gs, as_, vs)[0] == c[0];
  }

  lemma InKeys(es: seq<Scored>, e: Scored)
    requires e in es
    ensures e.uid in Keys(es)
  {
    var i :| 0 <= i < |es| && es[i] == e;
  }

  /** The first key put stays the first key. */
  lemma PutAllFirst(es: seq<Scored>)
    requires |es| > 0
    ensures |PutAll([], es)| > 0 && PutAll([], es)[0].uid == es[0].uid
  {
    var m := Put([], es[0]);
    assert m[0].uid == es[0].uid;
    assert PutAll([], es) == PutAll(m, es[1..]);
  }

  /** OnlineAnalyzer.classHashesMatch: the same number of classes, and every local
      class has the same digest online. */
  predicate ClassHashesMatch(local: JarHashes, online: JarHashes): (r: bool)
    ensures r <==> local.classesToSha256 == online.classesToSha256
  {
    var l := local.classesToSha256;
    var o := online.classesToSha256;
    var r := |l| == |o| && forall p :: p in l ==> p in o && l[p] == o[p];
    if r then SameSizeSubset(l.Keys, o.Keys); r else r
  }

  /** A subset as large as its superset is the whole superset. */
  lemma SameSizeSubset<T>(a: set<T>, b: set<T>)
    requires a <= b && |a| == |b|
    ensures a == b
  {
    assert |b - a| == |b| - |a|;
  }

  /** One step of findJars: the match type of a coordinate given what the remote
      repository returned for it. */
  function Classify(local: JarHashes, online: Option<OnlineJar>, uid: Uid): (c: UidCheck)
    ensures c.fullUid == uid
    ensures c.matchType == NotFound <==> online.None?
    ensures c.url == (if online.None? then None else Some(online.value.url))
    ensures c.matchType == ExactSha <==> online.Some? && online.value.hashes.jarSha256 == local.jarSha256
    ensures IsConsideredIdentical(c.matchType) <==>
      online.Some? && (online.value.hashes.jarSha256 == local.jarSha256
                       || online.value.hashes.classesToSha256 == local.classesToSha256)
    ensures c.matchType != SupersetClassnames
  {
    match online
    case None => UidCheck(uid, NotFound, None)
    case Some(jar) =>
      if local.jarSha256 == jar.hashes.jarSha256 then UidCheck(uid, ExactSha, Some(jar.url))
      else if ClassHashesMatch(local, jar.hashes) then UidCheck(uid, ExactClassesSha, Some(jar.url))
      else UidCheck(uid, NoMatch, Some(jar.url))
  }

  function CheckOf(local: JarHashes, resolve: Uid -> Option<OnlineJar>, u: Uid): UidCheck {
    Classify(local, resolve(u), u)
  }

  /** No coordinate in uids[from..to] is an exact jar match. */
  ghost predicate NoExactSha(local: JarHashes, resolve: Uid -> Option<OnlineJar>, uids: seq<Uid>, from: nat, to: nat)
    requires from <= to <= |uids|
  {
    forall i :: from <= i < to ==> CheckOf(local, resolve, uids[i]).matchType != ExactSha
  }

  /** The loop of findJars from index `from`, with the checks made so far in acc. */
  function Probe(local: JarHashes, uids: seq<Uid>, resolve: Uid -> Option<OnlineJar>, from: nat, acc: seq<UidCheck>)
    : (r: seq<UidCheck>)
    requires from <= |uids|
    requires |acc| == from && forall i :: 0 <= i < from ==> acc[i] == CheckOf(local, resolve, uids[i])
    ensures NoExactSha(local, resolve, uids, from, |uids|) ==>
      |r| == |uids| && forall i :: 0 <= i < |uids| ==> r[i] == CheckOf(local, resolve, uids[i])
    ensures !NoExactSha(local, resolve, uids, from, |uids|) ==>
      exists k :: from <= k < |uids| && NoExactSha(local, resolve, uids, from, k)
        && r == [CheckOf(local, resolve, uids[k])] && r[0].matchType == ExactSha
    decreases |uids| - from
  {
    if from == |uids| then acc
    else
      var c := CheckOf(local, resolve, uids[from]);
      if c.matchType == ExactSha then
        assert NoExactSha(local, resolve, uids, from, from);
        [c]
      else
        Probe(local, uids, resolve, from + 1, acc + [c])
  }

  /** OnlineAnalyzer.findJars: every coordinate is checked in order; the first exact
      jar match ends the search and is the only result, otherwise every check is
      kept. */
  function FindJars(local: JarHashes, uids: seq<Uid>, resolve: Uid -> Option<OnlineJar>): (r: seq<UidCheck>)
    ensures NoExactSha(local, resolve, uids, 0, |uids|) ==>
      |r| == |uids| && forall i :: 0 <= i < |uids| ==> r[i] == CheckOf(local, resolve, uids[i])
    ensures !NoExactSha(local, resolve, uids, 0, |uids|) ==>
      exists k :: 0 <= k < |uids| && NoExactSha(local, resolve, uids, 0, k)
        && r == [CheckOf(local, resolve, uids[k])] && r[0].matchType == ExactSha
  {
    Probe(local, uids, resolve, 0, [])
  }

  /** Every check in a findJars result is about one of the coordinates it was given. */
  lemma FindJarsChecksGivenUids(local: JarHashes, uids: seq<Uid>, resolve: Uid -> Option<OnlineJar>)
    ensures forall c :: c in FindJars(local, uids, resolve) ==> c.fullUid in uids
  {
    var r := FindJars(local, uids, resolve);
    if NoExactSha(local, resolve, uids, 0, |uids|) {
      forall c | c in r ensures c.fullUid in uids {
        var i :| 0 <= i < |r| && r[i] == c;
        assert c.fullUid == uids[i];
      }
    } else {
      var k :| 0 <= k < |uids| && NoExactSha(local, resolve, uids, 0, k)
        && r == [CheckOf(local, resolve, uids[k])] && r[0].matchType == ExactSha;
    }
  }

  /** OnlineAnalyzer.selectVersionCandidates: a single listed version, or the first
      and the last listed (newest and oldest), once each. An empty listing is the
      IllegalStateException, None here. */
  function SelectVersionCandidates(u: Uid, versions: seq<string>): (r: Option<seq<Uid>>)
    ensures r.None? <==> |versions| == 0
    ensures r.Some? ==> (
      1 <= |r.value| <= 2
      && r.value[0] == New(u.groupId, u.artifactId, Some(versions[0]))
      && New(u.groupId, u.artifactId, Some(versions[|versions| - 1])) in r.value
      && (forall i :: 0 <= i < |r.value| ==>
            r.value[i].version in {Some(versions[0]), Some(versions[|versions| - 1])}
            && r.value[i] == New(u.groupId, u.artifactId, r.value[i].version))
      && (|r.value| == 2 ==> r.value[0] != r.value[1]))
  {
    if |versions| == 0 then None
    else if |versions| == 1 then Some([New(u.groupId, u.artifactId, Some(versions[0]))])
    else
      var latest := New(u.groupId, u.artifactId, Some(versions[0]));
      var oldest := New(u.groupId, u.artifactId, Some(versions[|versions| - 1]));
      Some(if latest == oldest then [latest] else [latest, oldest])
  }

  /** The coordinates searchVersionsAndFindJars accepts: groupId and artifactId set,
      version not. */
  predicate WithoutVersion(u: Uid) {
    u.groupId.Some? && u.artifactId.Some? && u.version.None?
  }

  /** OnlineAnalyzer.searchVersionsAndFindJars: for each version-less coordinate,
      list the versions the remote repository knows and check the newest and oldest
      of them; coordinates without any listed version are left out of the result. A
      coordinate that has a version, or lacks groupId or artifactId, is the
      IllegalArgumentException, Failure here. */
  method SearchVersionsAndFindJars(local: JarHashes, uids: seq<Uid>, listVersions: Uid -> seq<string>,
                                   resolve: Uid -> Option<OnlineJar>)
    returns (r: Result<map<Uid, seq<UidCheck>>, string>)
    ensures r.Failure? <==> exists i :: 0 <= i < |uids| && !WithoutVersion(uids[i])
    ensures r.Success? ==> Searched(local, uids, listVersions, resolve, r.value)
  {
    var result: map<Uid, seq<UidCheck>> := map[];
    var i := 0;
    while i < |uids|
      invariant 0 <= i <= |uids|
      invariant forall j :: 0 <= j < i ==> WithoutVersion(uids[j])
      invariant Searched(local, uids[..i], listVersions, resolve, result)
    {
      var u := uids[i];
      if !WithoutVersion(u) {
        return Failure("IllegalArgumentException");
      }
      result := SearchOne(local, uids[..i], u, listVersions, resolve, result);
      assert uids[..i + 1] == uids[..i] + [u];
      i := i + 1;
    }
    assert uids[..i] == uids;
    return Success(result);
  }

  /** One iteration for a version-less coordinate: its listed versions, when there
      are any, select the versions whose jars are checked. */
  method SearchOne(local: JarHashes, done: seq<Uid>, u: Uid, listVersions: Uid -> seq<string>,
                   resolve: Uid -> Option<OnlineJar>, result: map<Uid, seq<UidCheck>>)
    returns (next: map<Uid, seq<UidCheck>>)
    requires Searched(local, done, listVersions, resolve, result)
    ensures Searched(local, done + [u], listVersions, resolve, next)
  {
    var versions := listVersions(u);
    next := result;
    if |versions| > 0 {
      var selected := SelectVersionCandidates(u, versions).value;
      next := result[u := FindJars(local, selected, resolve)];
    }
    SearchedStep(local, done, u, listVersions, resolve, result, next);
  }

  /** The result map after the coordinates in `done`: the coordinates with listed
      versions, each mapped to the checks of its selected versions. */
  ghost predicate Searched(local: JarHashes, done: seq<Uid>, listVersions: Uid -> seq<string>,
                           resolve: Uid -> Option<OnlineJar>, result: map<Uid, seq<UidCheck>>) {
    (forall u :: u in result <==> u in done && |listVersions(u)| > 0)
    && forall u :: u in result ==>
      SelectVersionCandidates(u, listVersions(u)).Some?
      && result[u] == FindJars(local, SelectVersionCandidates(u, listVersions(u)).value, resolve)
  }

  /** One more coordinate: it is added exactly when it has listed versions. */
  lemma SearchedStep(local: JarHashes, done: seq<Uid>, u: Uid, listVersions: Uid -> seq<string>,
                     resolve: Uid -> Option<OnlineJar>, before: map<Uid, seq<UidCheck>>, after: map<Uid, seq<UidCheck>>)
    requires Searched(local, done, listVersions, resolve, before)
    requires |listVersions(u)| > 0 ==>
      after == before[u := FindJars(local, SelectVersionCandidates(u, listVersions(u)).value, resolve)]
    requires |listVersions(u)| == 0 ==> after == before
    ensures Searched(local, done + [u], listVersions, resolve, after)
  {
    forall x | x in after
      ensures SelectVersionCandidates(x, listVersions(x)).Some?
      ensures after[x] == FindJars(local, SelectVersionCandidates(x, listVersions(x)).value, resolve)
    {
      if x != u {
        assert x in before;
      }
    }
  }

  /** Every check searchVersionsAndFindJars reports for a coordinate is that
      coordinate with its newest or oldest listed version. */
  lemma SearchedVersionsAreListed(local: JarHashes, u: Uid, versions: seq<string>, resolve: Uid -> Option<OnlineJar>)
    requires |versions| > 0
    ensures forall c :: c in FindJars(local, SelectVersionCandidates(u, versions).value, resolve) ==>
      c.fullUid == New(u.groupId, u.artifactId, c.fullUid.version)
      && c.fullUid.version in {Some(versions[0]), Some(versions[|versions| - 1])}
  {
    var sel := SelectVersionCandidates(u, versions).value;
    FindJarsChecksGivenUids(local, sel, resolve);
    forall c | c in FindJars(local, sel, resolve)
      ensures c.fullUid == New(u.groupId, u.artifactId, c.fullUid.version)
      ensures c.fullUid.version in {Some(versions[0]), Some(versions[|versions| - 1])}
    {
      var i :| 0 <= i < |sel| && sel[i] == c.fullUid;
    }
  }
}
