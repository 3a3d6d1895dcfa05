/** ValueCandidate: one proposed value of a coordinate component together with the
    scored sources that proposed it, and the running sum of their scores. Also the
    evidence tuple every extractor emits. */
module ValueCandidate {
  import opened Wrappers
  import opened MavenUid
  import Sorting

  /** A candidate value; the pom extractor can propose an absent (null) value. */
  type Value = Option<string>

  /** JarAnalyzerType, plus the post rule's own tag. */
  datatype AnalyzerType = Manifest | JarFilename | Pom | ClassFilepath | ClassTimestamp | Post

  /** One (component, value, score, detail) tuple emitted by an extractor. */
  datatype Emitted = Emitted(component: Component, value: Value, score: int, detail: string)

  datatype ValueSource = ValueSource(analyzer: AnalyzerType, score: int, details: string)

  /** scoreSum is kept incrementally, exactly like the Java field. */
  datatype Candidate = Candidate(value: Value, sources: seq<ValueSource>, scoreSum: int)

  /** Sum of the scores of a sequence of sources. */
  function SumScores(sources: seq<ValueSource>): int
    decreases |sources|
  {
    if |sources| == 0 then 0 else sources[0].score + SumScores(sources[1..])
  }

  /** The class invariant: scoreSum equals the sum of all source scores. */
  predicate Valid(c: Candidate) {
    c.scoreSum == SumScores(c.sources)
  }

  lemma {:induction false} SumScoresAppend(a: seq<ValueSource>, b: seq<ValueSource>)
    ensures SumScores(a + b) == SumScores(a) + SumScores(b)
    decreases |a|
  {
    if |a| == 0 {
      assert a + b == b;
    } else {
      assert (a + b)[1..] == a[1..] + b;
      SumScoresAppend(a[1..], b);
    }
  }

  /** Removing one source lowers the sum by exactly its score. */
  lemma SumScoresRemove(b: seq<ValueSource>, i: nat)
    requires i < |b|
    ensures SumScores(b) == b[i].score + SumScores(b[..i] + b[i + 1..])
  {
    var pre, rest, post := b[..i], b[i..], b[i + 1..];
    assert b == pre + rest;
    assert rest[1..] == post;
    SumScoresAppend(pre, rest);
    SumScoresAppend(pre, post);
  }

  lemma MultisetRemove<T>(a: seq<T>, b: seq<T>, i: nat)
    requires |a| > 0 && i < |b| && b[i] == a[0]
    requires multiset(a) == multiset(b)
    ensures multiset(a[1..]) == multiset(b[..i] + b[i + 1..])
  {
    assert a == [a[0]] + a[1..];
    assert b == b[..i] + [b[i]] + b[i + 1..];
    assert multiset(b) == multiset(b[..i]) + multiset{b[i]} + multiset(b[i + 1..]);
    assert multiset(a[1..]) == multiset(a) - multiset{a[0]};
  }

  /** The sum of scores depends only on the multiset of sources. */
  lemma {:induction false} SumScoresPermutation(a: seq<ValueSource>, b: seq<ValueSource>)
    requires multiset(a) == multiset(b)
    ensures SumScores(a) == SumScores(b)
    decreases |a|
  {
    if |a| == 0 {
      assert |b| == |multiset(b)| == 0;
    } else {
      assert a[0] in multiset(b);
      var i :| 0 <= i < |b| && b[i] == a[0];
      MultisetRemove(a, b, i);
      SumScoresPermutation(a[1..], b[..i] + b[i + 1..]);
      SumScoresRemove(b, i);
    }
  }

  /** new ValueCandidate(value): no sources, scoreSum 0. */
  function NewCandidate(value: Value): (c: Candidate)
    ensures c.value == value && c.sources == [] && c.scoreSum == 0
    ensures Valid(c)
  {
    Candidate(value, [], 0)
  }

  /** addSource: appends exactly one source and raises scoreSum by its score;
      the value never changes and the invariant is preserved. */
  function AddSource(c: Candidate, source: ValueSource): (r: Candidate)
    ensures r.value == c.value
    ensures r.sources == c.sources + [source]
    ensures r.scoreSum == c.scoreSum + source.score
    ensures Valid(c) ==> Valid(r)
  {
    SumScoresAppend(c.sources, [source]);
    Candidate(c.value, c.sources + [source], c.scoreSum + source.score)
  }

  /** Adds the sources one after another. */
  function AddAll(c: Candidate, sources: seq<ValueSource>): (r: Candidate)
    decreases |sources|
  {
    if |sources| == 0 then c else AddAll(AddSource(c, sources[0]), sources[1..])
  }

  /** Adding sources one by one to a valid candidate keeps the value and yields the
      candidate whose sources are the old ones followed by the new ones. */
  lemma {:induction false} AddAllSpec(c: Candidate, sources: seq<ValueSource>)
    requires Valid(c)
    ensures AddAll(c, sources).value == c.value
    ensures AddAll(c, sources).sources == c.sources + sources
    ensures Valid(AddAll(c, sources))
    decreases |sources|
  {
    if |sources| > 0 {
      var c' := AddSource(c, sources[0]);
      AddAllSpec(c', sources[1..]);
      assert c'.sources + sources[1..] == c.sources + sources;
    }
  }

  /** scoreSum after any sequence of additions is the sum of their scores, so two
      orders of the same additions give the same scoreSum. */
  lemma ScoreSumOrderIndependent(value: Value, s1: seq<ValueSource>, s2: seq<ValueSource>)
    requires multiset(s1) == multiset(s2)
    ensures AddAll(NewCandidate(value), s1).scoreSum == SumScores(s1)
    ensures AddAll(NewCandidate(value), s1).scoreSum == AddAll(NewCandidate(value), s2).scoreSum
  {
    var c := NewCandidate(value);
    AddAllSpec(c, s1);
    AddAllSpec(c, s2);
    var r1 := AddAll(c, s1);
    var r2 := AddAll(c, s2);
    assert r1.sources == s1 && r2.sources == s2;
    SumScoresPermutation(s1, s2);
  }

  function SourceScore(s: ValueSource): int {
    s.score
  }

  /** sortSources with the score-descending comparator used by the analyzer:
      a permutation of the sources, value and scoreSum untouched. */
  function SortSources(c: Candidate): (r: Candidate)
    ensures r.value == c.value && r.scoreSum == c.scoreSum
    ensures multiset(r.sources) == multiset(c.sources)
    ensures Sorting.SortedDesc(r.sources, SourceScore)
    ensures Valid(c) ==> Valid(r)
  {
    var sorted := Sorting.SortDesc(c.sources, SourceScore);
    SumScoresPermutation(sorted, c.sources);
    Candidate(c.value, sorted, c.scoreSum)
  }

  function ScoreSum(c: Candidate): int {
    c.scoreSum
  }

  /** The values of a sequence of candidates are pairwise distinct. */
  ghost predicate DistinctValues(cs: seq<Candidate>) {
    forall i, j :: 0 <= i < j < |cs| ==> cs[i].value != cs[j].value
  }
}
