/** PostAnalyzer: a rule over the candidates the other analyzers gathered. Apache
    Commons jars usually have a groupId equal to their artifactId, so when enough
    groupId evidence points into org.apache.commons, a "commons-..." artifactId is
    proposed as groupId too. A null candidate value, which the Java code would
    dereference, is the Failure result. */
module PostAnalyzer {
  import opened Wrappers
  import opened Text
  import opened MavenUid
  import opened ValueCandidate

  const CommonsPackage: string := "org.apache.commons"
  const CommonsArtifactPrefix: string := "commons-"
  const RuleDetail: string := "Suspecting 'Apache Commons' jar - Rule: groupId equals artifactId"

  predicate InCommonsPackage(c: Candidate)
    requires c.value.Some?
  {
    StartsWith(c.value.value, CommonsPackage)
  }

  /** A commons-named artifactId with a score sum of at least 4. */
  predicate MatchesName(c: Candidate)
    requires c.value.Some?
  {
    StartsWith(c.value.value, CommonsArtifactPrefix) && c.scoreSum >= 4
  }

  ghost predicate AllPresent(cs: seq<Candidate>) {
    forall i :: 0 <= i < |cs| ==> cs[i].value.Some?
  }

  /** Reference definition: the summed score of the groupIds in org.apache.commons. */
  function CommonsScore(groups: seq<Candidate>): int
    requires AllPresent(groups)
    decreases |groups|
  {
    if |groups| == 0 then 0
    else (if InCommonsPackage(groups[0]) then groups[0].scoreSum else 0) + CommonsScore(groups[1..])
  }

  /** The loop over the groupIds: the package score, or Failure on a null value. */
  function SumCommonsScore(groups: seq<Candidate>): (r: Result<int, string>)
    ensures r.Success? <==> AllPresent(groups)
    ensures r.Success? ==> r.value == CommonsScore(groups)
    decreases |groups|
  {
    if |groups| == 0 then Success(0)
    else if groups[0].value.None? then Failure("null groupId candidate")
    else
      match SumCommonsScore(groups[1..])
      case Failure(e) => Failure(e)
      case Success(rest) =>
        Success((if InCommonsPackage(groups[0]) then groups[0].scoreSum else 0) + rest)
  }

  /** No null value and no match among artifacts[from..to]. */
  ghost predicate Clean(artifacts: seq<Candidate>, from: nat, to: nat)
    requires from <= to <= |artifacts|
  {
    forall i :: from <= i < to ==> artifacts[i].value.Some? && !MatchesName(artifacts[i])
  }

  /** The loop over the artifactIds from index `from` up to the first match: its
      index, None when no artifactId matches, Failure when a null value comes first. */
  function FirstMatch(artifacts: seq<Candidate>, from: nat): (r: Result<Option<nat>, string>)
    requires from <= |artifacts|
    ensures r == Success(None) <==> Clean(artifacts, from, |artifacts|)
    ensures r.Success? && r.value.Some? ==>
      from <= r.value.value < |artifacts| && artifacts[r.value.value].value.Some?
      && MatchesName(artifacts[r.value.value]) && Clean(artifacts, from, r.value.value)
    ensures r.Failure? ==>
      exists k :: from <= k < |artifacts| && artifacts[k].value.None? && Clean(artifacts, from, k)
    decreases |artifacts| - from
  {
    if from == |artifacts| then Success(None)
    else if artifacts[from].value.None? then
      assert Clean(artifacts, from, from);
      Failure("null artifactId candidate")
    else if MatchesName(artifacts[from]) then Success(Some(from))
    else
      var rest := FirstMatch(artifacts, from + 1);
      assert rest.Failure? ==>
        exists k :: from <= k < |artifacts| && artifacts[k].value.None? && Clean(artifacts, from, k) by {
        if rest.Failure? {
          var k :| from + 1 <= k < |artifacts| && artifacts[k].value.None? && Clean(artifacts, from + 1, k);
          CleanStep(artifacts, from, k);
        }
      }
      rest
  }

  /** A clean range extends to the left by an entry that is present and not a match. */
  lemma CleanStep(artifacts: seq<Candidate>, from: nat, to: nat)
    requires from < to <= |artifacts|
    requires artifacts[from].value.Some? && !MatchesName(artifacts[from])
    requires Clean(artifacts, from + 1, to)
    ensures Clean(artifacts, from, to)
  {
  }

  /** PostAnalyzer.analyze: when the org.apache.commons groupIds together score at
      least 4, the first commons-named artifactId scoring at least 4 becomes a groupId
      candidate of score 5; otherwise nothing is proposed. */
  function Analyze(groups: seq<Candidate>, artifacts: seq<Candidate>): (r: Result<seq<Emitted>, string>)
    ensures r.Success? ==> |r.value| <= 1 && AllPresent(groups)
    ensures !AllPresent(groups) ==> r.Failure?
    ensures AllPresent(groups) && CommonsScore(groups) < 4 ==> r == Success([])
    ensures r.Success? && |r.value| == 1 ==>
      CommonsScore(groups) >= 4
      && exists k :: (0 <= k < |artifacts| && artifacts[k].value.Some? && MatchesName(artifacts[k])
                      && r.value[0] == Emitted(GroupId, artifacts[k].value, 5, RuleDetail)
                      && Clean(artifacts, 0, k))
    ensures AllPresent(groups) && CommonsScore(groups) >= 4 && Clean(artifacts, 0, |artifacts|) ==> r == Success([])
    ensures AllPresent(groups) && CommonsScore(groups) >= 4 ==>
      forall k :: 0 <= k < |artifacts| && artifacts[k].value.Some? && MatchesName(artifacts[k]) && Clean(artifacts, 0, k)
        ==> r == Success([Emitted(GroupId, artifacts[k].value, 5, RuleDetail)])
    ensures r.Failure? <==> (!AllPresent(groups)
      || (CommonsScore(groups) >= 4
          && exists k :: 0 <= k < |artifacts| && artifacts[k].value.None? && Clean(artifacts, 0, k)))
  {
    match SumCommonsScore(groups)
    case Failure(e) => Failure(e)
    case Success(score) =>
      if score < 4 then Success([])
      else
        match FirstMatch(artifacts, 0)
        case Failure(e) => Failure(e)
        case Success(None) => Success([])
        case Success(Some(k)) => Success([Emitted(GroupId, artifacts[k].value, 5, RuleDetail)])
  }
}
