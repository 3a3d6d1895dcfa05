/** Helper: the regular expressions of the analyzers as hand-written recognisers,
    the capture groups the analyzers read from them, the user-input validation
    patterns, and the package prefix/leaf helpers. */
module Helper {
  import opened Wrappers
  import opened Seqs
  import opened Text
  import opened MavenUid

  // ---------------------------------------------------------------- character classes

  predicate IsLowerLetter(c: char) { 'a' <= c <= 'z' }
  predicate IsUpperLetter(c: char) { 'A' <= c <= 'Z' }
  predicate IsDigit(c: char) { '0' <= c <= '9' }
  predicate IsAlnum(c: char) { IsLowerLetter(c) || IsUpperLetter(c) || IsDigit(c) }
  /** \w without UNICODE_CHARACTER_CLASS. */
  predicate IsWordChar(c: char) { IsAlnum(c) || c == '_' }
  /** [\-\.], the separator of version qualifiers and classifiers. */
  predicate IsSep(c: char) { c == '-' || c == '.' }

  // ---------------------------------------------------------------- names

  /** PATTERN_SUBPACKAGE [a-z_][a-z0-9_]* */
  predicate IsSubpackage(s: string) {
    |s| > 0 && (IsLowerLetter(s[0]) || s[0] == '_')
    && forall i :: 0 <= i < |s| ==> IsLowerLetter(s[i]) || IsDigit(s[i]) || s[i] == '_'
  }

  /** PATTERN_PACKAGE (sub\.)*(sub): one or more subpackages joined by dots. */
  predicate IsPackage(s: string) {
    var parts := SplitAll(s, '.');
    forall i :: 0 <= i < |parts| ==> IsSubpackage(parts[i])
  }

  /** PATTERN_PACKAGE_2_OR_MORE (sub\.)+(sub). */
  predicate IsPackage2(s: string) {
    IsPackage(s) && |SplitAll(s, '.')| >= 2
  }

  /** The package pattern of the given flavour: lenient (one or more segments) or
      strict (two or more). */
  predicate IsPackageOf(s: string, twoOrMore: bool) {
    if twoOrMore then IsPackage2(s) else IsPackage(s)
  }

  /** PATTERN_CLASS [A-Z]\w* */
  predicate IsClassName(s: string) {
    |s| > 0 && IsUpperLetter(s[0]) && forall i :: 0 <= i < |s| ==> IsWordChar(s[i])
  }

  /** PATTERN_ARTIFACT_ID_STRICT [a-z_][a-z0-9_\-]* */
  predicate IsArtifactIdStrict(s: string) {
    |s| > 0 && (IsLowerLetter(s[0]) || s[0] == '_')
    && forall i :: 0 <= i < |s| ==> IsLowerLetter(s[i]) || IsDigit(s[i]) || s[i] == '_' || s[i] == '-'
  }

  /** PATTERN_ARTIFACT_ID_LIKE [a-zA-Z_][a-zA-Z0-9_\-\.]* */
  predicate IsArtifactIdLike(s: string) {
    |s| > 0 && (IsLowerLetter(s[0]) || IsUpperLetter(s[0]) || s[0] == '_')
    && forall i :: 0 <= i < |s| ==> IsWordChar(s[i]) || s[i] == '-' || s[i] == '.'
  }

  /** GROUP_ID: a package, or a strict artifactId such as "xml-apis". */
  predicate IsGroupId(s: string) {
    IsPackage(s) || IsArtifactIdStrict(s)
  }

  /** A strict artifactId is also artifactId-like. */
  lemma StrictArtifactIdIsLike(s: string)
    requires IsArtifactIdStrict(s)
    ensures IsArtifactIdLike(s)
  {
  }

  /** "log4j-1.2-api" is the name the like-pattern exists for: like but not strict. */
  lemma LikeIsWiderThanStrict()
    ensures IsArtifactIdLike("log4j-1.2-api") && !IsArtifactIdStrict("log4j-1.2-api")
    ensures IsArtifactIdLike("Foo") && !IsArtifactIdStrict("Foo")
  {
    assert "log4j-1.2-api"[7] == '.';
    assert "Foo"[0] == 'F';
  }

  /** Every strict package is a lenient one, and no package contains '-' or an
      uppercase letter. */
  lemma PackageFacts(s: string)
    ensures IsPackage2(s) ==> IsPackage(s)
    ensures IsPackage(s) ==> forall i :: 0 <= i < |s| ==> s[i] != '-' && !IsUpperLetter(s[i])
  {
    if IsPackage(s) {
      JoinSplitAll(s, '.');
      JoinedCharsFromParts(SplitAll(s, '.'), '.');
    }
  }

  /** Every character of a '.'-join of subpackages is a dot or a subpackage character. */
  lemma {:induction false} JoinedCharsFromParts(parts: seq<string>, c: char)
    requires c == '.'
    requires forall i :: 0 <= i < |parts| ==> IsSubpackage(parts[i])
    ensures forall k :: 0 <= k < |Join(parts, [c])| ==>
      var x := Join(parts, [c])[k]; x == '.' || IsLowerLetter(x) || IsDigit(x) || x == '_'
    decreases |parts|
  {
    if |parts| > 1 {
      JoinedCharsFromParts(parts[1..], c);
      var rest := Join(parts[1..], [c]);
      assert Join(parts, [c]) == parts[0] + [c] + rest;
      forall k | 0 <= k < |Join(parts, [c])|
        ensures var x := Join(parts, [c])[k]; x == '.' || IsLowerLetter(x) || IsDigit(x) || x == '_'
      {
        if k < |parts[0]| {
          assert Join(parts, [c])[k] == parts[0][k];
        } else if k > |parts[0]| {
          assert Join(parts, [c])[k] == rest[k - |parts[0]| - 1];
        }
      }
    }
  }

  // ---------------------------------------------------------------- package with optional class

  /** The "package" capture of PACKAGE_WITH_OPTIONAL_CLASS (lenient) or
      PACKAGE_2_OR_MORE_WITH_OPTIONAL_CLASS (strict) for a whole-string match, None
      when the string does not match. A class segment starts with an uppercase
      letter, which a package never contains, so the split is unique. */
  function PackageWithOptionalClass(s: string, twoOrMore: bool): (r: Option<string>)
    ensures r.Some? ==> IsPackageOf(r.value, twoOrMore) && StartsWith(s, r.value)
    ensures r.Some? && r.value != s ==>
      |r.value| < |s| && s[|r.value|] == '.' && IsClassName(s[|r.value| + 1..])
    ensures IsPackageOf(s, twoOrMore) ==> r == Some(s)
    ensures forall k :: ClassSplitAt(s, k, twoOrMore) ==> r == Some(s[..k])
  {
    var k := LastIndexOf(s, '.');
    if IsPackageOf(s, twoOrMore) then
      WholePackage(s, twoOrMore);
      Some(s)
    else if ClassSplitAt(s, k, twoOrMore) then
      ClassSplitIsLast(s, k, twoOrMore);
      Some(s[..k])
    else
      NoClassSplit(s, k, twoOrMore);
      None
  }

  lemma WholePackage(s: string, twoOrMore: bool)
    requires IsPackageOf(s, twoOrMore)
    ensures StartsWith(s, s) && forall j :: !ClassSplitAt(s, j, twoOrMore)
  {
    NoClassSegmentInPackage(s, twoOrMore);
  }

  lemma ClassSplitIsLast(s: string, k: int, twoOrMore: bool)
    requires k == LastIndexOf(s, '.') && ClassSplitAt(s, k, twoOrMore)
    ensures IsPackageOf(s[..k], twoOrMore) && StartsWith(s, s[..k]) && |s[..k]| == k
    ensures s[..k] != s && s[k] == '.' && IsClassName(s[k + 1..])
    ensures forall j :: ClassSplitAt(s, j, twoOrMore) ==> j == k
  {
    ClassSegmentIsLast(s);
  }

  lemma NoClassSplit(s: string, k: int, twoOrMore: bool)
    requires k == LastIndexOf(s, '.') && !ClassSplitAt(s, k, twoOrMore)
    ensures forall j :: !ClassSplitAt(s, j, twoOrMore)
  {
    ClassSegmentIsLast(s);
  }

  /** s splits at the dot k into a package (strict or lenient) and a class segment. */
  predicate ClassSplitAt(s: string, k: int, twoOrMore: bool) {
    0 <= k < |s| && s[k] == '.' && IsClassName(s[k + 1..]) && IsPackageOf(s[..k], twoOrMore)
  }

  /** A package holds no uppercase letter, so no class segment follows any of its dots. */
  lemma NoClassSegmentInPackage(s: string, twoOrMore: bool)
    requires IsPackageOf(s, twoOrMore)
    ensures forall j :: 0 <= j < |s| && s[j] == '.' ==> !IsClassName(s[j + 1..])
  {
    PackageFacts(s);
    forall j | 0 <= j < |s| && s[j] == '.'
      ensures !IsClassName(s[j + 1..])
    {
      if j + 1 < |s| {
        assert s[j + 1..][0] == s[j + 1];
      }
    }
  }

  /** A class segment holds no dot, so it can only follow the last dot. */
  lemma ClassSegmentIsLast(s: string)
    ensures forall j :: 0 <= j < |s| && s[j] == '.' && IsClassName(s[j + 1..]) ==> j == LastIndexOf(s, '.')
  {
  }

  // ---------------------------------------------------------------- optional package with artifactId-like leaf

  /** Length of a leading "sub." segment of s (a subpackage directly followed by a
      dot), or 0 when s does not start with one. */
  function LeadingSegment(s: string): (n: nat)
    ensures n <= |s|
    ensures n > 0 ==> n >= 2 && s[n - 1] == '.' && IsSubpackage(s[..n - 1])
  {
    var i := IndexOf(s, '.');
    if i < |s| && IsSubpackage(s[..i]) then i + 1 else 0
  }

  /** The "artifactId" capture of OPTIONAL_PACKAGE_WITH_ARTIFACT_ID_LIKE_AS_LEAF.
      The package part (sub\.)* is greedy: it takes a further "sub." segment
      whenever the rest can still be matched, and backs off otherwise. */
  function ArtifactIdLikeLeaf(s: string): (r: Option<string>)
    ensures r.Some? ==> IsArtifactIdLike(r.value) && EndsWith(s, r.value)
    decreases |s|
  {
    var n := LeadingSegment(s);
    var deeper := if n > 0 then ArtifactIdLikeLeaf(s[n..]) else None;
    if deeper.Some? then
      assert EndsWith(s[n..], deeper.value);
      assert s[n..][|s[n..]| - |deeper.value|..] == s[|s| - |deeper.value|..];
      deeper
    else if IsArtifactIdLike(s) then Some(s)
    else None
  }

  /** The leaf pattern matches exactly the artifactId-like strings: every string of
      the shape (sub\.)*like is itself artifactId-like. */
  lemma {:induction false} ArtifactIdLikeLeafMatches(s: string)
    ensures ArtifactIdLikeLeaf(s).Some? <==> IsArtifactIdLike(s)
    decreases |s|
  {
    var n := LeadingSegment(s);
    if n > 0 {
      ArtifactIdLikeLeafMatches(s[n..]);
      if IsArtifactIdLike(s[n..]) {
        LikeAfterSegment(s, n);
      }
    }
  }

  /** A leading "sub." segment in front of an artifactId-like string keeps it
      artifactId-like. */
  lemma LikeAfterSegment(s: string, n: nat)
    requires 2 <= n <= |s| && s[n - 1] == '.' && IsSubpackage(s[..n - 1])
    requires IsArtifactIdLike(s[n..])
    ensures IsArtifactIdLike(s)
  {
    var head := s[..n - 1];
    assert s[0] == head[0];
    forall i | 0 <= i < |s|
      ensures IsWordChar(s[i]) || s[i] == '-' || s[i] == '.'
    {
      if i < n - 1 {
        assert s[i] == head[i];
      } else if i >= n {
        assert s[i] == s[n..][i - n];
      }
    }
  }

  /** (sub\.)*: a run of subpackages, each followed by a dot. A subpackage holds no
      dot, so each segment ends at the first dot after the previous one. */
  predicate SegmentRun(p: string)
    decreases |p|
  {
    p == [] || (LeadingSegment(p) > 0 && SegmentRun(p[LeadingSegment(p)..]))
  }

  /** Cutting s after a point past its first "sub." segment keeps that segment. */
  lemma LeadingSegmentPrefix(s: string, k: nat)
    requires k <= |s|
    requires LeadingSegment(s[..k]) > 0 || 0 < LeadingSegment(s) <= k
    ensures LeadingSegment(s[..k]) == LeadingSegment(s)
  {
    var i, j := IndexOf(s, '.'), IndexOf(s[..k], '.');
    assert i < k by {
      if j < k {
        assert s[j] == s[..k][j];
      }
    }
    assert s[..k][i] == s[i];
    assert s[..k][j] == s[j];
    assert s[..k][..j] == s[..i];
  }

  /** A "sub." segment up to the first dot, followed by a run, is a run. */
  lemma RunCons(s: string, i: nat)
    requires i < |s| && IndexOf(s, '.') == i && IsSubpackage(s[..i]) && SegmentRun(s[i + 1..])
    ensures SegmentRun(s)
  {
  }

  /** A run in front of an artifactId-like string keeps it artifactId-like. */
  lemma {:induction false} RunThenLikeIsLike(p: string, x: string)
    requires SegmentRun(p) && IsArtifactIdLike(x)
    ensures IsArtifactIdLike(p + x)
    decreases |p|
  {
    if p != [] {
      var n := LeadingSegment(p);
      LeadingSegmentPrefix(p + x, |p|);
      assert (p + x)[..|p|] == p;
      assert (p + x)[n..] == p[n..] + x;
      RunThenLikeIsLike(p[n..], x);
      LikeAfterSegment(p + x, n);
    }
  }

  /** The greedy package part consumes a whole leading run: behind a run, the capture
      is that of the rest. */
  lemma {:induction false} LeafBehindRun(p: string, x: string)
    requires SegmentRun(p) && IsArtifactIdLike(x)
    ensures ArtifactIdLikeLeaf(p + x) == ArtifactIdLikeLeaf(x)
    decreases |p|
  {
    if p != [] {
      var n := LeadingSegment(p);
      LeadingSegmentPrefix(p + x, |p|);
      assert (p + x)[..|p|] == p;
      assert (p + x)[n..] == p[n..] + x;
      LeafBehindRun(p[n..], x);
      ArtifactIdLikeLeafMatches(x);
    }
  }

  /** No run longer than j characters at the start of s leaves an artifactId-like rest. */
  predicate NoLongerRun(s: string, j: nat) {
    forall k :: j < k <= |s| && SegmentRun(s[..k]) ==> !IsArtifactIdLike(s[k..])
  }

  /** x is what a greedy (sub\.)* leaves of s for the artifactId-like leaf: x ends s,
      what precedes it is a run, and no longer run leaves an artifactId-like rest. */
  predicate GreedyLeaf(s: string, x: string) {
    |x| <= |s| && s[|s| - |x|..] == x && IsArtifactIdLike(x)
    && SegmentRun(s[..|s| - |x|]) && NoLongerRun(s, |s| - |x|)
  }

  /** The capture is exactly the greedy leaf. */
  lemma ArtifactIdLikeLeafIsGreedy(s: string, x: string)
    ensures ArtifactIdLikeLeaf(s) == Some(x) <==> GreedyLeaf(s, x)
  {
    if ArtifactIdLikeLeaf(s).Some? {
      LeafIsGreedy(s);
    }
    if GreedyLeaf(s, x) {
      GreedyIsLeaf(s, x);
    }
  }

  lemma GreedyIsLeaf(s: string, x: string)
    requires GreedyLeaf(s, x)
    ensures ArtifactIdLikeLeaf(s) == Some(x)
  {
    var m := |s| - |x|;
    assert s == s[..m] + x;
    RunThenLikeIsLike(s[..m], x);
    ArtifactIdLikeLeafMatches(s);
    LeafIsGreedy(s);
    GreedyUnique(s, x, ArtifactIdLikeLeaf(s).value);
  }

  /** At most one leaf is greedy. */
  lemma GreedyUnique(s: string, x: string, y: string)
    requires GreedyLeaf(s, x) && GreedyLeaf(s, y)
    ensures x == y
  {
    var m, m' := |s| - |x|, |s| - |y|;
    assert m <= m' by {
      assert s[m'..] == y;
    }
    assert m' <= m by {
      assert s[m..] == x;
    }
  }

  lemma {:induction false} LeafIsGreedy(s: string)
    requires ArtifactIdLikeLeaf(s).Some?
    ensures GreedyLeaf(s, ArtifactIdLikeLeaf(s).value)
    decreases |s|
  {
    var n := LeadingSegment(s);
    if n > 0 && ArtifactIdLikeLeaf(s[n..]).Some? {
      var x := ArtifactIdLikeLeaf(s[n..]).value;
      LeafIsGreedy(s[n..]);
      DeeperCapture(s, n, x);
      GreedyDeeper(s, n, x);
    } else {
      GreedyWhole(s, n);
    }
  }

  lemma DeeperCapture(s: string, n: nat, x: string)
    requires 0 < n == LeadingSegment(s)
    requires ArtifactIdLikeLeaf(s[n..]) == Some(x)
    ensures ArtifactIdLikeLeaf(s) == Some(x)
  {
  }

  /** The greedy step when a deeper capture exists: the segment joins the run. */
  lemma GreedyDeeper(s: string, n: nat, x: string)
    requires 0 < n == LeadingSegment(s)
    requires GreedyLeaf(s[n..], x)
    ensures GreedyLeaf(s, x)
  {
    var m := |s| - |x|;
    assert s[m..] == x by {
      assert s[m..] == s[n..][|s[n..]| - |x|..];
    }
    RunBehindSegment(s, n, m);
    NoLongerRunStep(s, n, m);
  }

  lemma NoLongerRunStep(s: string, n: nat, m: nat)
    requires 0 < n == LeadingSegment(s) && n <= m <= |s|
    requires NoLongerRun(s[n..], m - n)
    ensures NoLongerRun(s, m)
  {
    forall k | m < k <= |s| && SegmentRun(s[..k])
      ensures !IsArtifactIdLike(s[k..])
    {
      RunAfterSegment(s, n, k);
      assert s[n..][k - n..] == s[k..];
    }
  }

  /** The greedy step when no deeper capture exists: the whole string is captured and
      no run in front of it leaves an artifactId-like rest. */
  lemma GreedyWhole(s: string, n: nat)
    requires n == LeadingSegment(s)
    requires n == 0 || ArtifactIdLikeLeaf(s[n..]).None?
    requires ArtifactIdLikeLeaf(s).Some?
    ensures ArtifactIdLikeLeaf(s) == Some(s) && GreedyLeaf(s, s)
  {
    if n > 0 {
      ArtifactIdLikeLeafMatches(s[n..]);
    }
    assert s[..0] == [];
    forall k | 0 < k <= |s| && SegmentRun(s[..k])
      ensures !IsArtifactIdLike(s[k..])
    {
      NoLikeBehindRun(s, n, k);
    }
  }

  lemma NoLikeBehindRun(s: string, n: nat, k: nat)
    requires n == LeadingSegment(s)
    requires n == 0 || ArtifactIdLikeLeaf(s[n..]).None?
    requires 0 < k <= |s| && SegmentRun(s[..k])
    ensures !IsArtifactIdLike(s[k..])
  {
    LeadingSegmentPrefix(s, k);
    ArtifactIdLikeLeafMatches(s[n..]);
    assert s[..k][n..] + s[k..] == s[n..];
    if IsArtifactIdLike(s[k..]) {
      RunThenLikeIsLike(s[..k][n..], s[k..]);
    }
  }

  /** A run that starts the rest after the first segment extends to one that starts s. */
  lemma RunBehindSegment(s: string, n: nat, m: nat)
    requires 0 < n == LeadingSegment(s) && n <= m <= |s|
    requires SegmentRun(s[n..][..m - n])
    ensures SegmentRun(s[..m])
  {
    LeadingSegmentPrefix(s, m);
    assert s[..m][n..] == s[n..][..m - n];
  }

  /** A run that starts s and passes the first segment continues one that starts the
      rest after that segment. */
  lemma RunAfterSegment(s: string, n: nat, k: nat)
    requires 0 < n == LeadingSegment(s) && n < k <= |s|
    requires SegmentRun(s[..k])
    ensures SegmentRun(s[n..][..k - n])
  {
    LeadingSegmentPrefix(s, k);
    assert s[..k][n..] == s[n..][..k - n];
  }

  /** A package followed by a dot is a run. */
  lemma {:induction false} PackageDotIsRun(p: string)
    requires IsPackage(p)
    ensures SegmentRun(p + ".")
    decreases |p|
  {
    var i := IndexOf(p, '.');
    if i == |p| {
      SegmentDotIsRun(p);
    } else {
      var head, tail := p[..i], p[i + 1..];
      assert p == head + "." + tail;
      SplitAllCons(head, tail, '.');
      PackageTail(p, head, tail);
      PackageDotIsRun(tail);
      SegmentThenRun(p, i);
    }
  }

  /** A dotless package followed by a dot is a run of one segment. */
  lemma SegmentDotIsRun(p: string)
    requires IsPackage(p) && IndexOf(p, '.') == |p|
    ensures SegmentRun(p + ".")
  {
    var s := p + ".";
    SplitAllNone(p, '.');
    assert SplitAll(p, '.')[0] == p;
    assert IndexOf(s, '.') == |p| by {
      assert s[|p|] == '.';
    }
    assert s[..|p|] == p;
    RunCons(s, |p|);
  }

  /** The first segment of a package, then a run made of the rest, is a run. */
  lemma SegmentThenRun(p: string, i: nat)
    requires i == IndexOf(p, '.') < |p|
    requires IsSubpackage(p[..i]) && SegmentRun(p[i + 1..] + ".")
    ensures SegmentRun(p + ".")
  {
    var s := p + ".";
    forall k | 0 <= k < i ensures s[k] != '.' {
      assert s[k] == p[k];
    }
    IndexOfFirst(s, '.', i);
    SliceOfAppend(p, ".", i);
    SliceOfAppend(p, ".", i + 1);
    RunCons(s, i);
  }

  lemma PackageTail(p: string, head: string, tail: string)
    requires IsPackage(p) && SplitAll(p, '.') == [head] + SplitAll(tail, '.')
    ensures IsSubpackage(head) && IsPackage(tail)
  {
    assert SplitAll(p, '.')[0] == head;
    forall j | 0 <= j < |SplitAll(tail, '.')|
      ensures IsSubpackage(SplitAll(tail, '.')[j])
    {
      assert SplitAll(tail, '.')[j] == SplitAll(p, '.')[j + 1];
    }
  }

  /** A dotless artifactId-like name behind a package is captured whole, as for a
      Bundle-SymbolicName "org.example.widget-core". */
  lemma LeafOfPackagedName(p: string, x: string)
    requires IsPackage(p) && IsArtifactIdLike(x) && '.' !in x
    ensures ArtifactIdLikeLeaf(p + "." + x) == Some(x)
  {
    PackageDotIsRun(p);
    LeafBehindRun(p + ".", x);
    assert IndexOf(x, '.') == |x|;
  }

  // ---------------------------------------------------------------- versions

  predicate IsDigits(s: string) {
    |s| > 0 && forall i :: 0 <= i < |s| ==> IsDigit(s[i])
  }

  predicate IsUpperWord(s: string) {
    |s| > 0 && forall i :: 0 <= i < |s| ==> IsUpperLetter(s[i])
  }

  predicate IsAlnumWord(s: string) {
    |s| > 0 && forall i :: 0 <= i < |s| ==> IsAlnum(s[i])
  }

  /** [0-9]+(\.[0-9]+)* */
  predicate IsNumbers(s: string) {
    var parts := SplitAll(s, '.');
    forall i :: 0 <= i < |parts| ==> IsDigits(parts[i])
  }

  /** Index of the last '.' or '-' in s, or -1. */
  function LastSep(s: string): (i: int)
    ensures -1 <= i < |s|
    ensures i >= 0 ==> IsSep(s[i])
    ensures forall k :: i < k < |s| ==> !IsSep(s[k])
    decreases |s|
  {
    if |s| == 0 then -1
    else if IsSep(s[|s| - 1]) then |s| - 1
    else LastSep(s[..|s| - 1])
  }

  /** PATTERN_VERSION [0-9]+(\.[0-9]+)*((\.[A-Z]+)|(\-[A-Z]+))? — an uppercase
      qualifier holds no separator, so it starts after the last one. */
  predicate IsVersion(v: string) {
    IsNumbers(v)
    || (var k := LastSep(v); k >= 0 && IsNumbers(v[..k]) && IsUpperWord(v[k + 1..]))
  }

  function DashToDot(s: string): (r: string)
    ensures |r| == |s|
    ensures forall i :: 0 <= i < |s| ==> r[i] == (if s[i] == '-' then '.' else s[i])
  {
    seq(|s|, i requires 0 <= i < |s| => if s[i] == '-' then '.' else s[i])
  }

  /** PATTERN_CLASSIFIERS ([a-zA-Z0-9]+)([\-\.][a-zA-Z0-9]+){0,2}: one to three
      alphanumeric words joined by '-' or '.'. */
  predicate IsClassifiers(t: string) {
    var parts := SplitAll(DashToDot(t), '.');
    |parts| <= 3 && forall i :: 0 <= i < |parts| ==> IsAlnumWord(parts[i])
  }

  /** ([\-\.]CLASSIFIERS)?$ for the text after the version. */
  predicate OptSepClassifiers(rest: string) {
    |rest| == 0 || (IsSep(rest[0]) && IsClassifiers(rest[1..]))
  }

  /** s splits after k characters into a version and an optional classifier tail. */
  predicate VersionSplitAt(s: string, k: nat) {
    k <= |s| && IsVersion(s[..k]) && OptSepClassifiers(s[k..])
  }

  /** Searches the split points k, k-1, ..., 0 for the first one that works. */
  function LongestVersionSplit(s: string, k: nat): (r: Option<nat>)
    requires k <= |s|
    ensures r.Some? ==> r.value <= k && VersionSplitAt(s, r.value)
    ensures r.Some? ==> forall j :: r.value < j <= k ==> !VersionSplitAt(s, j)
    ensures r.None? ==> forall j :: 0 <= j <= k ==> !VersionSplitAt(s, j)
  {
    var p := (j: nat) => VersionSplitAt(s, j);
    assert forall j: nat :: p(j) == VersionSplitAt(s, j);
    LastWhere(p, k)
  }

  /** The largest j <= k with p(j), found by trying k, k-1, ..., 0 in turn. */
  function LastWhere(p: nat -> bool, k: nat): (r: Option<nat>)
    ensures r.Some? ==> r.value <= k && p(r.value)
    ensures r.Some? ==> forall j :: r.value < j <= k ==> !p(j)
    ensures r.None? ==> forall j :: 0 <= j <= k ==> !p(j)
    decreases k
  {
    if p(k) then Some(k)
    else if k == 0 then None
    else LastWhere(p, k - 1)
  }

  /** The "version" capture of VERSION_WITH_OPTIONAL_CLASSIFIERS matched against the
      whole of s. The greedy quantifiers of the version try longer versions first,
      and every shorter alternative they back off to is shorter, so the capture is
      the longest version prefix after which the classifier tail still matches. */
  function VersionCapture(s: string): (r: Option<string>)
    ensures r.Some? ==> IsVersion(r.value) && StartsWith(s, r.value) && OptSepClassifiers(s[|r.value|..])
    ensures r.Some? ==> forall j :: |r.value| < j <= |s| ==> !VersionSplitAt(s, j)
    ensures r.None? <==> forall j :: 0 <= j <= |s| ==> !VersionSplitAt(s, j)
  {
    var k := LongestVersionSplit(s, |s|);
    if k.Some? then
      assert s[..k.value][..k.value] == s[..k.value];
      Some(s[..k.value])
    else None
  }

  /** The whole of s matches VERSION_WITH_OPTIONAL_CLASSIFIERS. */
  predicate IsVersionWithClassifiers(s: string) {
    VersionCapture(s).Some?
  }

  /** A bare version is captured whole. */
  lemma BareVersionCapturedWhole(v: string)
    requires IsVersion(v)
    ensures VersionCapture(v) == Some(v)
  {
    assert VersionSplitAt(v, |v|) by {
      assert v[..|v|] == v;
    }
  }

  /** The first split part is a prefix of s, so a non-empty first part starts with s[0]. */
  lemma FirstPartStartsString(s: string, c: char)
    requires |SplitAll(s, c)[0]| > 0
    ensures |s| > 0 && SplitAll(s, c)[0][0] == s[0]
  {
  }

  lemma VersionStartsWithDigit(v: string)
    requires IsVersion(v)
    ensures |v| > 0 && IsDigit(v[0])
  {
    if IsNumbers(v) {
      FirstPartStartsString(v, '.');
    } else {
      var w := v[..LastSep(v)];
      FirstPartStartsString(w, '.');
      assert v[0] == w[0];
    }
  }

  lemma GroupIdStartsWithLowerOrUnderscore(s: string)
    requires IsGroupId(s)
    ensures |s| > 0 && (IsLowerLetter(s[0]) || s[0] == '_')
  {
    if IsPackage(s) {
      FirstPartStartsString(s, '.');
    }
  }

  /** A version never matches the groupId pattern (it starts with a digit), so no
      string is accepted both as a groupId and as a version. */
  lemma VersionIsNoGroupId(s: string)
    requires IsVersionWithClassifiers(s)
    ensures !IsGroupId(s)
  {
    var v := VersionCapture(s).value;
    VersionStartsWithDigit(v);
    assert s[0] == v[0];
    if IsGroupId(s) {
      GroupIdStartsWithLowerOrUnderscore(s);
      assert false;
    }
  }

  /** Three single digits joined by dots form a version, captured whole. */
  lemma ThreeDigitVersion(x: char, y: char, z: char)
    requires IsDigit(x) && IsDigit(y) && IsDigit(z)
    ensures IsVersion([x, '.', y, '.', z])
    ensures VersionCapture([x, '.', y, '.', z]) == Some([x, '.', y, '.', z])
  {
    var s3: string := [z];
    var s2: string := [y, '.', z];
    var s1: string := [x, '.', y, '.', z];
    assert IndexOf(s3, '.') == 1;
    assert SplitAll(s3, '.') == [s3];
    assert s2[..1] == [y] && s2[2..] == s3;
    assert IndexOf(s2, '.') == 1;
    assert SplitAll(s2, '.') == [[y], s3];
    assert s1[..1] == [x] && s1[2..] == s2;
    assert IndexOf(s1, '.') == 1;
    assert SplitAll(s1, '.') == [[x], [y], s3];
    assert IsNumbers(s1);
    BareVersionCapturedWhole(s1);
  }

  lemma VersionCaptureNumbers()
    ensures VersionCapture("1.2.3") == Some("1.2.3")
  {
    ThreeDigitVersion('1', '2', '3');
  }

  // ---------------------------------------------------------------- jar filename suffix

  /** A JAR_FILENAME_VERSION_SUFFIX match can start at p: stem[p] is '-' and the rest
      of the stem is a version with optional classifiers. */
  predicate SuffixAt(stem: string, p: nat) {
    p < |stem| && stem[p] == '-' && IsVersionWithClassifiers(stem[p + 1..])
  }

  /** The first start position p >= from of a JAR_FILENAME_VERSION_SUFFIX match in
      the stem. */
  function SuffixFrom(stem: string, from: nat): (r: Option<nat>)
    requires from <= |stem|
    ensures r.Some? ==> from <= r.value && SuffixAt(stem, r.value)
    ensures forall p :: from <= p < |stem| && (r.None? || p < r.value) ==> !SuffixAt(stem, p)
    decreases |stem| - from
  {
    if from == |stem| then None
    else if SuffixAt(stem, from) then Some(from)
    else SuffixFrom(stem, from + 1)
  }

  /** Matcher.find of JAR_FILENAME_VERSION_SUFFIX: the leftmost '-' from which the
      suffix pattern reaches the end, with its "version" capture. */
  function JarFilenameVersionSuffix(stem: string): (r: Option<(nat, string)>)
    ensures r.Some? ==> (r.value.0 < |stem| && stem[r.value.0] == '-'
                         && VersionCapture(stem[r.value.0 + 1..]) == Some(r.value.1))
    ensures r.Some? ==> forall p :: 0 <= p < r.value.0 ==> !SuffixAt(stem, p)
    ensures r.None? ==> forall p :: 0 <= p < |stem| ==> !SuffixAt(stem, p)
  {
    var p := SuffixFrom(stem, 0);
    if p.Some? then Some((p.value, VersionCapture(stem[p.value + 1..]).value)) else None
  }

  /** A suffix match puts the stem back together: the part before the '-' at p, the
      '-', the version captured after it, then a classifier tail (possibly empty).
      JarFilenameVersionSuffix's result meets the requirement. */
  lemma SuffixRecomposes(stem: string, p: nat, v: string)
    requires p < |stem| && stem[p] == '-' && VersionCapture(stem[p + 1..]) == Some(v)
    ensures StartsWith(stem, stem[..p] + "-" + v) && IsVersion(v)
    ensures OptSepClassifiers(stem[p + 1 + |v|..])
  {
    var tail := stem[p + 1..];
    CaptureFacts(tail, v);
    Recompose(stem, p, v);
  }

  lemma CaptureFacts(s: string, v: string)
    requires VersionCapture(s) == Some(v)
    ensures IsVersion(v) && StartsWith(s, v) && OptSepClassifiers(s[|v|..])
  {
  }

  lemma Recompose(stem: string, p: nat, v: string)
    requires p < |stem| && stem[p] == '-' && StartsWith(stem[p + 1..], v)
    ensures StartsWith(stem, stem[..p] + "-" + v)
    ensures stem[p + 1 + |v|..] == stem[p + 1..][|v|..]
  {
    var n := p + 1 + |v|;
    assert stem[p + 1..n] == v;
    assert stem[..n] == stem[..p] + [stem[p]] + stem[p + 1..n];
  }

  // ---------------------------------------------------------------- user input validation

  datatype Pattern = GroupIdPattern | ArtifactIdLikePattern | VersionWithOptionalClassifiersPattern

  /** Regex.getPatternForUserInputValidation. */
  function PatternForUserInputValidation(c: Component): (p: Pattern)
    ensures c == GroupId <==> p == GroupIdPattern
    ensures c == ArtifactId <==> p == ArtifactIdLikePattern
    ensures c == Version <==> p == VersionWithOptionalClassifiersPattern
  {
    match c
    case GroupId => GroupIdPattern
    case ArtifactId => ArtifactIdLikePattern
    case Version => VersionWithOptionalClassifiersPattern
  }

  /** Matcher.find of an anchored pattern: the whole string matches. */
  predicate Matches(p: Pattern, s: string) {
    match p
    case GroupIdPattern => IsGroupId(s)
    case ArtifactIdLikePattern => IsArtifactIdLike(s)
    case VersionWithOptionalClassifiersPattern => IsVersionWithClassifiers(s)
  }

  // ---------------------------------------------------------------- package candidates and leaf

  /** CandidateExtractionHelper.getPackageCandidates: the first two, three and four
      dot-separated parts, as far as they exist; nothing for fewer than two parts. */
  function PackageCandidates(pkg: string): (r: seq<string>)
    ensures var parts := JavaSplit(pkg, '.');
      (|parts| < 2 ==> r == [])
      && (|parts| >= 2 ==> |r| == (if |parts| >= 4 then 3 else |parts| - 1))
      && forall i :: 0 <= i < |r| ==> r[i] == Join(parts[..i + 2], ".")
  {
    CandidatesOfParts(JavaSplit(pkg, '.'))
  }

  /** getPackageCandidates on the package already split at its dots. */
  function CandidatesOfParts(parts: seq<string>): (r: seq<string>)
    ensures |parts| < 2 ==> r == []
    ensures |parts| >= 2 ==> |r| == (if |parts| >= 4 then 3 else |parts| - 1)
    ensures forall i :: 0 <= i < |r| ==> r[i] == Join(parts[..i + 2], ".")
  {
    if |parts| < 2 then []
    else
      var two := parts[0] + "." + parts[1];
      var three := two + "." + (if |parts| > 2 then parts[2] else "");
      var four := three + "." + (if |parts| > 3 then parts[3] else "");
      assert Join(parts[..2], ".") == two by {
        assert parts[..2] == [parts[0], parts[1]];
      }
      if |parts| > 2 then
        assert Join(parts[..3], ".") == three by {
          JoinNext(parts, 2);
        }
        if |parts| > 3 then
          assert Join(parts[..4], ".") == four by {
            JoinNext(parts, 3);
          }
          [two, three, four]
        else [two, three]
      else [two]
  }

  /** Joining one more leading part appends the separator and that part. */
  lemma JoinNext(parts: seq<string>, n: nat)
    requires 1 <= n < |parts|
    ensures Join(parts[..n + 1], ".") == Join(parts[..n], ".") + "." + parts[n]
  {
    JoinSnoc(parts[..n], parts[n], ".");
    assert parts[..n] + [parts[n]] == parts[..n + 1];
  }

  /** Each package candidate is a prefix of the package that ends where a dot
      follows or at the package's end, and candidates grow strictly in length. */
  lemma PackageCandidatesArePrefixes(pkg: string)
    ensures var r := PackageCandidates(pkg);
      forall i :: 0 <= i < |r| ==>
        StartsWith(pkg, r[i]) && (|r[i]| < |pkg| ==> pkg[|r[i]|] == '.')
    ensures var r := PackageCandidates(pkg);
      forall i :: 0 <= i < |r| - 1 ==> |r[i]| < |r[i + 1]|
  {
    var r := PackageCandidates(pkg);
    var parts := JavaSplit(pkg, '.');
    if |parts| >= 2 {
      assert '.' in pkg;
      var all := SplitAll(pkg, '.');
      assert parts == all[..|parts|];
      forall i | 0 <= i < |r|
        ensures StartsWith(pkg, r[i]) && (|r[i]| < |pkg| ==> pkg[|r[i]|] == '.')
      {
        CandidatePrefix(pkg, parts, r[i], i + 2);
      }
      forall i | 0 <= i < |r| - 1
        ensures |r[i]| < |r[i + 1]|
      {
        CandidateGrows(parts, r[i], r[i + 1], i + 2);
      }
    }
  }

  /** Joining a leading run of the split pieces gives a prefix ending before a dot. */
  lemma CandidatePrefix(pkg: string, parts: seq<string>, c: string, n: nat)
    requires 1 <= n <= |parts| <= |SplitAll(pkg, '.')| && parts == SplitAll(pkg, '.')[..|parts|]
    requires c == Join(parts[..n], ".")
    ensures StartsWith(pkg, c) && (|c| < |pkg| ==> pkg[|c|] == '.')
  {
    var all := SplitAll(pkg, '.');
    JoinPrefixOfSplitAll(pkg, '.', n);
    assert parts[..n] == all[..n];
    assert c == Join(all[..n], ['.']);
  }

  /** Joining one more piece makes a strictly longer string. */
  lemma CandidateGrows(parts: seq<string>, c: string, d: string, n: nat)
    requires 1 <= n < |parts| && c == Join(parts[..n], ".") && d == Join(parts[..n + 1], ".")
    ensures |c| < |d|
  {
    JoinSnoc(parts[..n], parts[n], ".");
    assert parts[..n] + [parts[n]] == parts[..n + 1];
  }

  lemma {:induction false} JoinSnoc(parts: seq<string>, x: string, sep: string)
    requires |parts| >= 1
    ensures Join(parts + [x], sep) == Join(parts, sep) + sep + x
    decreases |parts|
  {
    if |parts| == 1 {
      assert parts + [x] == [parts[0], x];
    } else {
      assert (parts + [x])[1..] == parts[1..] + [x];
      JoinSnoc(parts[1..], x, sep);
    }
  }

  /** CandidateExtractionHelper.getPackageLeaf: the last dot-separated part; None
      stands for the index exception when splitting leaves no part at all (a string
      of dots only). */
  function PackageLeaf(pkg: string): (r: Option<string>)
    ensures var parts := JavaSplit(pkg, '.');
      (r.None? <==> |parts| == 0) && (r.Some? ==> r.value == parts[|parts| - 1])
    ensures r.Some? ==> '.' !in r.value
  {
    var parts := JavaSplit(pkg, '.');
    if |parts| == 0 then None else Some(parts[|parts| - 1])
  }

  /** A package has no empty parts, so its leaf is its last part, which is a suffix
      of the package and a subpackage. */
  lemma PackageLeafOfPackage(pkg: string)
    requires IsPackage(pkg)
    ensures var all := SplitAll(pkg, '.');
      PackageLeaf(pkg) == Some(all[|all| - 1]) && IsSubpackage(all[|all| - 1])
    ensures JavaSplit(pkg, '.') == SplitAll(pkg, '.')
  {
    var all := SplitAll(pkg, '.');
    assert all[|all| - 1] != "";
    if '.' in pkg {
      assert DropTrailingEmpty(all) == all;
    }
  }

  /** A package has no empty parts, so its candidates are the prefixes made of its
      first two, three and four parts. */
  lemma PackageCandidatesOfPackage(pkg: string)
    requires IsPackage(pkg)
    ensures var all := SplitAll(pkg, '.'); var r := PackageCandidates(pkg);
      |r| == (if |all| < 2 then 0 else if |all| >= 4 then 3 else |all| - 1)
      && forall i :: 0 <= i < |r| ==> r[i] == Join(all[..i + 2], ".")
  {
    PackageLeafOfPackage(pkg);
  }
}
