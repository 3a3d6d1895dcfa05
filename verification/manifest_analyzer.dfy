/** ManifestAnalyzer: version candidates from "...Version" attributes and
    groupId/artifactId candidates from six identity attributes of a jar manifest.
    Manifest parsing itself is not modelled: a manifest is its main section and its
    per-path sections, each a sequence of (name, value) attributes. */
module ManifestAnalyzer {
  import opened Wrappers
  import opened Text
  import opened MavenUid
  import opened Helper
  import opened ValueCandidate

  datatype Attribute = Attribute(name: string, value: string)

  datatype Manifest = Manifest(main: seq<Attribute>, entries: seq<seq<Attribute>>)

  // ---------------------------------------------------------------- version attributes

  const SpecificationVersion: string := "Specification-Version"

  /** Attribute names ending in "Version" that do not name the artifact's version. */
  predicate IsExcludedVersionAttribute(name: string) {
    name == "Ant-Version" || name == "Manifest-Version"
    || name == "Bundle-ManifestVersion" || name == "Archiver-Version"
  }

  predicate IsVersionAttribute(name: string) {
    EndsWith(name, "Version") && !IsExcludedVersionAttribute(name)
  }

  /** The excluded names do end in "Version": exactly the exclusion keeps them out;
      the specification and implementation versions are version attributes. */
  lemma VersionAttributeNames(name: string)
    ensures IsExcludedVersionAttribute(name) ==> EndsWith(name, "Version") && !IsVersionAttribute(name)
    ensures IsVersionAttribute("Specification-Version") && IsVersionAttribute("Implementation-Version")
    ensures !IsVersionAttribute("Version-Info")
  {
    ExcludedEndInVersion(name);
    SpecificationAndImplementation();
    assert "Version-Info"[5..] != "Version" by {
      assert "Version-Info"[5] != 'V';
    }
  }

  lemma ExcludedEndInVersion(name: string)
    ensures IsExcludedVersionAttribute(name) ==> EndsWith(name, "Version")
  {
    if name == "Ant-Version" {
      EndsInVersion("Ant-", name);
    } else if name == "Manifest-Version" {
      EndsInVersion("Manifest-", name);
    } else if name == "Archiver-Version" {
      EndsInVersion("Archiver-", name);
    } else if name == "Bundle-ManifestVersion" {
      EndsInVersion("Bundle-Manifest", name);
    }
  }

  lemma EndsInVersion(prefix: string, name: string)
    requires name == prefix + "Version"
    ensures EndsWith(name, "Version")
  {
    assert name[|prefix|..] == "Version";
  }

  lemma SpecificationAndImplementation()
    ensures IsVersionAttribute("Specification-Version") && IsVersionAttribute("Implementation-Version")
  {
    var spec, impl := "Specification-Version", "Implementation-Version";
    assert spec[14..] == "Version" && impl[15..] == "Version";
    assert spec[0] != 'A' && spec[0] != 'M' && spec[0] != 'B';
    assert impl[0] != 'A' && impl[0] != 'M' && impl[0] != 'B';
  }

  function SourceDetail(name: string, value: string): string {
    name + ": '" + value + "'"
  }

  /** The candidates of one version attribute with trimmed value v: the captured
      version (3, or 1 when classifiers follow), and with classifiers also the whole
      value (1); Specification-Version scores one less. */
  function VersionCandidates(name: string, v: string): (r: seq<Emitted>)
    ensures forall i :: 0 <= i < |r| ==> r[i].component == Version && r[i].detail == SourceDetail(name, v)
    ensures !IsVersionWithClassifiers(v) ==> r == []
    ensures IsVersion(v) ==>
      r == [Emitted(Version, Some(v), if name == SpecificationVersion then 2 else 3, SourceDetail(name, v))]
    ensures IsVersionWithClassifiers(v) && !IsVersion(v) ==>
      |r| == 2 && r[0].value == VersionCapture(v) && r[1].value == Some(v) && r[0].value != r[1].value
      && r[0].score == r[1].score == (if name == SpecificationVersion then 0 else 1)
  {
    VersionCaptureOfVersion(v);
    CapturedCandidates(name, v, VersionCapture(v))
  }

  /** The candidates for the version captured from v, if any. */
  function CapturedCandidates(name: string, v: string, capture: Option<string>): (r: seq<Emitted>)
    ensures forall i :: 0 <= i < |r| ==> r[i].component == Version && r[i].detail == SourceDetail(name, v)
    ensures capture.None? <==> r == []
    ensures capture == Some(v) ==> |r| == 1 && r[0].value == Some(v)
    ensures capture.Some? && capture.value != v ==> |r| == 2 && r[0].value == capture && r[1].value == Some(v)
  {
    match capture
    case None => []
    case Some(version) =>
      var hasClassifiers := version != v;
      var lower := if name == SpecificationVersion then 1 else 0;
      var src := SourceDetail(name, v);
      [Emitted(Version, Some(version), (if hasClassifiers then 1 else 3) - lower, src)]
      + (if hasClassifiers then [Emitted(Version, Some(v), 1 - lower, src)] else [])
  }

  lemma VersionCaptureOfVersion(v: string)
    ensures IsVersion(v) ==> VersionCapture(v) == Some(v)
  {
    if IsVersion(v) {
      BareVersionCapturedWhole(v);
    }
  }

  // ---------------------------------------------------------------- identity attributes

  datatype Identity = ExtensionName | ImplementationTitle | ImplementationVendorId
                    | AutomaticModuleName | BundleSymbolicName | MainClass

  /** Attribute.toString: the enum name with '_' shown as '-'. */
  function IdentityName(a: Identity): string {
    match a
    case ExtensionName => "Extension-Name"
    case ImplementationTitle => "Implementation-Title"
    case ImplementationVendorId => "Implementation-Vendor-Id"
    case AutomaticModuleName => "Automatic-Module-Name"
    case BundleSymbolicName => "Bundle-SymbolicName"
    case MainClass => "Main-Class"
  }

  /** Attribute.stringValues.contains + Attribute.fromString (exact, case-sensitive). */
  function IdentityOf(name: string): (r: Option<Identity>)
    ensures r.None? ==> forall a :: IdentityName(a) != name
    ensures r.Some? ==> IdentityName(r.value) == name
  {
    if name == "Extension-Name" then Some(ExtensionName)
    else if name == "Implementation-Title" then Some(ImplementationTitle)
    else if name == "Implementation-Vendor-Id" then Some(ImplementationVendorId)
    else if name == "Automatic-Module-Name" then Some(AutomaticModuleName)
    else if name == "Bundle-SymbolicName" then Some(BundleSymbolicName)
    else if name == "Main-Class" then Some(MainClass)
    else None
  }

  /** No identity attribute is a version attribute. */
  lemma IdentityIsNoVersionAttribute(a: Identity)
    ensures !IsVersionAttribute(IdentityName(a))
  {
  }

  datatype Scored = Scored(value: string, confidence: int)

  /** The extractors of the two tables, with their confidences. */
  datatype Extractor =
    | PackageWithOptionalClassX(exact: int, sub: int)
    | ArtifactIdOrPackageLeafX(artifact: int, leaf: int)
    | PackageLeafX(leaf: int)
    | PackageLeafOrArtifactLeafX(leaf: int)

  /** groupIdExtractors: every identity attribute, with (exact, sub-pattern). */
  function GroupIdExtractor(a: Identity): (x: Extractor)
    ensures x.PackageWithOptionalClassX?
  {
    match a
    case ExtensionName => PackageWithOptionalClassX(4, 2)
    case ImplementationTitle => PackageWithOptionalClassX(4, 2)
    case ImplementationVendorId => PackageWithOptionalClassX(6, 4)
    case AutomaticModuleName => PackageWithOptionalClassX(2, 4)
    case BundleSymbolicName => PackageWithOptionalClassX(2, 4)
    case MainClass => PackageWithOptionalClassX(2, 2)
  }

  /** artifactIdExtractors: Main-Class has none. */
  function ArtifactIdExtractor(a: Identity): (x: Option<Extractor>)
    ensures x.None? <==> a == MainClass
    ensures x.Some? ==> !x.value.PackageWithOptionalClassX?
  {
    match a
    case ExtensionName => Some(ArtifactIdOrPackageLeafX(8, 2))
    case ImplementationTitle => Some(ArtifactIdOrPackageLeafX(4, 2))
    case ImplementationVendorId => Some(PackageLeafX(1))
    case AutomaticModuleName => Some(PackageLeafX(4))
    case BundleSymbolicName => Some(PackageLeafOrArtifactLeafX(2))
    case MainClass => None
  }

  /** extractPattern_PackageWithOptionalClass: the package of a strict
      package-with-optional-class match, cut to its 2-, 3- and 4-part prefixes;
      a prefix equal to the whole value scores `exact`, the others `sub`. */
  function ExtractPackagePrefixes(v: string, exact: int, sub: int): (r: seq<Scored>)
    ensures PackageWithOptionalClass(v, true).None? ==> r == []
    ensures |r| <= 3
    ensures forall i :: 0 <= i < |r| ==>
      IsPackage2(r[i].value) && StartsWith(v, r[i].value) && (|r[i].value| < |v| ==> v[|r[i].value|] == '.')
      && r[i].confidence == (if r[i].value == v then exact else sub)
    ensures forall i :: 0 <= i < |r| - 1 ==> |r[i].value| < |r[i + 1].value|
    ensures PackageWithOptionalClass(v, true).Some? ==>
      var parts := SplitAll(PackageWithOptionalClass(v, true).value, '.');
      |r| == (if |parts| >= 4 then 3 else |parts| - 1)
      && forall i :: 0 <= i < |r| ==> r[i].value == Join(parts[..i + 2], ".")
  {
    match PackageWithOptionalClass(v, true)
    case None => []
    case Some(pkg) =>
      CandidatesOfMatch(v, pkg);
      PackageCandidatesOfPackage(pkg);
      ScoreCandidates(PackageCandidates(pkg), v, exact, sub)
  }

  /** The package candidates of a matched package are strict packages and
      dot-bounded prefixes of the matched value. */
  lemma CandidatesOfMatch(v: string, pkg: string)
    requires PackageWithOptionalClass(v, true) == Some(pkg)
    ensures var cs := PackageCandidates(pkg);
      |cs| <= 3
      && (forall i :: 0 <= i < |cs| ==>
            IsPackage2(cs[i]) && StartsWith(v, cs[i]) && (|cs[i]| < |v| ==> v[|cs[i]|] == '.'))
      && (forall i :: 0 <= i < |cs| - 1 ==> |cs[i]| < |cs[i + 1]|)
  {
    assert IsPackage2(pkg) && StartsWith(v, pkg) && (|pkg| < |v| ==> v[|pkg|] == '.');
    CandidatesOfPackage(v, pkg);
  }

  lemma CandidatesOfPackage(v: string, pkg: string)
    requires IsPackage2(pkg) && StartsWith(v, pkg) && (|pkg| < |v| ==> v[|pkg|] == '.')
    ensures var cs := PackageCandidates(pkg);
      |cs| <= 3
      && (forall i :: 0 <= i < |cs| ==>
            IsPackage2(cs[i]) && StartsWith(v, cs[i]) && (|cs[i]| < |v| ==> v[|cs[i]|] == '.'))
      && (forall i :: 0 <= i < |cs| - 1 ==> |cs[i]| < |cs[i + 1]|)
  {
    var cs := PackageCandidates(pkg);
    PackageCandidatesArePrefixes(pkg);
    PackageCandidatesOfPackage(pkg);
    forall i | 0 <= i < |cs|
      ensures IsPackage2(cs[i]) && StartsWith(v, cs[i]) && (|cs[i]| < |v| ==> v[|cs[i]|] == '.')
    {
      OneCandidateOfPackage(v, pkg, cs[i], i + 2);
    }
  }

  lemma OneCandidateOfPackage(v: string, pkg: string, c: string, k: nat)
    requires IsPackage(pkg) && StartsWith(v, pkg) && (|pkg| < |v| ==> v[|pkg|] == '.')
    requires 2 <= k <= |SplitAll(pkg, '.')| && c == Join(SplitAll(pkg, '.')[..k], ".")
    requires StartsWith(pkg, c) && (|c| < |pkg| ==> pkg[|c|] == '.')
    ensures IsPackage2(c) && StartsWith(v, c) && (|c| < |v| ==> v[|c|] == '.')
  {
    PrefixPartsArePackage(pkg, k);
    PrefixOfPrefix(v, pkg, c);
  }

  function ScoreCandidates(cs: seq<string>, v: string, exact: int, sub: int): (r: seq<Scored>)
    ensures |r| == |cs|
    ensures forall i :: 0 <= i < |r| ==> r[i].value == cs[i] && r[i].confidence == (if cs[i] == v then exact else sub)
  {
    seq(|cs|, i requires 0 <= i < |cs| => Scored(cs[i], if cs[i] == v then exact else sub))
  }

  /** A dot-bounded prefix of a dot-bounded prefix is a dot-bounded prefix. */
  lemma PrefixOfPrefix(v: string, pkg: string, c: string)
    requires StartsWith(v, pkg) && (|pkg| < |v| ==> v[|pkg|] == '.')
    requires StartsWith(pkg, c) && (|c| < |pkg| ==> pkg[|c|] == '.')
    ensures StartsWith(v, c) && (|c| < |v| ==> v[|c|] == '.')
  {
    assert v[..|c|] == pkg[..|pkg|][..|c|];
    if |c| < |pkg| {
      assert v[|c|] == v[..|pkg|][|c|];
    }
  }

  /** Joining the first k >= 2 parts of a package gives a strict package. */
  lemma PrefixPartsArePackage(pkg: string, k: nat)
    requires IsPackage(pkg) && 2 <= k <= |SplitAll(pkg, '.')|
    ensures IsPackage2(Join(SplitAll(pkg, '.')[..k], "."))
  {
    var parts := SplitAll(pkg, '.')[..k];
    SplitJoin(parts);
  }

  /** Splitting a '.'-join of dot-free parts gives the parts back. */
  lemma {:induction false} SplitJoin(parts: seq<string>)
    requires |parts| >= 1 && forall i :: 0 <= i < |parts| ==> '.' !in parts[i]
    ensures SplitAll(Join(parts, "."), '.') == parts
    decreases |parts|
  {
    if |parts| == 1 {
      SplitAllNone(parts[0], '.');
    } else {
      var rest := parts[1..];
      assert forall i :: 0 <= i < |rest| ==> '.' !in rest[i] by {
        forall i | 0 <= i < |rest| ensures '.' !in rest[i] {
          assert rest[i] == parts[i + 1];
        }
      }
      SplitJoin(rest);
      assert Join(parts, ".") == parts[0] + ['.'] + Join(rest, ".");
      SplitAllCons(parts[0], Join(rest, "."), '.');
      assert [parts[0]] + rest == parts;
    }
  }

  /** extractPattern_PackageLeaf: the last part of the package of a strict
      package-with-optional-class match. */
  function ExtractPackageLeaf(v: string, leaf: int): (r: seq<Scored>)
    ensures PackageWithOptionalClass(v, true).None? <==> r == []
    ensures |r| <= 1
    ensures |r| == 1 ==> (IsSubpackage(r[0].value) && r[0].confidence == leaf
                          && r[0].value == PackageLeaf(PackageWithOptionalClass(v, true).value).value)
  {
    match PackageWithOptionalClass(v, true)
    case None => []
    case Some(pkg) =>
      PackageLeafOfPackage(pkg);
      [Scored(PackageLeaf(pkg).value, leaf)]
  }

  /** extractPattern_ArtifactIdOrPackageLeaf: a strict artifactId is taken whole,
      anything else falls back to the package leaf. */
  function ExtractArtifactIdOrPackageLeaf(v: string, artifact: int, leaf: int): (r: seq<Scored>)
    ensures IsArtifactIdStrict(v) ==> r == [Scored(v, artifact)]
    ensures !IsArtifactIdStrict(v) ==> r == ExtractPackageLeaf(v, leaf)
  {
    if IsArtifactIdStrict(v) then [Scored(v, artifact)] else ExtractPackageLeaf(v, leaf)
  }

  /** extractPattern_PackageLeafOrArtifactLeaf: the artifactId-like leaf after an
      optional package. */
  function ExtractArtifactIdLikeLeaf(v: string, leaf: int): (r: seq<Scored>)
    ensures |r| <= 1
    ensures |r| == 1 <==> IsArtifactIdLike(v)
    ensures |r| == 1 ==> IsArtifactIdLike(r[0].value) && EndsWith(v, r[0].value) && r[0].confidence == leaf
    ensures |r| == 1 ==> GreedyLeaf(v, r[0].value)
  {
    ArtifactIdLikeLeafMatches(v);
    match ArtifactIdLikeLeaf(v)
    case None => []
    case Some(l) =>
      ArtifactIdLikeLeafIsGreedy(v, l);
      [Scored(l, leaf)]
  }

  function RunExtractor(x: Extractor, v: string): seq<Scored> {
    match x
    case PackageWithOptionalClassX(exact, sub) => ExtractPackagePrefixes(v, exact, sub)
    case ArtifactIdOrPackageLeafX(artifact, leaf) => ExtractArtifactIdOrPackageLeaf(v, artifact, leaf)
    case PackageLeafX(leaf) => ExtractPackageLeaf(v, leaf)
    case PackageLeafOrArtifactLeafX(leaf) => ExtractArtifactIdLikeLeaf(v, leaf)
  }

  function ToEmitted(c: Component, xs: seq<Scored>, detail: string): (r: seq<Emitted>)
    ensures |r| == |xs|
    ensures forall i :: 0 <= i < |r| ==>
      r[i] == Emitted(c, Some(xs[i].value), xs[i].confidence, detail)
  {
    seq(|xs|, i requires 0 <= i < |xs| => Emitted(c, Some(xs[i].value), xs[i].confidence, detail))
  }

  /** The candidates of one identity attribute with trimmed value v: the groupId
      extractor first, then the artifactId extractor. */
  function IdentityCandidates(a: Identity, v: string): seq<Emitted> {
    var detail := SourceDetail(IdentityName(a), v);
    var groups := ToEmitted(GroupId, RunExtractor(GroupIdExtractor(a), v), detail);
    var artifacts := match ArtifactIdExtractor(a)
      case None => []
      case Some(x) => ToEmitted(ArtifactId, RunExtractor(x, v), detail);
    groups + artifacts
  }

  /** The candidates of one attribute; its value is trimmed first. */
  function AnalyzeAttribute(attr: Attribute): seq<Emitted> {
    var v := Trim(attr.value);
    if IsVersionAttribute(attr.name) then VersionCandidates(attr.name, v)
    else match IdentityOf(attr.name)
      case Some(a) => IdentityCandidates(a, v)
      case None => []
  }

  /** The candidates of one attribute section, attribute by attribute. */
  function AnalyzeSection(attrs: seq<Attribute>): seq<Emitted>
    decreases |attrs|
  {
    if |attrs| == 0 then [] else AnalyzeAttribute(attrs[0]) + AnalyzeSection(attrs[1..])
  }

  function AnalyzeSections(sections: seq<seq<Attribute>>): seq<Emitted>
    decreases |sections|
  {
    if |sections| == 0 then [] else AnalyzeSection(sections[0]) + AnalyzeSections(sections[1..])
  }

  /** The attributes of several sections, one section after the other. */
  function AllAttributes(sections: seq<seq<Attribute>>): seq<Attribute>
    decreases |sections|
  {
    if |sections| == 0 then [] else sections[0] + AllAttributes(sections[1..])
  }

  /** ManifestAnalyzer.analyze: nothing without a manifest; otherwise the main
      section, then every per-path section, under the same rules: the result is that
      of one section holding all their attributes in that order. */
  function Analyze(manifest: Option<Manifest>): (r: seq<Emitted>)
    ensures manifest.None? ==> r == []
    ensures manifest.Some? ==>
      r == AnalyzeSection(manifest.value.main + AllAttributes(manifest.value.entries))
  {
    match manifest
    case None => []
    case Some(m) =>
      SectionsFlatten(m.entries);
      AnalyzeSectionAppend(m.main, AllAttributes(m.entries));
      AnalyzeSection(m.main) + AnalyzeSections(m.entries)
  }

  /** Scanning sections one by one is scanning their attributes in one run. */
  lemma {:induction false} SectionsFlatten(sections: seq<seq<Attribute>>)
    ensures AnalyzeSections(sections) == AnalyzeSection(AllAttributes(sections))
    decreases |sections|
  {
    if |sections| > 0 {
      SectionsFlatten(sections[1..]);
      AnalyzeSectionAppend(sections[0], AllAttributes(sections[1..]));
    }
  }

  // ---------------------------------------------------------------- properties

  /** A version attribute only ever yields version candidates; any other attribute
      never yields one. */
  lemma AttributeComponents(attr: Attribute)
    ensures IsVersionAttribute(attr.name) ==>
      forall e :: e in AnalyzeAttribute(attr) ==> e.component == Version
    ensures !IsVersionAttribute(attr.name) ==>
      forall e :: e in AnalyzeAttribute(attr) ==> e.component != Version
  {
  }

  /** A section's candidates are the concatenation of its attributes' candidates, so
      splitting a section anywhere splits its candidates the same way. */
  lemma {:induction false} AnalyzeSectionAppend(a: seq<Attribute>, b: seq<Attribute>)
    ensures AnalyzeSection(a + b) == AnalyzeSection(a) + AnalyzeSection(b)
    decreases |a|
  {
    if |a| == 0 {
      assert a + b == b;
    } else {
      assert (a + b)[1..] == a[1..] + b;
      AnalyzeSectionAppend(a[1..], b);
    }
  }

  /** Every groupId a manifest yields is a package of at least two parts and a
      prefix of its attribute's trimmed value that ends at a dot or at the end. */
  lemma IdentityGroupIds(a: Identity, v: string)
    ensures forall e :: e in IdentityCandidates(a, v) && e.component == GroupId ==>
      e.value.Some? && IsPackage2(e.value.value) && StartsWith(v, e.value.value)
      && e.score == (if e.value.value == v then GroupIdExtractor(a).exact else GroupIdExtractor(a).sub)
  {
    var x := GroupIdExtractor(a);
    var xs := ExtractPackagePrefixes(v, x.exact, x.sub);
    var detail := SourceDetail(IdentityName(a), v);
    var groups := ToEmitted(GroupId, xs, detail);
    var artifacts := match ArtifactIdExtractor(a)
      case None => []
      case Some(y) => ToEmitted(ArtifactId, RunExtractor(y, v), detail);
    assert IdentityCandidates(a, v) == groups + artifacts;
    assert forall e :: e in artifacts ==> e.component == ArtifactId;
    EmittedPrefixes(xs, v, x.exact, x.sub, detail);
  }

  lemma EmittedPrefixes(xs: seq<Scored>, v: string, exact: int, sub: int, detail: string)
    requires forall i :: 0 <= i < |xs| ==>
      IsPackage2(xs[i].value) && StartsWith(v, xs[i].value) && xs[i].confidence == (if xs[i].value == v then exact else sub)
    ensures forall e :: e in ToEmitted(GroupId, xs, detail) ==>
      e.value.Some? && IsPackage2(e.value.value) && StartsWith(v, e.value.value)
      && e.score == (if e.value.value == v then exact else sub)
  {
    var groups := ToEmitted(GroupId, xs, detail);
    forall e | e in groups
      ensures e.value.Some? && IsPackage2(e.value.value) && StartsWith(v, e.value.value)
        && e.score == (if e.value.value == v then exact else sub)
    {
      var i :| 0 <= i < |groups| && groups[i] == e;
      assert e.value == Some(xs[i].value);
    }
  }

  /** Main-Class yields groupIds only. */
  lemma MainClassYieldsGroupIdsOnly(v: string)
    ensures forall e :: e in IdentityCandidates(MainClass, v) ==> e.component == GroupId
  {
  }

  /** A padded bare version in Implementation-Version becomes one trimmed version
      candidate of score 3. */
  lemma VersionAttributeExample()
    ensures AnalyzeAttribute(Attribute("Implementation-Version", " 1.2.3 ")) ==
      [Emitted(Version, Some("1.2.3"), 3, SourceDetail("Implementation-Version", "1.2.3"))]
  {
    var name := "Implementation-Version";
    TrimExample();
    ImplementationVersionIsVersionAttribute();
    VersionCandidatesExample();
    assert AnalyzeAttribute(Attribute(name, " 1.2.3 ")) == VersionCandidates(name, "1.2.3");
  }

  lemma ImplementationVersionIsVersionAttribute()
    ensures IsVersionAttribute("Implementation-Version")
  {
    var name := "Implementation-Version";
    assert name[|name| - 7..] == "Version";
  }

  lemma VersionCandidatesExample()
    ensures VersionCandidates("Implementation-Version", "1.2.3") ==
      [Emitted(Version, Some("1.2.3"), 3, SourceDetail("Implementation-Version", "1.2.3"))]
  {
    ThreeDigitVersion('1', '2', '3');
    assert "Implementation-Version" != SpecificationVersion;
  }

  lemma TrimExample()
    ensures Trim(" 1.2.3 ") == "1.2.3"
  {
    assert " 1.2.3 "[1..] == "1.2.3 ";
    assert TrimStart("1.2.3 ") == "1.2.3 ";
    assert TrimStart(" 1.2.3 ") == "1.2.3 ";
    assert "1.2.3 "[..5] == "1.2.3";
    assert TrimEnd("1.2.3") == "1.2.3";
    assert TrimEnd("1.2.3 ") == "1.2.3";
  }
}
