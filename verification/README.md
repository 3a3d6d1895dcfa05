# mavenizer analysis engine in Dafny

This project models the analysis core of the eitco mavenizer. Mavenizer takes
jars that come without Maven metadata and works out a Maven coordinate
(groupId, artifactId, version) for each of them. It then generates an install
script and a POM for the jars that are not on a remote repository yet.

The model covers these parts:

- **Coordinates and evidence** (`MavenUid`, `ValueCandidate`).
  A candidate value collects scored sources, and its `scoreSum` is the total of
  their scores.
- **Offline extractors.** Each is a pure function from one piece of evidence to a
  list of emitted `(component, value, score, detail)` tuples:
  - the manifest attributes (`ManifestAnalyzer`);
  - the jar file name (`JarFilenameAnalyzer`);
  - the embedded `pom.xml` / `pom.properties` files and their paths (`PomAnalyzer`);
  - the class-folder statistics (`ClassFilepathAnalyzer`);
  - the class-timestamp histogram (`ClassTimestampAnalyzer`);
  - the Apache Commons rule (`PostAnalyzer`).
- **Patterns.** The regular expressions of `Helper.Regex` are written as recogniser
  predicates and capture functions (`Helper`).
- **Offline analysis of one jar** (`JarAnalyzer`):
  - sorting the zip entries into classes, pom files and manifest;
  - merging every extractor's output into one candidate pool per component;
  - ranking each pool by score sum and each candidate's sources by score.
- **Online decision logic** (`OnlineAnalyzer`):
  - the bounded combinations of top candidates that are looked up;
  - how a downloaded jar is classified against the local one;
  - stopping at the first exact jar match;
  - sampling the newest and the oldest published version.
- **Selection rules** (`Analyzer`):
  - automatic selection when exactly one exact jar match exists;
  - the proposal lists;
  - the interpretation of console input lines;
  - the manifest fallback.
- **Utilities** (`Util`, `StringUtil`) and the install-script and POM text builders
  (`Generator`).

Everything is immutable datatypes and pure functions. Three members are methods
with loops: `Util.SubList`, `Util.Sha256` and
`OnlineAnalyzer.SearchVersionsAndFindJars`.

Some things are passed in as function-typed parameters:

- the remote repository, as `resolve` and `listVersions`;
- SHA-256 and Base64;
- the manifest, POM XML and properties parsers;
- the date formatter;
- path resolution.

Nullable Java strings are `Option<string>`. Java exceptions are `Failure` or
`None` results.

## Model

All source paths are under `src/main/java/de/eitco/mavenizer/`.

| member | source | states |
|---|---|---|
| MavenUid.New | src/main/java/de/eitco/mavenizer/MavenUid.java:26-35 | a new coordinate holds exactly the given groupId, artifactId and version, and its classifier is always the empty string |
| MavenUid.GetNew | src/main/java/de/eitco/mavenizer/MavenUid.java:37-44 | `get` returns the field named by the component: GROUP_ID the groupId, ARTIFACT_ID the artifactId, VERSION the version |
| MavenUid.GetDeterminesUid | src/main/java/de/eitco/mavenizer/MavenUid.java:37-44 | two coordinates with the same classifier are equal exactly when `get` agrees on all three components |
| MavenUid.Equals | src/main/java/de/eitco/mavenizer/MavenUid.java:56-66 | `equals` holds exactly when all four fields are null-safely equal, so it is an equivalence |
| MavenUid.ToInt32 | src/main/java/de/eitco/mavenizer/MavenUid.java:52-55 | Java int arithmetic: the result is the 32-bit two's-complement value congruent to its argument |
| MavenUid.StringHash | src/main/java/de/eitco/mavenizer/MavenUid.java:52-55 | String.hashCode of a string is a 32-bit int |
| MavenUid.StringHashIsPolynomial | src/main/java/de/eitco/mavenizer/MavenUid.java:52-55 | the hash is the 31-polynomial of the characters, sum of s[i]·31^(n-1-i), reduced to a 32-bit int: the wrap-around at every step does not change it modulo 2^32 |
| MavenUid.HashCode | src/main/java/de/eitco/mavenizer/MavenUid.java:52-55 | Objects.hash over artifactId, groupId, version and classifier yields a 32-bit int |
| MavenUid.EqualsConsistentWithHashCode | src/main/java/de/eitco/mavenizer/MavenUid.java:52-66 | coordinates that are `equals` have the same `hashCode` |
| MavenUid.ToString | src/main/java/de/eitco/mavenizer/MavenUid.java:46-51 | the rendering is "( g \| a \| v )", with `<unknown-version>` for a null version; the classifier part appears exactly when the classifier is not "" |
| ValueCandidate.SumScoresAppend | src/main/java/de/eitco/mavenizer/analyze/ValueCandidate.java:34-37 | the score total of two source lists joined is the sum of their totals |
| ValueCandidate.SumScoresPermutation | src/main/java/de/eitco/mavenizer/analyze/ValueCandidate.java:26-37 | source lists that are permutations of each other have the same score total |
| ValueCandidate.NewCandidate | src/main/java/de/eitco/mavenizer/analyze/ValueCandidate.java:26-33 | a new candidate has the given value, no sources and score sum 0, and satisfies the invariant score sum == total of source scores |
| ValueCandidate.AddSource | src/main/java/de/eitco/mavenizer/analyze/ValueCandidate.java:34-37 | `addSource` appends exactly the one source, raises the score sum by exactly its score, keeps the value and preserves the invariant |
| ValueCandidate.AddAllSpec | src/main/java/de/eitco/mavenizer/analyze/ValueCandidate.java:34-37 | adding a list of sources one by one appends them all in order and keeps the value and the invariant |
| ValueCandidate.ScoreSumOrderIndependent | src/main/java/de/eitco/mavenizer/analyze/ValueCandidate.java:26-37 | the score sum after adding any permutation of the same sources is the same: the total of their scores |
| ValueCandidate.SortSources | src/main/java/de/eitco/mavenizer/analyze/ValueCandidate.java:38-40 | `sortSources` permutes the sources into non-increasing score order and keeps value, score sum and invariant |
| Sorting.InsertSorted | src/main/java/de/eitco/mavenizer/analyze/JarAnalyzer.java:160-161 | inserting into a list sorted by descending key keeps it sorted |
| Sorting.SortDesc | src/main/java/de/eitco/mavenizer/analyze/JarAnalyzer.java:169-171 | the sort used for ranking returns a permutation of its input, sorted by non-increasing key |
| StringUtil.RightPad | src/main/java/de/eitco/mavenizer/StringUtil.java:8-15 | the result has length max(\|s\|, n), starts with s and has only spaces after it; s itself when \|s\| >= n |
| StringUtil.LeftPad | src/main/java/de/eitco/mavenizer/StringUtil.java:17-24 | the result has length max(\|s\|, n), ends with s and has only spaces before it; s itself when \|s\| >= n |
| StringUtil.PadIdempotent | src/main/java/de/eitco/mavenizer/StringUtil.java:8-24 | padding an already padded string to the same length changes nothing |
| Util.FilterAllPass | src/main/java/de/eitco/mavenizer/Util.java:134-141 | the filtered list is no longer than its input, holds only input items and only items the filter accepts |
| Util.FilterNone | src/main/java/de/eitco/mavenizer/Util.java:135 | a null filter accepts every item |
| Util.Limit | src/main/java/de/eitco/mavenizer/Util.java:134-141 | the number of kept items is maxCount when maxCount >= 1 and one otherwise, since the loop checks the count only after adding |
| Util.SubList | src/main/java/de/eitco/mavenizer/Util.java:128-143 | an empty list comes back as is; otherwise the result is the first min(limit, #passing) items that pass the filter, in original order |
| Util.FilterPrefix | src/main/java/de/eitco/mavenizer/Util.java:134-141 | filtering a prefix of the list yields a prefix of the filtered list |
| Util.ParsePath | src/main/java/de/eitco/mavenizer/Util.java:158 | an entry name becomes path elements that are non-empty and contain no '/' |
| Util.Sha256 | src/main/java/de/eitco/mavenizer/Util.java:146-174 | the jar digest is the Base64 of the digest of all entry bytes in entry order, and the class map is the reference map of class-entry digests |
| Util.LastClassEntry | src/main/java/de/eitco/mavenizer/Util.java:153-159 | the index of the last class entry with a given path, or -1 when there is none |
| Util.ClassDigestsLookup | src/main/java/de/eitco/mavenizer/Util.java:153-159 | the class map has a key exactly for the paths of entries whose lower-cased name ends in ".class"; its value is the digest of the last such entry's bytes |
| Util.NonClassEntryKeepsClassMap | src/main/java/de/eitco/mavenizer/Util.java:153-165 | a non-class entry adds its bytes to the whole-jar digest input and leaves the class map unchanged |
| Helper.StrictArtifactIdIsLike | src/main/java/de/eitco/mavenizer/analyze/jar/Helper.java:25-26 | every strict artifactId is artifactId-like |
| Helper.LikeIsWiderThanStrict | src/main/java/de/eitco/mavenizer/analyze/jar/Helper.java:25-26 | example: the like pattern admits '.' and uppercase letters and the strict one does not, shown on "log4j-1.2-api" and "Foo" |
| Helper.PackageFacts | src/main/java/de/eitco/mavenizer/analyze/jar/Helper.java:24-29 | a package of two or more segments is a package, and no package holds '-' or an uppercase letter |
| Helper.PackageWithOptionalClass | src/main/java/de/eitco/mavenizer/analyze/jar/Helper.java:36-40 | the package capture is a package of the requested strictness at the start of the value, followed by '.' and a class name when shorter; a whole package is captured whole; every package-dot-class split is captured |
| Helper.ArtifactIdLikeLeaf | src/main/java/de/eitco/mavenizer/analyze/jar/Helper.java:48-49 | the captured leaf is artifactId-like and ends the value |
| Helper.ArtifactIdLikeLeafMatches | src/main/java/de/eitco/mavenizer/analyze/jar/Helper.java:48-49 | the optional-package-with-leaf pattern matches exactly the artifactId-like values |
| Helper.ArtifactIdLikeLeafIsGreedy | src/main/java/de/eitco/mavenizer/analyze/jar/Helper.java:48-49 | the capture is x exactly when x is the greedy leaf: artifactId-like, behind a run of package segments, with no longer artifactId-like suffix behind such a run |
| Helper.LeafOfPackagedName | src/main/java/de/eitco/mavenizer/analyze/jar/Helper.java:48-49 | a package followed by '.' and an artifactId-like name without '.' captures that name |
| Helper.PackageDotIsRun | src/main/java/de/eitco/mavenizer/analyze/jar/Helper.java:47-48 | a package followed by '.' is a run of package segments |
| Helper.VersionCapture | src/main/java/de/eitco/mavenizer/analyze/jar/Helper.java:54-55 | the version capture is the longest version at the start of the value that the optional classifier tail completes; none when no split works |
| Helper.BareVersionCapturedWhole | src/main/java/de/eitco/mavenizer/analyze/jar/Helper.java:30-33 | a value that is a bare version is captured whole |
| Helper.VersionIsNoGroupId | src/main/java/de/eitco/mavenizer/analyze/jar/Helper.java:28-33 | no value is both a version with classifiers and a groupId |
| Helper.ThreeDigitVersion | src/main/java/de/eitco/mavenizer/analyze/jar/Helper.java:30-33 | example family: any "d.d.d" of three digits is a version and is captured whole |
| Helper.SuffixFrom | src/main/java/de/eitco/mavenizer/analyze/jar/Helper.java:51-52 | the first '-' at or after a position from which the version suffix reaches the end of the stem |
| Helper.JarFilenameVersionSuffix | src/main/java/de/eitco/mavenizer/analyze/jar/Helper.java:51-52 | the suffix match starts at the leftmost '-' from which a version and optional classifiers reach the end; none when no '-' works |
| Helper.SuffixRecomposes | src/main/java/de/eitco/mavenizer/analyze/jar/Helper.java:51-52 | the stem is the part before the match, then '-', then the captured version, then the classifier tail |
| Helper.PatternForUserInputValidation | src/main/java/de/eitco/mavenizer/analyze/jar/Helper.java:70-77 | GROUP_ID validates with the groupId pattern, ARTIFACT_ID with the like-artifactId pattern, VERSION with the version-with-classifiers pattern, and only these |
| Helper.PackageCandidates | src/main/java/de/eitco/mavenizer/analyze/jar/Helper.java:86-100 | no candidates for fewer than two segments; otherwise min(3, segments-1) candidates, the i-th joining the first i+2 segments |
| Helper.PackageCandidatesArePrefixes | src/main/java/de/eitco/mavenizer/analyze/jar/Helper.java:91-99 | every candidate is a prefix of the package ending at a '.' or at its end, and candidates strictly grow in length |
| Helper.PackageLeaf | src/main/java/de/eitco/mavenizer/analyze/jar/Helper.java:102-105 | the leaf is the last piece of the split, holds no '.', and is absent exactly when the split yields no piece (the index error) |
| Helper.PackageLeafOfPackage | src/main/java/de/eitco/mavenizer/analyze/jar/Helper.java:102-105 | the leaf of a package is its last segment, which is a sub-package name |
| Helper.PackageCandidatesOfPackage | src/main/java/de/eitco/mavenizer/analyze/jar/Helper.java:86-100 | for a package, the candidates are its first 2, 3 and 4 dot-separated parts joined by '.', in that order and as far as the package has that many parts; a one-part package gives none |
| ManifestAnalyzer.VersionCandidates | src/main/java/de/eitco/mavenizer/analyze/jar/ManifestAnalyzer.java:47-69 | a bare version yields one VERSION candidate scored 3; a value with classifiers yields the bare version and the whole value, scored 1 each; a non-version yields nothing; Specification-Version scores one less |
| ManifestAnalyzer.VersionAttributeNames | src/main/java/de/eitco/mavenizer/analyze/jar/ManifestAnalyzer.java:43 | the excluded names do end in "Version" and only the exclusion keeps them out; Specification-Version and Implementation-Version are version attributes |
| ManifestAnalyzer.IdentityOf | src/main/java/de/eitco/mavenizer/analyze/jar/ManifestAnalyzer.java:103-121 | an attribute name names an identity attribute exactly when its underscore-to-hyphen spelling matches |
| ManifestAnalyzer.IdentityIsNoVersionAttribute | src/main/java/de/eitco/mavenizer/analyze/jar/ManifestAnalyzer.java:43-71 | no identity attribute is a version attribute, so the two branches never overlap |
| ManifestAnalyzer.GroupIdExtractor | src/main/java/de/eitco/mavenizer/analyze/jar/ManifestAnalyzer.java:139-152 | every identity attribute has a package-prefix groupId extractor with its own (exact, sub-pattern) score pair |
| ManifestAnalyzer.ArtifactIdExtractor | src/main/java/de/eitco/mavenizer/analyze/jar/ManifestAnalyzer.java:154-165 | only Main-Class has no artifactId extractor, and no artifactId extractor is a package-prefix one |
| ManifestAnalyzer.ExtractPackagePrefixes | src/main/java/de/eitco/mavenizer/analyze/jar/ManifestAnalyzer.java:181-199 | nothing without a strict package; otherwise exactly the package's first 2, 3 and 4 parts, as far as they exist, in that order, each a prefix of the value ending at a '.', scored exact when it is the whole value and sub-pattern otherwise |
| ManifestAnalyzer.CandidatesOfMatch | src/main/java/de/eitco/mavenizer/analyze/jar/ManifestAnalyzer.java:187-197 | each candidate of the captured package is a package of two or more segments that prefixes the value at a '.' boundary |
| ManifestAnalyzer.ScoreCandidates | src/main/java/de/eitco/mavenizer/analyze/jar/ManifestAnalyzer.java:193-197 | each candidate keeps its place and is scored exact exactly when it equals the attribute value |
| ManifestAnalyzer.ExtractPackageLeaf | src/main/java/de/eitco/mavenizer/analyze/jar/ManifestAnalyzer.java:220-230 | one candidate, the leaf sub-package of the captured package, exactly when the value starts with a strict package |
| ManifestAnalyzer.ExtractArtifactIdOrPackageLeaf | src/main/java/de/eitco/mavenizer/analyze/jar/ManifestAnalyzer.java:206-215 | a strict artifactId is taken whole with the artifact score; anything else falls back to the package leaf |
| ManifestAnalyzer.ExtractArtifactIdLikeLeaf | src/main/java/de/eitco/mavenizer/analyze/jar/ManifestAnalyzer.java:236-245 | one candidate exactly when the value is artifactId-like; it is the greedy leaf: the longest artifactId-like suffix behind a run of package segments |
| ManifestAnalyzer.Analyze | src/main/java/de/eitco/mavenizer/analyze/jar/ManifestAnalyzer.java:21-33 | an absent manifest yields nothing; a present one yields the attribute-by-attribute analysis of the main section followed by every per-path section, in order |
| ManifestAnalyzer.SectionsFlatten | src/main/java/de/eitco/mavenizer/analyze/jar/ManifestAnalyzer.java:28-32 | analysing the sections one by one is analysing all their attributes in order |
| ManifestAnalyzer.AttributeComponents | src/main/java/de/eitco/mavenizer/analyze/jar/ManifestAnalyzer.java:43-99 | a version attribute yields only VERSION candidates and any other attribute never yields VERSION candidates |
| ManifestAnalyzer.AnalyzeSectionAppend | src/main/java/de/eitco/mavenizer/analyze/jar/ManifestAnalyzer.java:39-101 | attributes are analysed independently: a section's output is the concatenation of its attributes' outputs |
| ManifestAnalyzer.IdentityGroupIds | src/main/java/de/eitco/mavenizer/analyze/jar/ManifestAnalyzer.java:181-199 | every groupId from an identity attribute is a package of two or more segments that prefixes the trimmed value |
| ManifestAnalyzer.MainClassYieldsGroupIdsOnly | src/main/java/de/eitco/mavenizer/analyze/jar/ManifestAnalyzer.java:150-165 | Main-Class yields groupId candidates only |
| ManifestAnalyzer.VersionAttributeExample | src/main/java/de/eitco/mavenizer/analyze/jar/ManifestAnalyzer.java:43-60 | example: Implementation-Version " 1.2.3 " yields the single VERSION candidate "1.2.3" scored 3 |
| JarFilenameAnalyzer.Stem | src/main/java/de/eitco/mavenizer/analyze/jar/JarFilenameAnalyzer.java:16 | the stem is the file name up to its last '.', and none without a '.' (the substring error) |
| JarFilenameAnalyzer.Analyze | src/main/java/de/eitco/mavenizer/analyze/jar/JarFilenameAnalyzer.java:11-32 | with a version suffix: ARTIFACT_ID is the stem before the match and VERSION the captured version, both scored 6; otherwise only ARTIFACT_ID is the whole stem, scored 4; never a groupId; the detail is the quoted file name |
| JarFilenameAnalyzer.VersionedNameExample | src/main/java/de/eitco/mavenizer/analyze/jar/JarFilenameAnalyzer.java:18-28 | example: "widget-2.3.1.jar" yields artifactId "widget" and version "2.3.1", both scored 6 |
| JarFilenameAnalyzer.PlainNameExample | src/main/java/de/eitco/mavenizer/analyze/jar/JarFilenameAnalyzer.java:31 | example: "widget.jar" yields only artifactId "widget", scored 4 |
| PomAnalyzer.Add | src/main/java/de/eitco/mavenizer/analyze/jar/PomAnalyzer.java:105-106 | recording a (value, source) pair appends it to exactly one component and leaves the others unchanged |
| PomAnalyzer.FileTypeOf | src/main/java/de/eitco/mavenizer/analyze/jar/PomAnalyzer.java:79-91 | a file counts exactly when its name is exactly "pom.xml" or "pom.properties", and its type names that file |
| PomAnalyzer.XmlGroupId | src/main/java/de/eitco/mavenizer/analyze/jar/PomAnalyzer.java:119-122 | a missing pom.xml groupId falls back to the parent's groupId |
| PomAnalyzer.XmlVersion | src/main/java/de/eitco/mavenizer/analyze/jar/PomAnalyzer.java:120-126 | a missing pom.xml version falls back to the parent's version |
| PomAnalyzer.ContentRecords | src/main/java/de/eitco/mavenizer/analyze/jar/PomAnalyzer.java:111-139 | file contents add one content-sourced record per component: for pom.xml the groupId and version with their parent fallbacks and the artifactId without one, for pom.properties the value under each key or none; a parse error is a failure |
| PomAnalyzer.ScanFile | src/main/java/de/eitco/mavenizer/analyze/jar/PomAnalyzer.java:78-140 | other files change nothing; a pom file records path values for groupId and artifactId (absent once the path check has failed) and never for version |
| PomAnalyzer.ScanCorrectPath | src/main/java/de/eitco/mavenizer/analyze/jar/PomAnalyzer.java:74-99 | the path check stays true exactly while every pom file so far lies directly under META-INF/maven/groupId/artifactId |
| PomAnalyzer.VersionsFromContentOnly | src/main/java/de/eitco/mavenizer/analyze/jar/PomAnalyzer.java:104-138 | every version record comes from file content, never from a path |
| PomAnalyzer.DistinctValues | src/main/java/de/eitco/mavenizer/analyze/jar/PomAnalyzer.java:37-42 | the keys of the value map: each recorded value once |
| PomAnalyzer.EmitComponent | src/main/java/de/eitco/mavenizer/analyze/jar/PomAnalyzer.java:36-59 | when all records agree on one non-absent value it is emitted once, scored 10, with detail "pom.xml / pom.properties"; otherwise the candidates are, as a multiset, one per record with the record's value, score 2 and the record's source as detail |
| PomAnalyzer.AgreeIsSingleValue | src/main/java/de/eitco/mavenizer/analyze/jar/PomAnalyzer.java:37-42 | the records agree exactly when the value map has one key and it is not absent |
| PomAnalyzer.EmitGroupsIsLowConfidence | src/main/java/de/eitco/mavenizer/analyze/jar/PomAnalyzer.java:42-57 | emitting each value group of the map gives, as a multiset, exactly one score-2 candidate per record, carrying that record's value and source |
| PomAnalyzer.LowConfidenceWithValue | src/main/java/de/eitco/mavenizer/analyze/jar/PomAnalyzer.java:42-57 | the candidates of one value's sources are those of all records holding that value, each as often, and no others |
| PomAnalyzer.EmitComponentCounts | src/main/java/de/eitco/mavenizer/analyze/jar/PomAnalyzer.java:52-57 | when the sources disagree, each value, absent included, is emitted once per recorded source, each scored 2 |
| PomAnalyzer.Analyze | src/main/java/de/eitco/mavenizer/analyze/jar/PomAnalyzer.java:28-61 | no pom files yields nothing; otherwise a failure exactly when a file fails to parse, and the output is the groupId, then artifactId, then version candidates, each the emission rule applied to that component's records |
| PomAnalyzer.AnalyzeComponent | src/main/java/de/eitco/mavenizer/analyze/jar/PomAnalyzer.java:36-61 | for each component: agreeing records give exactly one score-10 candidate; otherwise every candidate scores 2 and each value is emitted as often as it was recorded |
| PomAnalyzer.AgreeingPomFiles | src/main/java/de/eitco/mavenizer/analyze/jar/PomAnalyzer.java:28-61 | pom files that all lie at META-INF/maven/g/a and all say g, a and v yield exactly g, a and v scored 10 each |
| PomAnalyzer.ScanAgreeing | src/main/java/de/eitco/mavenizer/analyze/jar/PomAnalyzer.java:74-139 | scanning files that all agree on g, a and v records only those values |
| PomAnalyzer.OtherFilesIgnored | src/main/java/de/eitco/mavenizer/analyze/jar/PomAnalyzer.java:79-91 | a file named anything else leaves the scan state unchanged |
| ClassFilepathAnalyzer.NewNode | src/main/java/de/eitco/mavenizer/analyze/jar/ClassFilepathAnalyzer.java:48-51 | a new folder node is well formed and counts no classes |
| ClassFilepathAnalyzer.FindChild | src/main/java/de/eitco/mavenizer/analyze/jar/ClassFilepathAnalyzer.java:68 | the index of the child with the given name, or -1 when there is none |
| ClassFilepathAnalyzer.Increment | src/main/java/de/eitco/mavenizer/analyze/jar/ClassFilepathAnalyzer.java:58-73 | counting one class keeps the node's path and name, raises its deep count by exactly one and keeps the tree well formed |
| ClassFilepathAnalyzer.DestinationStep | src/main/java/de/eitco/mavenizer/analyze/jar/ClassFilepathAnalyzer.java:59-72 | one step of the walk: the folder a relative path leads to is its first name followed by the folder the rest leads to, where a path of one name leads on with "." |
| ClassFilepathAnalyzer.IncrementDeepAt | src/main/java/de/eitco/mavenizer/analyze/jar/ClassFilepathAnalyzer.java:53-73 | counting a class adds one to the deep count of exactly the folders from the node down to the folder the relative path leads to (those missing are created with that count), and leaves every other folder's deep count as it was |
| ClassFilepathAnalyzer.BuildTreeDeepAt | src/main/java/de/eitco/mavenizer/analyze/jar/ClassFilepathAnalyzer.java:99-107 | in the built tree, the deep count at every path is the number of counted classes whose parent folder lies at or below that path |
| ClassFilepathAnalyzer.BuildTree | src/main/java/de/eitco/mavenizer/analyze/jar/ClassFilepathAnalyzer.java:99-107 | the folder tree of the class paths is well formed and rooted at "." |
| ClassFilepathAnalyzer.TotalIsCountedClasses | src/main/java/de/eitco/mavenizer/analyze/jar/ClassFilepathAnalyzer.java:100-111 | the root's deep count is the number of classes outside the jar root and outside META-INF/versions |
| ClassFilepathAnalyzer.Stats | src/main/java/de/eitco/mavenizer/analyze/jar/ClassFilepathAnalyzer.java:75-84 | a node's statistics end with its own deep count, no folder counts more, and every folder lies under the node |
| ClassFilepathAnalyzer.ChildStats | src/main/java/de/eitco/mavenizer/analyze/jar/ClassFilepathAnalyzer.java:77-81 | no child's statistic exceeds the children's total, and every one lies under the parent |
| ClassFilepathAnalyzer.StatsCount | src/main/java/de/eitco/mavenizer/analyze/jar/ClassFilepathAnalyzer.java:75-84 | every statistics entry a folder tree reports carries the deep count of the folder at its path |
| ClassFilepathAnalyzer.FolderInStats | src/main/java/de/eitco/mavenizer/analyze/jar/ClassFilepathAnalyzer.java:75-84 | every folder of the tree that holds a class has an entry with its deep count in the statistics |
| ClassFilepathAnalyzer.FolderCounts | src/main/java/de/eitco/mavenizer/analyze/jar/ClassFilepathAnalyzer.java:53-111 | for every entry x and every folder q: an entry x in the statistics of the built tree carries the number of counted classes at or below x.path, and q, when it holds at least one counted class, is listed with that number |
| ClassFilepathAnalyzer.ConfidenceRange | src/main/java/de/eitco/mavenizer/analyze/jar/ClassFilepathAnalyzer.java:129-130 | for a selected folder the confidence is 1 or 2, and it is 2 exactly when the folder holds at least 3/4 of the classes |
| ClassFilepathAnalyzer.DotSeparated | src/main/java/de/eitco/mavenizer/analyze/jar/ClassFilepathAnalyzer.java:131 | every '\\' and '/' becomes '.', and every other character stays |
| ClassFilepathAnalyzer.Selected | src/main/java/de/eitco/mavenizer/analyze/jar/ClassFilepathAnalyzer.java:110-119 | the surviving folders are exactly the non-root folders holding at least 60% of the classes, in non-increasing count order |
| ClassFilepathAnalyzer.SelectFolders | src/main/java/de/eitco/mavenizer/analyze/jar/ClassFilepathAnalyzer.java:112-119 | sorting and then filtering keeps exactly the high-ratio folders at depth >= 2, in non-increasing count order |
| ClassFilepathAnalyzer.KeepFiltered | src/main/java/de/eitco/mavenizer/analyze/jar/ClassFilepathAnalyzer.java:116-119 | the filter keeps exactly the high-ratio folders at depth >= 2 and preserves sortedness |
| ClassFilepathAnalyzer.CandidateOf | src/main/java/de/eitco/mavenizer/analyze/jar/ClassFilepathAnalyzer.java:124-141 | a candidate exactly when the folder's depth below the root lies between the minimum depth and 4 and its dotted path starts with a package; then one GROUP_ID candidate for that package, scored by the folder's share of the classes |
| ClassFilepathAnalyzer.CandidatesOf | src/main/java/de/eitco/mavenizer/analyze/jar/ClassFilepathAnalyzer.java:124-142 | the candidates are exactly those of the selected folders, one per admitted folder |
| ClassFilepathAnalyzer.CandidatesOfAppend | src/main/java/de/eitco/mavenizer/analyze/jar/ClassFilepathAnalyzer.java:124-142 | the candidates of two runs of folders are those of each run in turn |
| ClassFilepathAnalyzer.MinPathDepth | src/main/java/de/eitco/mavenizer/analyze/jar/ClassFilepathAnalyzer.java:122 | the minimum depth is 1 exactly when at most one folder is selected and 2 exactly when several are |
| ClassFilepathAnalyzer.Analyze | src/main/java/de/eitco/mavenizer/analyze/jar/ClassFilepathAnalyzer.java:96-143 | the candidates of the selected folders with the minimum depth 1 for a single folder and 2 otherwise; only GROUP_ID package candidates, none when no class is counted |
| ClassFilepathAnalyzer.SeveralFoldersNeedTwoLevels | src/main/java/de/eitco/mavenizer/analyze/jar/ClassFilepathAnalyzer.java:121-141 | with several selected folders each candidate comes from a folder at least two levels below the root |
| ClassFilepathAnalyzer.LoneFolderAdmitted | src/main/java/de/eitco/mavenizer/analyze/jar/ClassFilepathAnalyzer.java:121-141 | a single selected folder one level below the root whose name is a package yields exactly its candidate |
| ClassFilepathAnalyzer.NothingSelectedInEmptyTree | src/main/java/de/eitco/mavenizer/analyze/jar/ClassFilepathAnalyzer.java:114-119 | with no counted class no folder survives the ratio filter |
| ClassFilepathAnalyzer.IgnoredClass | src/main/java/de/eitco/mavenizer/analyze/jar/ClassFilepathAnalyzer.java:100-107 | a class at the jar root or under META-INF/versions changes neither the tree nor the output |
| ClassTimestampAnalyzer.Day | src/main/java/de/eitco/mavenizer/analyze/jar/ClassTimestampAnalyzer.java:28-29 | the UTC day of a timestamp is the day whose span contains it |
| ClassTimestampAnalyzer.DaysOf | src/main/java/de/eitco/mavenizer/analyze/jar/ClassTimestampAnalyzer.java:26-34 | one day per entry with a timestamp, so as many days as timestamps; each day is that of some timestamp and every timestamp's day is present |
| ClassTimestampAnalyzer.DaysOfStep | src/main/java/de/eitco/mavenizer/analyze/jar/ClassTimestampAnalyzer.java:26-34 | adding one more class keeps each day that of some timestamp and every timestamp's day present |
| ClassTimestampAnalyzer.DaysOfAppend | src/main/java/de/eitco/mavenizer/analyze/jar/ClassTimestampAnalyzer.java:26-34 | the days of two runs of classes are those of each run in turn, so entry order is kept |
| ClassTimestampAnalyzer.OccurrencesBounds | src/main/java/de/eitco/mavenizer/analyze/jar/ClassTimestampAnalyzer.java:26-34 | a day occurs at most total times, and zero times exactly when it is absent |
| ClassTimestampAnalyzer.Histogram | src/main/java/de/eitco/mavenizer/analyze/jar/ClassTimestampAnalyzer.java:23-34 | the histogram has each occurring day once, with its number of occurrences |
| ClassTimestampAnalyzer.Highest | src/main/java/de/eitco/mavenizer/analyze/jar/ClassTimestampAnalyzer.java:36-39 | the top entry is one of the histogram with a maximal count; none exactly for an empty histogram |
| ClassTimestampAnalyzer.MaxIsHighest | src/main/java/de/eitco/mavenizer/analyze/jar/ClassTimestampAnalyzer.java:36-43 | the chosen day occurs at least as often as any other day |
| ClassTimestampAnalyzer.ModeCandidate | src/main/java/de/eitco/mavenizer/analyze/jar/ClassTimestampAnalyzer.java:45-51 | the candidate is the day formatted as a VERSION, scored 1 exactly when its percentage exceeds 60 and 0 otherwise |
| ClassTimestampAnalyzer.PercentAbove60 | src/main/java/de/eitco/mavenizer/analyze/jar/ClassTimestampAnalyzer.java:47-51 | the integer percentage exceeds 60 exactly when 100·count >= 61·total |
| ClassTimestampAnalyzer.Analyze | src/main/java/de/eitco/mavenizer/analyze/jar/ClassTimestampAnalyzer.java:21-56 | at most one candidate, emitted exactly when some day occurs more than once, and it is the mode candidate of a most frequent day |
| ClassTimestampAnalyzer.MissingTimestampIgnored | src/main/java/de/eitco/mavenizer/analyze/jar/ClassTimestampAnalyzer.java:26-27 | an entry without a timestamp changes nothing |
| PostAnalyzer.SumCommonsScore | src/main/java/de/eitco/mavenizer/analyze/jar/PostAnalyzer.java:16-21 | the summed score of the groupIds starting with "org.apache.commons"; a failure exactly when a groupId value is null |
| PostAnalyzer.FirstMatch | src/main/java/de/eitco/mavenizer/analyze/jar/PostAnalyzer.java:23-29 | the first artifactId starting with "commons-" and scoring at least 4, none when there is none, a failure when a null value comes first |
| PostAnalyzer.Analyze | src/main/java/de/eitco/mavenizer/analyze/jar/PostAnalyzer.java:12-31 | nothing when the commons groupIds score below 4; otherwise the first commons-named artifactId scoring at least 4 becomes the one GROUP_ID candidate, scored 5, and none matching gives nothing; a failure exactly when a groupId value is null, or the score reaches 4 and a null artifactId comes before any match |
| JarAnalyzer.ReadJarEntry | src/main/java/de/eitco/mavenizer/analyze/JarAnalyzer.java:177-215 | directories yield nothing; pom files are buffered; class files are recorded with their creation time, or the modification time when there is none; only META-INF/MANIFEST.MF yields a manifest |
| JarAnalyzer.EntryKindsExclusive | src/main/java/de/eitco/mavenizer/analyze/JarAnalyzer.java:183-199 | no entry is two of pom file, class file and manifest |
| JarAnalyzer.FirstManifest | src/main/java/de/eitco/mavenizer/analyze/JarAnalyzer.java:219-225 | the index of the first manifest entry, or -1 when there is none |
| JarAnalyzer.ReadJarStream | src/main/java/de/eitco/mavenizer/analyze/JarAnalyzer.java:217-232 | the first manifest is kept and later ones ignored; the pom files and class files are exactly those of the entries, in entry order |
| JarAnalyzer.FoundOfSnoc | src/main/java/de/eitco/mavenizer/analyze/JarAnalyzer.java:183-199 | one more entry adds its own pom file and class file, if any, at the end |
| JarAnalyzer.ReadJarStreamSucceeds | src/main/java/de/eitco/mavenizer/analyze/JarAnalyzer.java:199-210 | reading fails exactly when some manifest entry does not parse |
| JarAnalyzer.Pool | src/main/java/de/eitco/mavenizer/analyze/JarAnalyzer.java:140-146 | the collected candidates are each emitted value once, holding exactly the sources emitted for it, with the score sum invariant |
| JarAnalyzer.ScoreSumIsEvidenceTotal | src/main/java/de/eitco/mavenizer/analyze/JarAnalyzer.java:140-146 | a collected candidate's score sum is the total score of the evidence emitted for its value |
| JarAnalyzer.SortEachSources | src/main/java/de/eitco/mavenizer/analyze/JarAnalyzer.java:167-170 | each candidate's sources are sorted, and candidates keep their places |
| JarAnalyzer.Rank | src/main/java/de/eitco/mavenizer/analyze/JarAnalyzer.java:160-172 | the ranked list is a permutation of the source-sorted candidates, in non-increasing score sum order |
| JarAnalyzer.ClassPaths | src/main/java/de/eitco/mavenizer/analyze/JarAnalyzer.java:148 | the paths of the class entries, in order |
| JarAnalyzer.ClassStamps | src/main/java/de/eitco/mavenizer/analyze/JarAnalyzer.java:149 | the timestamps of the class entries, in order |
| JarAnalyzer.Evidence | src/main/java/de/eitco/mavenizer/analyze/JarAnalyzer.java:148-152 | the evidence is in run order (class paths, timestamps, POM, manifest, file name) and each analyzer's part is exactly its output; a failure exactly when the POM analysis fails or the name has no extension |
| JarAnalyzer.JoinedBy | src/main/java/de/eitco/mavenizer/analyze/JarAnalyzer.java:148-152 | each analyzer's tagged evidence is found back whole in the joined evidence, and none is tagged POST |
| JarAnalyzer.AnalyzeOffline | src/main/java/de/eitco/mavenizer/analyze/JarAnalyzer.java:121-175 | success exactly when the stream reads, the POMs parse and the jar name has a '.'; the result keeps the first manifest and holds a well-ranked pool per component |
| JarAnalyzer.RankComponent | src/main/java/de/eitco/mavenizer/analyze/JarAnalyzer.java:163-172 | one component's output is well ranked with respect to the evidence |
| JarAnalyzer.RankAll | src/main/java/de/eitco/mavenizer/analyze/JarAnalyzer.java:154-174 | every component's output is well ranked, and the manifest is passed through |
| JarAnalyzer.RankIsWellRanked | src/main/java/de/eitco/mavenizer/analyze/JarAnalyzer.java:140-172 | the ranked pool has each emitted value exactly once, sorted by score sum, with sorted sources that are a permutation of the evidence for it |
| JarAnalyzer.RankedCandidates | src/main/java/de/eitco/mavenizer/analyze/JarAnalyzer.java:161-169 | every ranked candidate satisfies the invariant, and its sources are sorted and are a permutation of the evidence for its value |
| JarAnalyzer.RankedComplete | src/main/java/de/eitco/mavenizer/analyze/JarAnalyzer.java:163-171 | a value is ranked exactly when some evidence was emitted for it |
| JarAnalyzer.RankedDistinct | src/main/java/de/eitco/mavenizer/analyze/JarAnalyzer.java:163-171 | the ranked list holds each value once |
| OnlineAnalyzer.Shortlist | src/main/java/de/eitco/mavenizer/analyze/OnlineAnalyzer.java:54-60 | the first min(2, n) of the n candidates scoring at least the threshold of 1, in their ranked order |
| OnlineAnalyzer.Put | src/main/java/de/eitco/mavenizer/analyze/OnlineAnalyzer.java:84 | LinkedHashMap.put: a new key goes at the end, an existing key keeps its place with the new value, and keys stay distinct |
| OnlineAnalyzer.PutAll | src/main/java/de/eitco/mavenizer/analyze/OnlineAnalyzer.java:98-106 | putting entries adds exactly their keys, keeps the earlier keys in place and keeps keys distinct |
| OnlineAnalyzer.SelectCandidatesToCheck | src/main/java/de/eitco/mavenizer/analyze/OnlineAnalyzer.java:80-113 | at most 8 distinct coordinates, exactly those of the shortlisted combinations; the first one combines the top groupId, artifactId and version; the version is null only when no version is shortlisted |
| OnlineAnalyzer.SelectIsCombinations | src/main/java/de/eitco/mavenizer/analyze/OnlineAnalyzer.java:80-113 | when each list holds every value once no coordinate repeats, so the coordinates to check are exactly the combinations of the shortlists, in order |
| OnlineAnalyzer.CombinationEntries | src/main/java/de/eitco/mavenizer/analyze/OnlineAnalyzer.java:86-110 | the nested loops produce exactly the entries of every shortlisted group with every artifact and every version (or none when no version is shortlisted) |
| OnlineAnalyzer.CombinationsLength | src/main/java/de/eitco/mavenizer/analyze/OnlineAnalyzer.java:86-110 | one entry per group, artifact and version, or per group and artifact when no version is shortlisted |
| OnlineAnalyzer.CombinationAt | src/main/java/de/eitco/mavenizer/analyze/OnlineAnalyzer.java:86-110 | the combination of the i-th group, j-th artifact and k-th version (none when no version is shortlisted) sits at place (i·|artifacts| + j)·width + k |
| OnlineAnalyzer.PositionOrder | src/main/java/de/eitco/mavenizer/analyze/OnlineAnalyzer.java:86-110 | a lexicographically smaller (group, artifact, version) rank comes first |
| OnlineAnalyzer.CombinationsDistinct | src/main/java/de/eitco/mavenizer/analyze/OnlineAnalyzer.java:86-110 | distinct values in each list give distinct coordinates |
| OnlineAnalyzer.SelectFacts | src/main/java/de/eitco/mavenizer/analyze/OnlineAnalyzer.java:86-110 | for shortlists of at most two, the combination map is bounded by 8, covers every combination and starts with the first one |
| OnlineAnalyzer.SelectBound | src/main/java/de/eitco/mavenizer/analyze/OnlineAnalyzer.java:83 | at most 2·2·2 combinations are formed |
| OnlineAnalyzer.FirstCombination | src/main/java/de/eitco/mavenizer/analyze/OnlineAnalyzer.java:87-107 | the first combination is the top groupId, top artifactId and top version, or no version |
| OnlineAnalyzer.ClassHashesMatch | src/main/java/de/eitco/mavenizer/analyze/OnlineAnalyzer.java:189-202 | class digests match exactly when the two class maps are equal |
| OnlineAnalyzer.SameSizeSubset | src/main/java/de/eitco/mavenizer/analyze/OnlineAnalyzer.java:190-199 | a subset of the same size is the whole set, which turns the size check plus lookups into map equality |
| OnlineAnalyzer.Classify | src/main/java/de/eitco/mavenizer/analyze/OnlineAnalyzer.java:122-136 | unresolved is NOT_FOUND without URL; otherwise the URL is kept and the result is EXACT_SHA for an equal jar digest, else EXACT_CLASSES_SHA for equal class maps, else FOUND_NO_MATCH |
| OnlineAnalyzer.Probe | src/main/java/de/eitco/mavenizer/analyze/OnlineAnalyzer.java:119-147 | the loop from a given coordinate on returns all checks when none is an exact jar match, and otherwise only the first exact match |
| OnlineAnalyzer.FindJars | src/main/java/de/eitco/mavenizer/analyze/OnlineAnalyzer.java:115-150 | the checks of all coordinates in order when none matches the jar exactly; otherwise only the first exact match, resolving no later coordinate |
| OnlineAnalyzer.FindJarsChecksGivenUids | src/main/java/de/eitco/mavenizer/analyze/OnlineAnalyzer.java:119-146 | every reported check is of one of the given coordinates |
| OnlineAnalyzer.SelectVersionCandidates | src/main/java/de/eitco/mavenizer/analyze/OnlineAnalyzer.java:172-187 | an error for no versions; otherwise the first listed (newest) version and the last listed (oldest) one, once each when they coincide |
| OnlineAnalyzer.SearchVersionsAndFindJars | src/main/java/de/eitco/mavenizer/analyze/OnlineAnalyzer.java:152-170 | a failure exactly when a coordinate has a version or lacks groupId or artifactId; otherwise a result for exactly the coordinates with listed versions, each the checks of its sampled versions |
| OnlineAnalyzer.SearchedVersionsAreListed | src/main/java/de/eitco/mavenizer/analyze/OnlineAnalyzer.java:161-165 | every check reported for a coordinate is that coordinate with its newest or oldest listed version |
| Analyzer.ExactShaChecks | src/main/java/de/eitco/mavenizer/analyze/Analyzer.java:385-399 | the gathered checks are exactly the EXACT_SHA ones, each as often as it occurs |
| Analyzer.FlattenPermutation | src/main/java/de/eitco/mavenizer/analyze/Analyzer.java:393-399 | the iteration order of the version-less results does not change which checks they hold |
| Analyzer.AutoSelect | src/main/java/de/eitco/mavenizer/analyze/Analyzer.java:381-406 | a check is selected exactly when it is the only EXACT_SHA check among the with-version and all version-less checks; zero, two or more select nothing |
| Analyzer.SelectSole | src/main/java/de/eitco/mavenizer/analyze/Analyzer.java:400-405 | given the exact matches among some checks, the one and only exact match, or none |
| Analyzer.AutoSelectOrderIndependent | src/main/java/de/eitco/mavenizer/analyze/Analyzer.java:393-405 | auto selection does not depend on the order of the version-less map |
| Analyzer.OnlineProposal | src/main/java/de/eitco/mavenizer/analyze/Analyzer.java:414-420 | a check proposes its component value exactly when the value is set and the check found the same jar or the same classes |
| Analyzer.OfflineProposals | src/main/java/de/eitco/mavenizer/analyze/Analyzer.java:432-436 | exactly the offline candidates scoring at least 4 are proposed |
| Analyzer.CheckProposals | src/main/java/de/eitco/mavenizer/analyze/Analyzer.java:437-439 | exactly the values the online proposal rule admits from the checks |
| Analyzer.EntryProposals | src/main/java/de/eitco/mavenizer/analyze/Analyzer.java:440-448 | each version-less coordinate proposes its groupId or artifactId, never for the version, plus what its checks propose |
| Analyzer.Dedup | src/main/java/de/eitco/mavenizer/analyze/Analyzer.java:431 | LinkedHashSet insertion keeps the same values, each once |
| Analyzer.FirstIndex | src/main/java/de/eitco/mavenizer/analyze/Analyzer.java:431 | the position of a value's first occurrence |
| Analyzer.DedupOrder | src/main/java/de/eitco/mavenizer/analyze/Analyzer.java:431 | de-duplicated values keep the order of their first occurrences |
| Analyzer.DedupPrefix | src/main/java/de/eitco/mavenizer/analyze/Analyzer.java:431-448 | values inserted first keep their places when more are inserted |
| Analyzer.DedupDistinct | src/main/java/de/eitco/mavenizer/analyze/Analyzer.java:431 | a list without repetitions is kept as is |
| Analyzer.Proposals | src/main/java/de/eitco/mavenizer/analyze/Analyzer.java:411-448 | the proposals are distinct, are exactly the proposed values, and begin with the de-duplicated offline proposals |
| Analyzer.NoPairKeyForVersion | src/main/java/de/eitco/mavenizer/analyze/Analyzer.java:440-444 | a version proposal comes from an offline candidate or a matching check, never from a pair key |
| Analyzer.ParseInt | src/main/java/de/eitco/mavenizer/analyze/Analyzer.java:467 | Integer.parseInt succeeds exactly on an optional '+' or '-' followed by at least one ASCII digit whose signed value lies in the int range, and yields that value |
| Analyzer.ParseIntLeadingZero | src/main/java/de/eitco/mavenizer/analyze/Analyzer.java:467 | leading zeros do not change the result: "007" reads as "7" |
| Analyzer.ParseIntPlusSign | src/main/java/de/eitco/mavenizer/analyze/Analyzer.java:467 | an explicit '+' is accepted and ignored: "+5" reads as "5" |
| Analyzer.ParseIntSignEdges | src/main/java/de/eitco/mavenizer/analyze/Analyzer.java:467 | "-0" reads as 0, and a sign with no digit is rejected |
| Analyzer.DigitsValueOfNatToString | src/main/java/de/eitco/mavenizer/analyze/Analyzer.java:467 | reading back the decimal rendering of a number gives the number |
| Analyzer.ParseIntRoundTrip | src/main/java/de/eitco/mavenizer/analyze/Analyzer.java:467 | parsing the decimal rendering of any int gives that int |
| Analyzer.Selected | src/main/java/de/eitco/mavenizer/analyze/Analyzer.java:466-480 | "0!" skips; "k!" with k in range picks the k-th proposal; an out-of-range pick or a null proposal is a failure; anything else is taken literally |
| Analyzer.Interpret | src/main/java/de/eitco/mavenizer/analyze/Analyzer.java:464-489 | a trimmed line skips, crashes, or yields a value that is accepted exactly when it passes the component's validation pattern |
| Analyzer.ZeroSkips | src/main/java/de/eitco/mavenizer/analyze/Analyzer.java:466-471 | "0!" skips the jar whatever the proposals are |
| Analyzer.PickKth | src/main/java/de/eitco/mavenizer/analyze/Analyzer.java:466-474 | "k!" for 1 <= k <= the proposal count selects the k-th proposal |
| Analyzer.Steps | src/main/java/de/eitco/mavenizer/analyze/Analyzer.java:463-489 | each input line is interpreted on its own |
| Analyzer.AskFrom | src/main/java/de/eitco/mavenizer/analyze/Analyzer.java:461-489 | lines are read while they are rejected; the jar is skipped exactly when the first other line skips it, and when the first other line accepts a value the answer is that value with the lines after it remaining, and only then |
| Analyzer.Ask | src/main/java/de/eitco/mavenizer/analyze/Analyzer.java:461-489 | an answer passes the validation pattern and comes from the first accepted line; a skip happens exactly when a "0!" comes first |
| Analyzer.UserSelect | src/main/java/de/eitco/mavenizer/analyze/Analyzer.java:427-502 | groupId, artifactId and version are asked in this order, each from where the previous stopped; a coordinate exactly when all three are answered, built from the three answers; a skip of any of them skips the jar and running out of input fails |
| Analyzer.ThreeAcceptedLinesChoose | src/main/java/de/eitco/mavenizer/analyze/Analyzer.java:427-502 | whenever the three lines are each accepted for their component, the coordinate built from their three values is chosen, whatever input follows |
| Analyzer.RejectedGroupIdAskedAgain | src/main/java/de/eitco/mavenizer/analyze/Analyzer.java:463-491 | a groupId line that fails validation is reported and the groupId is asked again, so the outcome is that of the input after it |
| Analyzer.SkipFirstStopsAsking | src/main/java/de/eitco/mavenizer/analyze/Analyzer.java:491-500 | "0!" for the groupId skips the jar and nothing later is asked |
| Analyzer.ManifestFallback | src/main/java/de/eitco/mavenizer/analyze/Analyzer.java:517-523 | a manifest already found is kept; otherwise the first manually parsed manifest is taken |
| Analyzer.ReadJarStreamManifest | src/main/java/de/eitco/mavenizer/analyze/Analyzer.java:513-528 | the automatically parsed manifest is preferred; only when it is absent does the first manual one win |
| Generator.ScriptTypeOf | src/main/java/de/eitco/mavenizer/generate/Generator.java:34-35 | the script type with the given file extension, none when no type has it |
| Generator.FileExtensionsRoundTrip | src/main/java/de/eitco/mavenizer/generate/Generator.java:31-41 | "ps1" is the only extension, and it names POWERSHELL |
| Generator.ScriptLine | src/main/java/de/eitco/mavenizer/generate/Generator.java:140-151 | the command, -Dpackaging='jar' and -Dfile, then -DgroupId, -DartifactId and -Dversion one right after the other, the classifier argument if any, and the tail "; if (-not $?) {exit 1}" with a newline |
| Generator.ClassifierArgIff | src/main/java/de/eitco/mavenizer/generate/Generator.java:146-148 | the install line equals the line for the same coordinate without a classifier exactly when the classifier is unset or blank |
| Generator.NotFound | src/main/java/de/eitco/mavenizer/generate/Generator.java:135-136 | exactly the jars not found on a remote; a single jar is kept exactly when it is not found, and all are kept when none is found |
| Generator.ScriptLines | src/main/java/de/eitco/mavenizer/generate/Generator.java:135-153 | the i-th line is the install line of the i-th jar not found on a remote |
| Generator.Script | src/main/java/de/eitco/mavenizer/generate/Generator.java:127-165 | no jar to install gives an empty script; the install line of every jar not found on a remote occurs in it |
| Generator.ScriptOfOneJar | src/main/java/de/eitco/mavenizer/generate/Generator.java:135-153 | the script of one jar not on a remote is exactly its install line |
| Generator.ScriptLinesCover | src/main/java/de/eitco/mavenizer/generate/Generator.java:135-153 | every line belongs to a jar not found on a remote, and every such jar has its line |
| Generator.ScriptAppend | src/main/java/de/eitco/mavenizer/generate/Generator.java:135-153 | the script of concatenated reports is the concatenation of their scripts |
| Generator.NotFoundAppend | src/main/java/de/eitco/mavenizer/generate/Generator.java:135-136 | the jars not found of two report lists are those of each in turn, so report order is kept |
| Generator.FoundJarsOmitted | src/main/java/de/eitco/mavenizer/generate/Generator.java:136 | a jar found on a remote adds nothing to the script |
| Generator.ClassifierElementIff | src/main/java/de/eitco/mavenizer/generate/Generator.java:198-200 | the classifier element changes the dependency exactly when the classifier is set and not blank |
| Generator.Properties | src/main/java/de/eitco/mavenizer/generate/Generator.java:177-185 | one version property per jar, in report order |
| Generator.Dependencies | src/main/java/de/eitco/mavenizer/generate/Generator.java:187-202 | one dependency per jar, in report order |
| Generator.PomIgnoresFoundFlag | src/main/java/de/eitco/mavenizer/generate/Generator.java:187-202 | the POM depends only on the coordinates, so jars found on a remote are dependencies too |
| Generator.DependencyUsesProperty | src/main/java/de/eitco/mavenizer/generate/Generator.java:177-195 | each jar defines a version.artifactId property, and its dependency's version refers to it as ${version.artifactId} |
| Generator.Pom | src/main/java/de/eitco/mavenizer/generate/Generator.java:166-205 | the POM is the fixed header, the properties element holding every jar's version property line in report order, then the dependencies element holding every jar's dependency in report order, then the project end tag |
| Generator.PomSectionsAppend | src/main/java/de/eitco/mavenizer/generate/Generator.java:178-203 | the property and dependency sections of two lists of jars are those of each list in turn |
| Generator.PomSectionsOfOneJar | src/main/java/de/eitco/mavenizer/generate/Generator.java:178-203 | a single jar contributes exactly its property line and exactly its dependency |
| Generator.PomAppendJar | src/main/java/de/eitco/mavenizer/generate/Generator.java:166-205 | one more jar inserts its property line at the end of the properties and its dependency at the end of the dependencies, and changes nothing else |
| Generator.AllJars | src/main/java/de/eitco/mavenizer/generate/Generator.java:88-95 | empty exactly when every report is empty; a single report's jars unchanged |
| Generator.AllJarsAppend | src/main/java/de/eitco/mavenizer/generate/Generator.java:88-95 | the jars of two runs of report files are those of each run in turn, in file order |
| Generator.AllJarsMembers | src/main/java/de/eitco/mavenizer/generate/Generator.java:88-95 | a jar is among all jars exactly when some report file holds it |
| Generator.Generate | src/main/java/de/eitco/mavenizer/generate/Generator.java:64-205 | invalid script types stop first; no jars stops before any output; otherwise one script per requested type and a POM exactly when requested |

## Left out

- I/O is not modelled: the zip and jar decoding, the manifest, POM XML and properties parsers, SHA-256, Base64 and the date formatter are parameters.
- The remote Maven repository client (`MavenRemoteService`) is not modelled. It is the `resolve` and `listVersions` parameters, and its download cache is not modelled.
- Concurrency is not modelled. The `CompletableFuture` chains of `OnlineAnalyzer` and the analysis driver are sequential functions.
- Console output is not modelled: ConsolePrinter, the progress lines, the percent strings in detail texts beyond their shape, and `askUserToContinue`.
- The argument validators (`GeneratorArgs`, `AnalysisArgs`) are not modelled, except that script types must name a known file extension.
- File handling in `Generator.runGenerator` is not modelled. This covers reading the JSON reports, the jar existence and hash re-checks (lines 97-116), the listing of found-on-remote jars, and writing the files.
- `Paths.get(dir).resolve(name)` in the Generator is a `resolvePath` parameter.
- The driver loop of `Analyzer.runAnalysis` is not modelled. Neither are the older, superseded copies of the analyzers in the repository (the root-level and `analyse/` files), which reference types no file declares.
- Java's `HashMap` iteration order is unspecified. Pools and histograms are kept in first-insertion order, and the contracts leave ties unconstrained:
  - JarAnalyzer.Rank: it is a stable sort, but only its sortedness and the permutation are stated.
  - ClassTimestampAnalyzer.Highest: only states that the chosen day has a maximal count.
  - PostAnalyzer.FirstMatch: "first" is in the order of its input list.
  - PomAnalyzer.EmitComponent: value groups are emitted in first-occurrence order, but the disagreeing case is stated as a multiset of candidates only.
  - ClassFilepathAnalyzer.FolderCounts: subfolders are visited in creation order, but the statistics are stated as a set of entries only.
- PostAnalyzer.Analyze: it is a standalone rule. The source never invokes it from the offline analysis, and `JarAnalyzerType` has no POST constant, so it is not part of `JarAnalyzer.AnalyzeOffline`.
- The float arithmetic of ClassFilepathAnalyzer is replaced by integer comparisons: the 60% filter is 5·count >= 3·total and rounding to 2 is 4·count >= 3·total. A zero total (the NaN case) selects nothing. IEEE rounding at the exact boundaries may differ.
- ClassTimestampAnalyzer.Analyze: `count * 100` is unbounded here. The Java int product would overflow only with more than 21 million classes.
- Dates are integer day numbers (milliseconds divided by 86 400 000, flooring). `LocalDate` and the yyyy.MM.dd formatting are a formatter parameter.
- The regular expressions are modelled for the patterns the analyzers use. Java's `$`, which also matches before a final line terminator, is read as the end of the input.
- Helper.VersionCapture: the capture is the longest version that the classifier tail completes. This is the backtracking order for this pattern, argued by hand.
- Analyzer.ParseInt: it accepts ASCII digits only. Java's `Character.digit` also accepts non-ASCII decimal digits.
- Analyzer.OnlineProposal: the source tests `FOUND_MATCH_EXACT_CLASSNAMES`, a constant the `OnlineMatch` enum of `OnlineAnalyzer` does not declare. It is read as `FOUND_MATCH_EXACT_CLASSES_SHA`.
- Analyzer.AutoSelect: it follows the code. A jar is selected only when exactly one EXACT_SHA check exists, not at the first check considered identical. The result is the check, not the `JarReport` built from it.
- MavenUid.ToString: the Java `classifier == ""` is a reference comparison. It is modelled as value equality, which agrees for the interned literal the constructor stores.
- Jar entry names are split on '/' only. A leading '/' (an absolute entry name) is read as relative.
- Generator.Generate: only the POM_VERSION_PROPS = true branch (the constant in the source) is modelled.
- MavenUid.StringHash: a Dafny string is a sequence of Unicode scalar values, while Java hashes UTF-16 code units. The two agree for characters in the Basic Multilingual Plane only: U+1F600 is one term here but a surrogate pair (two terms) in Java.
- Text.Lower: it lower-cases ASCII letters only. Java's `toLowerCase()` (JarAnalyzer.java:181) uses the default locale and all of Unicode: under a Turkish locale "POM.PROPERTIES" becomes "pom.propertıes" with a dotless i and is not recognised, and non-ASCII capitals are lowered too.
- OnlineAnalyzer.SelectCandidatesToCheck: the exact order (SelectIsCombinations) is proved for lists that hold each value once, as the ranked pools do; with repeated values only the bound, the coverage and the first entry are stated.
