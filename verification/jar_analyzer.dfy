/** JarAnalyzer: reads the entries of one jar, runs the five offline analyzers over
    what it found, collects their evidence per coordinate component into value
    candidates, and ranks the candidates. Decompression and the parsers of the
    manifest, the pom.xml and the pom.properties are parameters. */
module JarAnalyzer {
  import opened Wrappers
  import opened Seqs
  import opened Text
  import opened MavenUid
  import opened ValueCandidate
  import opened Util
  import Sorting
  import ManifestAnalyzer
  import JarFilenameAnalyzer
  import PomAnalyzer
  import ClassFilepathAnalyzer
  import ClassTimestampAnalyzer

  /** A class file of the jar: its path and its creation time, or its modification
      time where it has none (milliseconds since the epoch). */
  datatype JarEntry = JarEntry(path: Path, timestamp: Option<int>)

  /** The jar's META-INF/MANIFEST.MF: its bytes and their parse. */
  datatype ManifestFile = ManifestFile(content: seq<byte>, manifest: ManifestAnalyzer.Manifest)

  /** What one entry contributes. */
  datatype EntryFindings = EntryFindings(pom: Option<PomAnalyzer.FileBuffer>, clazz: Option<JarEntry>,
                                         manifest: Option<ManifestFile>)

  const ManifestPath: Path := ["META-INF", "MANIFEST.MF"]

  function FileNameLower(entry: ZipEntry): string {
    Lower(PomAnalyzer.FileName(ParsePath(entry.name)))
  }

  predicate IsPomEntry(entry: ZipEntry) {
    !entry.isDirectory && (FileNameLower(entry) == "pom.xml" || FileNameLower(entry) == "pom.properties")
  }

  predicate IsClassFile(entry: ZipEntry) {
    !entry.isDirectory && EndsWith(FileNameLower(entry), ".class")
  }

  predicate IsManifestEntry(entry: ZipEntry) {
    !entry.isDirectory && ParsePath(entry.name) == ManifestPath
  }

  /** readJarEntry. Directories contribute nothing; a file named pom.xml or
      pom.properties in any letter case is buffered; a .class file in any letter case
      is a class with its timestamp; META-INF/MANIFEST.MF is parsed, and a manifest
      that cannot be parsed fails the analysis. */
  function ReadJarEntry(entry: ZipEntry, parseManifest: seq<byte> -> Option<ManifestAnalyzer.Manifest>)
    : (r: Result<EntryFindings, string>)
    ensures r.Failure? <==> IsManifestEntry(entry) && parseManifest(entry.content).None?
    ensures r.Success? ==> (
      (r.value.pom.Some? <==> IsPomEntry(entry))
      && (r.value.pom.Some? ==> r.value.pom.value == PomAnalyzer.FileBuffer(ParsePath(entry.name), entry.content))
      && (r.value.clazz.Some? <==> IsClassFile(entry))
      && (r.value.clazz.Some? ==> r.value.clazz.value.path == ParsePath(entry.name))
      && (r.value.clazz.Some? ==>
            r.value.clazz.value.timestamp == (if entry.creationTime.Some? then entry.creationTime else entry.lastModifiedTime))
      && (r.value.manifest.Some? <==> IsManifestEntry(entry)))
  {
    if entry.isDirectory then Success(EntryFindings(None, None, None))
    else
      var path := ParsePath(entry.name);
      var pom := if IsPomEntry(entry) then Some(PomAnalyzer.FileBuffer(path, entry.content)) else None;
      var stamp := if entry.creationTime.Some? then entry.creationTime else entry.lastModifiedTime;
      var clazz := if IsClassFile(entry) then Some(JarEntry(path, stamp)) else None;
      if path == ManifestPath then
        match parseManifest(entry.content)
        case None => Failure("cannot parse manifest")
        case Some(m) => Success(EntryFindings(pom, clazz, Some(ManifestFile(entry.content, m))))
      else Success(EntryFindings(pom, clazz, None))
  }

  /** An entry is at most one of pom file, class file and manifest. */
  lemma EntryKindsExclusive(entry: ZipEntry)
    ensures !(IsPomEntry(entry) && IsClassFile(entry))
    ensures !(IsManifestEntry(entry) && IsClassFile(entry))
    ensures !(IsManifestEntry(entry) && IsPomEntry(entry))
  {
    if IsManifestEntry(entry) {
      assert PomAnalyzer.FileName(ParsePath(entry.name)) == "MANIFEST.MF";
      assert Lower("MANIFEST.MF") == "manifest.mf";
    }
    if IsPomEntry(entry) {
      var n := FileNameLower(entry);
      assert n[|n| - 1] == 'l' || n[|n| - 1] == 's';
    }
  }

  /** Everything read from the jar: pom files and classes in entry order, and the
      first manifest found. */
  datatype JarContents = JarContents(pomFiles: seq<PomAnalyzer.FileBuffer>, classFiles: seq<JarEntry>,
                                     manifest: Option<ManifestFile>)

  /** Only a manifest that cannot be parsed makes an entry unreadable. */
  predicate Readable(entry: ZipEntry, parseManifest: seq<byte> -> Option<ManifestAnalyzer.Manifest>) {
    !(IsManifestEntry(entry) && parseManifest(entry.content).None?)
  }

  /** The index of the first element satisfying p, or -1 if there is none. */
  function FirstWhere<T>(s: seq<T>, p: T -> bool): (k: int)
    ensures -1 <= k < |s|
    ensures k >= 0 ==> p(s[k]) && forall i :: 0 <= i < k ==> !p(s[i])
    ensures k < 0 ==> forall i :: 0 <= i < |s| ==> !p(s[i])
    decreases |s|
  {
    if |s| == 0 then -1
    else
      var init := s[..|s| - 1];
      assert forall i :: 0 <= i < |init| ==> init[i] == s[i];
      var k := FirstWhere(init, p);
      if k >= 0 then k
      else if p(s[|s| - 1]) then |s| - 1
      else -1
  }

  /** The index of the first manifest entry, or -1 if there is none. */
  function FirstManifest(entries: seq<ZipEntry>): (k: int)
    ensures -1 <= k < |entries|
    ensures k >= 0 ==> IsManifestEntry(entries[k]) && forall i :: 0 <= i < k ==> !IsManifestEntry(entries[i])
    ensures k < 0 ==> forall i :: 0 <= i < |entries| ==> !IsManifestEntry(entries[i])
  {
    FirstWhere(entries, IsManifestEntry)
  }

  /** The first manifest of a stream is the first one before its last entry, or else
      that last entry if it is a manifest. */
  lemma FirstManifestSnoc(entries: seq<ZipEntry>)
    requires |entries| > 0
    ensures var init, last := entries[..|entries| - 1], entries[|entries| - 1];
      FirstManifest(entries) == (if FirstManifest(init) >= 0 then FirstManifest(init)
                                 else if IsManifestEntry(last) then |init| else -1)
    ensures FirstManifest(entries[..|entries| - 1]) >= 0 ==>
      entries[FirstManifest(entries)] == entries[..|entries| - 1][FirstManifest(entries[..|entries| - 1])]
  {
  }

  /** readJarStream with readJarEntry over the entries in stream order: the first
      manifest wins, and any entry that fails fails the whole read. */
  function ReadJarStream(entries: seq<ZipEntry>, parseManifest: seq<byte> -> Option<ManifestAnalyzer.Manifest>)
    : (r: Result<JarContents, string>)
    ensures r.Success? ==> (r.value.manifest.Some? <==> FirstManifest(entries) >= 0)
    ensures r.Success? && r.value.manifest.Some? ==>
      r.value.manifest.value.content == entries[FirstManifest(entries)].content
    ensures r.Success? ==> r.value.pomFiles == PomsOf(entries) && r.value.classFiles == ClassesOf(entries)
    decreases |entries|
  {
    if |entries| == 0 then Success(JarContents([], [], None))
    else
      var init := entries[..|entries| - 1];
      var last := entries[|entries| - 1];
      FirstManifestSnoc(entries);
      match ReadJarStream(init, parseManifest)
      case Failure(e) => Failure(e)
      case Success(acc) =>
        match ReadJarEntry(last, parseManifest)
        case Failure(e) => Failure(e)
        case Success(f) =>
          var poms := acc.pomFiles + (if f.pom.Some? then [f.pom.value] else []);
          var classes := acc.classFiles + (if f.clazz.Some? then [f.clazz.value] else []);
          InitThenLast(entries);
          FoundOfSnoc(init, last);
          var manifest := if acc.manifest.Some? then acc.manifest else f.manifest;
          Success(JarContents(poms, classes, manifest))
  }

  /** The class file an entry stands for: its path, and its creation time or else
      its modification time. */
  function ClassOf(entry: ZipEntry): JarEntry {
    JarEntry(ParsePath(entry.name), if entry.creationTime.Some? then entry.creationTime else entry.lastModifiedTime)
  }

  /** The pom file an entry contributes, if any. */
  function PomOf(entry: ZipEntry): seq<PomAnalyzer.FileBuffer> {
    if IsPomEntry(entry) then [PomAnalyzer.FileBuffer(ParsePath(entry.name), entry.content)] else []
  }

  /** The class file an entry contributes, if any. */
  function ClassFileOf(entry: ZipEntry): seq<JarEntry> {
    if IsClassFile(entry) then [ClassOf(entry)] else []
  }

  /** The pom files among the entries, in entry order. */
  function PomsOf(entries: seq<ZipEntry>): seq<PomAnalyzer.FileBuffer>
    decreases |entries|
  {
    if |entries| == 0 then [] else PomOf(entries[0]) + PomsOf(entries[1..])
  }

  /** The class files among the entries, in entry order. */
  function ClassesOf(entries: seq<ZipEntry>): seq<JarEntry>
    decreases |entries|
  {
    if |entries| == 0 then [] else ClassFileOf(entries[0]) + ClassesOf(entries[1..])
  }

  /** One more entry adds at most its own pom file and class file at the end. */
  lemma FoundOfSnoc(init: seq<ZipEntry>, last: ZipEntry)
    ensures PomsOf(init + [last]) == PomsOf(init) + PomOf(last)
    ensures ClassesOf(init + [last]) == ClassesOf(init) + ClassFileOf(last)
  {
    PomsAppend(init, [last]);
    ClassesAppend(init, [last]);
    OneEntry(last);
  }

  lemma OneEntry(e: ZipEntry)
    ensures PomsOf([e]) == PomOf(e) && ClassesOf([e]) == ClassFileOf(e)
  {
    assert [e][1..] == [];
    assert PomsOf([e]) == PomOf(e) + PomsOf([]);
    assert ClassesOf([e]) == ClassFileOf(e) + ClassesOf([]);
  }

  /** The pom files of consecutive parts of the stream are those of each part in
      turn. */
  lemma {:induction false} PomsAppend(a: seq<ZipEntry>, b: seq<ZipEntry>)
    ensures PomsOf(a + b) == PomsOf(a) + PomsOf(b)
    decreases |a|
  {
    if |a| == 0 {
      assert a + b == b;
    } else {
      assert (a + b)[1..] == a[1..] + b;
      PomsAppend(a[1..], b);
    }
  }

  /** The class files of consecutive parts of the stream are those of each part in
      turn. */
  lemma {:induction false} ClassesAppend(a: seq<ZipEntry>, b: seq<ZipEntry>)
    ensures ClassesOf(a + b) == ClassesOf(a) + ClassesOf(b)
    decreases |a|
  {
    if |a| == 0 {
      assert a + b == b;
    } else {
      assert (a + b)[1..] == a[1..] + b;
      ClassesAppend(a[1..], b);
    }
  }

  /** Reading fails exactly when some manifest entry cannot be parsed. */
  lemma {:induction false} ReadJarStreamSucceeds(entries: seq<ZipEntry>,
                                                 parseManifest: seq<byte> -> Option<ManifestAnalyzer.Manifest>)
    ensures ReadJarStream(entries, parseManifest).Success? <==>
      forall i :: 0 <= i < |entries| ==> Readable(entries[i], parseManifest)
    decreases |entries|
  {
    if |entries| > 0 {
      var init := entries[..|entries| - 1];
      ReadJarStreamSucceeds(init, parseManifest);
      ReadJarStreamStep(entries, parseManifest);
      AllSplit(entries, init, e => Readable(e, parseManifest));
    }
  }

  /** All elements satisfy p exactly when all but the last do and the last does. */
  lemma AllSplit<T>(s: seq<T>, init: seq<T>, p: T -> bool)
    requires |s| > 0 && init == s[..|s| - 1]
    ensures (forall i :: 0 <= i < |s| ==> p(s[i]))
            <==> (forall i :: 0 <= i < |init| ==> p(init[i])) && p(s[|s| - 1])
  {
    assert forall i :: 0 <= i < |init| ==> init[i] == s[i];
  }

  lemma ReadJarStreamStep(entries: seq<ZipEntry>, parseManifest: seq<byte> -> Option<ManifestAnalyzer.Manifest>)
    requires |entries| > 0
    ensures ReadJarStream(entries, parseManifest).Success? <==>
      ReadJarStream(entries[..|entries| - 1], parseManifest).Success?
      && Readable(entries[|entries| - 1], parseManifest)
  {
    var last := entries[|entries| - 1];
    assert ReadJarEntry(last, parseManifest).Success? <==> Readable(last, parseManifest);
  }

  // ---------------------------------------------------------------- collecting

  /** One piece of evidence with the analyzer that produced it. */
  datatype Tagged = Tagged(analyzer: AnalyzerType, emitted: Emitted)

  function Tag(analyzer: AnalyzerType, es: seq<Emitted>): (r: seq<Tagged>)
    ensures |r| == |es|
    ensures forall i :: 0 <= i < |r| ==> r[i] == Tagged(analyzer, es[i])
  {
    seq(|es|, i requires 0 <= i < |es| => Tagged(analyzer, es[i]))
  }

  function SourceOf(t: Tagged): ValueSource {
    ValueSource(t.analyzer, t.emitted.score, t.emitted.detail)
  }

  /** Reference definition: the sources of all evidence for value v of component c,
      in the order the evidence was produced. */
  function SourcesOf(ts: seq<Tagged>, c: Component, v: Value): seq<ValueSource>
    decreases |ts|
  {
    if |ts| == 0 then []
    else
      var t := ts[|ts| - 1];
      SourcesOf(ts[..|ts| - 1], c, v)
      + (if t.emitted.component == c && t.emitted.value == v then [SourceOf(t)] else [])
  }

  function FindValue(pool: seq<Candidate>, v: Value): (k: int)
    ensures -1 <= k < |pool|
    ensures k >= 0 ==> pool[k].value == v
    ensures k < 0 ==> forall i :: 0 <= i < |pool| ==> pool[i].value != v
    decreases |pool|
  {
    if |pool| == 0 then -1
    else if pool[|pool| - 1].value == v then |pool| - 1
    else FindValue(pool[..|pool| - 1], v)
  }

  /** The last piece of evidence adds its source to its own value only. */
  lemma SourcesOfLast(ts: seq<Tagged>, c: Component, x: Value)
    requires |ts| > 0
    ensures SourcesOf(ts, c, x) == SourcesOf(ts[..|ts| - 1], c, x)
      + (if ts[|ts| - 1].emitted.component == c && ts[|ts| - 1].emitted.value == x then [SourceOf(ts[|ts| - 1])] else [])
  {
  }

  ghost predicate HasValue(pool: seq<Candidate>, v: Value) {
    exists i :: 0 <= i < |pool| && pool[i].value == v
  }

  /** The pool candidates each hold exactly the sources of their value's evidence. */
  ghost predicate HoldsEvidence(pool: seq<Candidate>, ts: seq<Tagged>, c: Component) {
    forall i :: 0 <= i < |pool| ==> pool[i].sources == SourcesOf(ts, c, pool[i].value) && Valid(pool[i])
  }

  /** The pool has a candidate for exactly the values with evidence. */
  ghost predicate CoversEvidence(pool: seq<Candidate>, ts: seq<Tagged>, c: Component) {
    forall v :: HasValue(pool, v) <==> SourcesOf(ts, c, v) != []
  }

  /** The pool of the evidence collected so far: one valid candidate per value with
      evidence, holding that evidence's sources. */
  ghost predicate IsPoolOf(pool: seq<Candidate>, ts: seq<Tagged>, c: Component) {
    DistinctValues(pool) && HoldsEvidence(pool, ts, c) && CoversEvidence(pool, ts, c)
  }

  /** Evidence for another component leaves the pool as it is. */
  lemma CollectOther(pool: seq<Candidate>, ts: seq<Tagged>, c: Component)
    requires |ts| > 0 && ts[|ts| - 1].emitted.component != c
    requires IsPoolOf(pool, ts[..|ts| - 1], c)
    ensures IsPoolOf(pool, ts, c)
  {
    forall x ensures SourcesOf(ts, c, x) == SourcesOf(ts[..|ts| - 1], c, x) {
      SourcesOfLast(ts, c, x);
    }
  }

  /** Evidence for a new value appends a candidate holding just that source. */
  lemma CollectNew(pool: seq<Candidate>, ts: seq<Tagged>, c: Component)
    requires |ts| > 0 && ts[|ts| - 1].emitted.component == c
    requires IsPoolOf(pool, ts[..|ts| - 1], c) && !HasValue(pool, ts[|ts| - 1].emitted.value)
    ensures IsPoolOf(pool + [AddSource(NewCandidate(ts[|ts| - 1].emitted.value), SourceOf(ts[|ts| - 1]))], ts, c)
  {
    var t := ts[|ts| - 1];
    var v := t.emitted.value;
    var cand := AddSource(NewCandidate(v), SourceOf(t));
    assert forall i :: 0 <= i < |pool| ==> pool[i].value != v;
    assert SourcesOf(ts[..|ts| - 1], c, v) == [];
    NewDistinct(pool, cand);
    NewHolds(pool, ts, c);
    NewCovers(pool, ts, c, cand);
  }

  lemma NewDistinct(pool: seq<Candidate>, cand: Candidate)
    requires DistinctValues(pool) && forall i :: 0 <= i < |pool| ==> pool[i].value != cand.value
    ensures DistinctValues(pool + [cand])
  {
  }

  lemma NewHolds(pool: seq<Candidate>, ts: seq<Tagged>, c: Component)
    requires |ts| > 0 && ts[|ts| - 1].emitted.component == c
    requires HoldsEvidence(pool, ts[..|ts| - 1], c)
    requires forall i :: 0 <= i < |pool| ==> pool[i].value != ts[|ts| - 1].emitted.value
    requires SourcesOf(ts[..|ts| - 1], c, ts[|ts| - 1].emitted.value) == []
    ensures HoldsEvidence(pool + [AddSource(NewCandidate(ts[|ts| - 1].emitted.value), SourceOf(ts[|ts| - 1]))], ts, c)
  {
    var t := ts[|ts| - 1];
    var pool' := pool + [AddSource(NewCandidate(t.emitted.value), SourceOf(t))];
    forall i | 0 <= i < |pool'| ensures pool'[i].sources == SourcesOf(ts, c, pool'[i].value) && Valid(pool'[i]) {
      SourcesOfLast(ts, c, pool'[i].value);
      if i < |pool| {
        assert pool'[i] == pool[i];
      }
    }
  }

  lemma NewCovers(pool: seq<Candidate>, ts: seq<Tagged>, c: Component, cand: Candidate)
    requires |ts| > 0 && ts[|ts| - 1].emitted.component == c && cand.value == ts[|ts| - 1].emitted.value
    requires CoversEvidence(pool, ts[..|ts| - 1], c)
    ensures CoversEvidence(pool + [cand], ts, c)
  {
    var pool' := pool + [cand];
    forall x ensures HasValue(pool', x) <==> SourcesOf(ts, c, x) != [] {
      SourcesOfLast(ts, c, x);
      if HasValue(pool, x) {
        var i :| 0 <= i < |pool| && pool[i].value == x;
        assert pool'[i].value == x;
      }
      if HasValue(pool', x) && x != cand.value {
        var i :| 0 <= i < |pool'| && pool'[i].value == x;
        assert i < |pool| && pool[i].value == x;
      }
      if x == cand.value {
        assert pool'[|pool|].value == x;
      }
    }
  }

  /** Evidence for a value already present adds its source to that candidate. */
  lemma CollectExisting(pool: seq<Candidate>, ts: seq<Tagged>, c: Component, k: nat)
    requires |ts| > 0 && ts[|ts| - 1].emitted.component == c
    requires IsPoolOf(pool, ts[..|ts| - 1], c)
    requires k < |pool| && pool[k].value == ts[|ts| - 1].emitted.value
    ensures IsPoolOf(pool[k := AddSource(pool[k], SourceOf(ts[|ts| - 1]))], ts, c)
  {
    var pool' := pool[k := AddSource(pool[k], SourceOf(ts[|ts| - 1]))];
    assert forall i :: 0 <= i < |pool| ==> pool'[i].value == pool[i].value;
    ExistingHolds(pool, ts, c, k);
    SameValuesCover(pool, pool', ts, c);
  }

  lemma ExistingHolds(pool: seq<Candidate>, ts: seq<Tagged>, c: Component, k: nat)
    requires |ts| > 0 && ts[|ts| - 1].emitted.component == c
    requires HoldsEvidence(pool, ts[..|ts| - 1], c) && DistinctValues(pool)
    requires k < |pool| && pool[k].value == ts[|ts| - 1].emitted.value
    ensures HoldsEvidence(pool[k := AddSource(pool[k], SourceOf(ts[|ts| - 1]))], ts, c)
  {
    var pool' := pool[k := AddSource(pool[k], SourceOf(ts[|ts| - 1]))];
    forall i | 0 <= i < |pool'| ensures pool'[i].sources == SourcesOf(ts, c, pool'[i].value) && Valid(pool'[i]) {
      SourcesOfLast(ts, c, pool'[i].value);
      if i != k {
        assert pool'[i] == pool[i] && pool[i].value != pool[k].value;
      }
    }
  }

  /** Evidence for a value already present keeps the set of values covered. */
  lemma SameValuesCover(pool: seq<Candidate>, pool': seq<Candidate>, ts: seq<Tagged>, c: Component)
    requires |ts| > 0 && ts[|ts| - 1].emitted.component == c
    requires |pool'| == |pool| && forall i :: 0 <= i < |pool| ==> pool'[i].value == pool[i].value
    requires HasValue(pool, ts[|ts| - 1].emitted.value)
    requires CoversEvidence(pool, ts[..|ts| - 1], c)
    ensures CoversEvidence(pool', ts, c)
  {
    forall x ensures HasValue(pool', x) <==> SourcesOf(ts, c, x) != [] {
      SourcesOfLast(ts, c, x);
      if HasValue(pool, x) {
        var i :| 0 <= i < |pool| && pool[i].value == x;
        assert pool'[i].value == x;
      }
      if HasValue(pool', x) {
        var i :| 0 <= i < |pool'| && pool'[i].value == x;
        assert pool[i].value == x;
      }
    }
  }

  /** The candidates of component c after the collector received the evidence in
      order (computeIfAbsent, then addSource): one candidate per distinct value, in
      order of first appearance, each holding exactly the sources of that value's
      evidence and a score sum equal to their total. */
  function Pool(ts: seq<Tagged>, c: Component): (pool: seq<Candidate>)
    ensures IsPoolOf(pool, ts, c)
    decreases |ts|
  {
    if |ts| == 0 then []
    else
      var pool := Pool(ts[..|ts| - 1], c);
      var t := ts[|ts| - 1];
      if t.emitted.component != c then
        CollectOther(pool, ts, c);
        pool
      else
        var k := FindValue(pool, t.emitted.value);
        if k < 0 then
          CollectNew(pool, ts, c);
          pool + [AddSource(NewCandidate(t.emitted.value), SourceOf(t))]
        else
          CollectExisting(pool, ts, c, k);
          pool[k := AddSource(pool[k], SourceOf(t))]
  }

  /** A candidate's score sum is the total score of the evidence for its value. */
  lemma ScoreSumIsEvidenceTotal(ts: seq<Tagged>, c: Component, i: nat)
    requires i < |Pool(ts, c)|
    ensures Pool(ts, c)[i].scoreSum == SumScores(SourcesOf(ts, c, Pool(ts, c)[i].value))
  {
  }

  // ---------------------------------------------------------------- ranking

  function SortEachSources(pool: seq<Candidate>): (r: seq<Candidate>)
    ensures |r| == |pool|
    ensures forall i :: 0 <= i < |r| ==> r[i] == SortSources(pool[i])
  {
    seq(|pool|, i requires 0 <= i < |pool| => SortSources(pool[i]))
  }

  /** The ranking: every candidate's sources ordered by score, and the candidates
      ordered by score sum, both descending. */
  function Rank(pool: seq<Candidate>): (r: seq<Candidate>)
    ensures |r| == |pool|
    ensures multiset(r) == multiset(SortEachSources(pool))
    ensures Sorting.SortedDesc(r, ScoreSum)
  {
    Sorting.SortDesc(SortEachSources(pool), ScoreSum)
  }

  /** The result of the offline analysis: the manifest, if any, and the ranked
      candidates of each component. */
  datatype JarAnalysisResult = JarAnalysisResult(manifest: Option<ManifestFile>, groupIds: seq<Candidate>,
                                                 artifactIds: seq<Candidate>, versions: seq<Candidate>)

  function Ranked(r: JarAnalysisResult, c: Component): seq<Candidate> {
    match c
    case GroupId => r.groupIds
    case ArtifactId => r.artifactIds
    case Version => r.versions
  }

  function ClassPaths(classes: seq<JarEntry>): (r: seq<Path>)
    ensures |r| == |classes| && forall i :: 0 <= i < |r| ==> r[i] == classes[i].path
  {
    seq(|classes|, i requires 0 <= i < |classes| => classes[i].path)
  }

  function ClassStamps(classes: seq<JarEntry>): (r: seq<Option<int>>)
    ensures |r| == |classes| && forall i :: 0 <= i < |r| ==> r[i] == classes[i].timestamp
  {
    seq(|classes|, i requires 0 <= i < |classes| => classes[i].timestamp)
  }

  /** The parsers and the date formatter the analysis depends on. */
  datatype Services = Services(parseManifest: seq<byte> -> Option<ManifestAnalyzer.Manifest>,
                               parseXml: seq<byte> -> Option<PomAnalyzer.PomModel>,
                               parseProps: seq<byte> -> Option<PomAnalyzer.Properties>,
                               formatDate: (int, string) -> string)

  /** All evidence, in the order the analyzers run: class file paths, class
      timestamps, pom files, manifest, jar file name. */
  function Evidence(jarName: string, contents: JarContents, services: Services): (r: Result<seq<Tagged>, string>)
    ensures r.Failure? <==>
      PomAnalyzer.Analyze(contents.pomFiles, services.parseXml, services.parseProps).Failure?
      || '.' !in jarName
    ensures r.Success? ==> InRunOrder(r.value)
    ensures r.Success? ==>
      By(r.value, ClassFilepath) == ClassFilepathAnalyzer.Analyze(ClassPaths(contents.classFiles))
      && By(r.value, ClassTimestamp) == ClassTimestampAnalyzer.Analyze(ClassStamps(contents.classFiles), services.formatDate)
      && By(r.value, Pom) == PomAnalyzer.Analyze(contents.pomFiles, services.parseXml, services.parseProps).value
      && By(r.value, Manifest) == ManifestAnalyzer.Analyze(
           if contents.manifest.Some? then Some(contents.manifest.value.manifest) else None)
      && By(r.value, JarFilename) == JarFilenameAnalyzer.Analyze(jarName).value
      && By(r.value, Post) == []
  {
    match PomAnalyzer.Analyze(contents.pomFiles, services.parseXml, services.parseProps)
    case Failure(e) => Failure(e)
    case Success(pom) =>
      match JarFilenameAnalyzer.Analyze(jarName)
      case None => Failure("jar name without extension")
      case Some(fromName) =>
        var manifest := if contents.manifest.Some? then Some(contents.manifest.value.manifest) else None;
        var a := ClassFilepathAnalyzer.Analyze(ClassPaths(contents.classFiles));
        var b := ClassTimestampAnalyzer.Analyze(ClassStamps(contents.classFiles), services.formatDate);
        var d := ManifestAnalyzer.Analyze(manifest);
        JoinedInOrder(a, b, pom, d, fromName);
        JoinedBy(a, b, pom, d, fromName, ClassFilepath);
        JoinedBy(a, b, pom, d, fromName, ClassTimestamp);
        JoinedBy(a, b, pom, d, fromName, Pom);
        JoinedBy(a, b, pom, d, fromName, Manifest);
        JoinedBy(a, b, pom, d, fromName, JarFilename);
        JoinedBy(a, b, pom, d, fromName, Post);
        Success(Joined(a, b, pom, d, fromName))
  }

  /** The place of each analyzer in the run. */
  function RunRank(a: AnalyzerType): nat {
    match a
    case ClassFilepath => 0
    case ClassTimestamp => 1
    case Pom => 2
    case Manifest => 3
    case JarFilename => 4
    case Post => 5
  }

  /** The evidence of an earlier analyzer comes before that of a later one. */
  predicate InRunOrder(ts: seq<Tagged>) {
    forall i, j :: 0 <= i < j < |ts| ==> RunRank(ts[i].analyzer) <= RunRank(ts[j].analyzer)
  }

  /** The evidence of analyzer a, in order. */
  function By(ts: seq<Tagged>, a: AnalyzerType): (r: seq<Emitted>)
    decreases |ts|
  {
    if |ts| == 0 then []
    else (if ts[0].analyzer == a then [ts[0].emitted] else []) + By(ts[1..], a)
  }

  lemma {:induction false} ByAppend(s: seq<Tagged>, t: seq<Tagged>, a: AnalyzerType)
    ensures By(s + t, a) == By(s, a) + By(t, a)
    decreases |s|
  {
    if |s| == 0 {
      assert s + t == t;
    } else {
      var st := s + t;
      assert st[0] == s[0];
      assert st[1..] == s[1..] + t;
      ByAppend(s[1..], t, a);
      assert By(st, a) == (if s[0].analyzer == a then [s[0].emitted] else []) + By(st[1..], a);
    }
  }

  /** Evidence tagged with one analyzer is all of that analyzer's and none of any
      other's. */
  lemma {:induction false} ByTag(b: AnalyzerType, es: seq<Emitted>, a: AnalyzerType)
    ensures By(Tag(b, es), a) == if a == b then es else []
    decreases |es|
  {
    if |es| > 0 {
      ByTag(b, es[1..], a);
      assert Tag(b, es)[1..] == Tag(b, es[1..]);
    }
  }

  /** The evidence of the five analyzers, tagged and joined in run order. */
  function Joined(ea: seq<Emitted>, eb: seq<Emitted>, ec: seq<Emitted>, ed: seq<Emitted>, ee: seq<Emitted>)
    : seq<Tagged>
  {
    Tag(ClassFilepath, ea) + Tag(ClassTimestamp, eb) + Tag(Pom, ec) + Tag(Manifest, ed) + Tag(JarFilename, ee)
  }

  /** Each analyzer's evidence is found back in the joined evidence. */
  lemma JoinedBy(ea: seq<Emitted>, eb: seq<Emitted>, ec: seq<Emitted>, ed: seq<Emitted>, ee: seq<Emitted>, x: AnalyzerType)
    ensures By(Joined(ea, eb, ec, ed, ee), x)
      == (if x == ClassFilepath then ea else if x == ClassTimestamp then eb else if x == Pom then ec
          else if x == Manifest then ed else if x == JarFilename then ee else [])
  {
    var a, b, c, d, e := Tag(ClassFilepath, ea), Tag(ClassTimestamp, eb), Tag(Pom, ec), Tag(Manifest, ed), Tag(JarFilename, ee);
    ByAppend(a + b + c + d, e, x);
    ByAppend(a + b + c, d, x);
    ByAppend(a + b, c, x);
    ByAppend(a, b, x);
    var ba, bb, bc, bd, be := By(a, x), By(b, x), By(c, x), By(d, x), By(e, x);
    assert By(Joined(ea, eb, ec, ed, ee), x) == ba + bb + bc + bd + be;
    ByTag(ClassFilepath, ea, x);
    ByTag(ClassTimestamp, eb, x);
    ByTag(Pom, ec, x);
    ByTag(Manifest, ed, x);
    ByTag(JarFilename, ee, x);
    OnlyOnePart(ba, bb, bc, bd, be);
  }

  /** The joined evidence is in run order. */
  lemma JoinedInOrder(ea: seq<Emitted>, eb: seq<Emitted>, ec: seq<Emitted>, ed: seq<Emitted>, ee: seq<Emitted>)
    ensures InRunOrder(Joined(ea, eb, ec, ed, ee))
  {
    var all := Joined(ea, eb, ec, ed, ee);
    var la, lb, lc, ld := |ea|, |eb|, |ec|, |ed|;
    forall i | 0 <= i < |all| ensures RunRank(all[i].analyzer) == PartOf(i, la, lb, lc, ld) {
      if i < la {
        assert all[i] == Tag(ClassFilepath, ea)[i];
      } else if i < la + lb {
        assert all[i] == Tag(ClassTimestamp, eb)[i - la];
      } else if i < la + lb + lc {
        assert all[i] == Tag(Pom, ec)[i - la - lb];
      } else if i < la + lb + lc + ld {
        assert all[i] == Tag(Manifest, ed)[i - la - lb - lc];
      } else {
        assert all[i] == Tag(JarFilename, ee)[i - la - lb - lc - ld];
      }
    }
  }

  /** Which of five consecutive parts of the given lengths position i falls in. */
  function PartOf(i: nat, la: nat, lb: nat, lc: nat, ld: nat): nat {
    if i < la then 0
    else if i < la + lb then 1
    else if i < la + lb + lc then 2
    else if i < la + lb + lc + ld then 3
    else 4
  }

  /** The ranked candidates of component c for the evidence ts: ordered by score
      sum, each valid with its sources ordered by score, each holding exactly the
      sources of its value's evidence, and every value with evidence present once. */
  ghost predicate WellRanked(ranked: seq<Candidate>, ts: seq<Tagged>, c: Component) {
    Sorting.SortedDesc(ranked, ScoreSum)
    && DistinctValues(ranked)
    && (forall x :: x in ranked ==>
          Valid(x) && Sorting.SortedDesc(x.sources, SourceScore)
          && multiset(x.sources) == multiset(SourcesOf(ts, c, x.value)))
    && CoversEvidence(ranked, ts, c)
  }

  /** JarAnalyzer.analyzeOffline: reads the jar, gathers the evidence and ranks the
      candidates of each component. */
  function AnalyzeOffline(jarName: string, entries: seq<ZipEntry>, services: Services)
    : (r: Result<JarAnalysisResult, string>)
    ensures r.Success? <==> (ReadJarStream(entries, services.parseManifest).Success?
      && Evidence(jarName, ReadJarStream(entries, services.parseManifest).value, services).Success?)
    ensures r.Success? <==> (ReadJarStream(entries, services.parseManifest).Success?
      && PomAnalyzer.Analyze(ReadJarStream(entries, services.parseManifest).value.pomFiles,
                             services.parseXml, services.parseProps).Success?
      && '.' in jarName)
    ensures r.Success? ==>
      var contents := ReadJarStream(entries, services.parseManifest).value;
      var ts := Evidence(jarName, contents, services).value;
      r.value.manifest == contents.manifest && forall c :: WellRanked(Ranked(r.value, c), ts, c)
  {
    match ReadJarStream(entries, services.parseManifest)
    case Failure(e) => Failure(e)
    case Success(contents) =>
      match Evidence(jarName, contents, services)
      case Failure(e) => Failure(e)
      case Success(ts) => Success(RankAll(ts, contents.manifest))
  }

  /** The ranked candidates of one component. */
  function RankComponent(ts: seq<Tagged>, c: Component): (r: seq<Candidate>)
    ensures WellRanked(r, ts, c)
  {
    RankIsWellRanked(ts, c);
    Rank(Pool(ts, c))
  }

  /** The ranking of all three components. */
  function RankAll(ts: seq<Tagged>, manifest: Option<ManifestFile>): (r: JarAnalysisResult)
    ensures r.manifest == manifest && forall c :: WellRanked(Ranked(r, c), ts, c)
  {
    var result := JarAnalysisResult(manifest, RankComponent(ts, GroupId), RankComponent(ts, ArtifactId),
                                    RankComponent(ts, Version));
    assert forall c :: Ranked(result, c) == RankComponent(ts, c);
    result
  }

  lemma RankIsWellRanked(ts: seq<Tagged>, c: Component)
    ensures WellRanked(Rank(Pool(ts, c)), ts, c)
  {
    var pool := Pool(ts, c);
    RankedCandidates(pool, ts, c);
    RankedComplete(pool, ts, c);
    RankedDistinct(pool);
  }

  /** Each ranked candidate is a pool candidate with its sources sorted. */
  lemma RankedCandidates(pool: seq<Candidate>, ts: seq<Tagged>, c: Component)
    requires HoldsEvidence(pool, ts, c)
    ensures forall x :: x in Rank(pool) ==>
      Valid(x) && Sorting.SortedDesc(x.sources, SourceScore)
      && multiset(x.sources) == multiset(SourcesOf(ts, c, x.value))
  {
    var each := SortEachSources(pool);
    forall x | x in Rank(pool)
      ensures Valid(x) && Sorting.SortedDesc(x.sources, SourceScore)
      ensures multiset(x.sources) == multiset(SourcesOf(ts, c, x.value))
    {
      assert x in multiset(each);
      var i :| 0 <= i < |each| && each[i] == x;
      assert x == SortSources(pool[i]);
    }
  }

  /** Every value with evidence has a ranked candidate, and no other value has. */
  lemma RankedComplete(pool: seq<Candidate>, ts: seq<Tagged>, c: Component)
    requires CoversEvidence(pool, ts, c)
    ensures CoversEvidence(Rank(pool), ts, c)
  {
    var each := SortEachSources(pool);
    var ranked := Rank(pool);
    forall v | SourcesOf(ts, c, v) != []
      ensures exists j :: 0 <= j < |ranked| && ranked[j].value == v
    {
      var i :| 0 <= i < |pool| && pool[i].value == v;
      assert each[i] in multiset(ranked);
      var j :| 0 <= j < |ranked| && ranked[j] == each[i];
    }
    forall j | 0 <= j < |ranked|
      ensures SourcesOf(ts, c, ranked[j].value) != []
    {
      assert ranked[j] in multiset(each);
      var i :| 0 <= i < |each| && each[i] == ranked[j];
      assert pool[i].value == ranked[j].value;
    }
  }

  lemma RankedDistinct(pool: seq<Candidate>)
    requires DistinctValues(pool)
    ensures DistinctValues(Rank(pool))
  {
    var each := SortEachSources(pool);
    var ranked := Rank(pool);
    assert DistinctValues(each) by {
      assert forall i :: 0 <= i < |each| ==> each[i].value == pool[i].value;
    }
    forall i, j | 0 <= i < j < |ranked|
      ensures ranked[i].value != ranked[j].value
    {
      DistinctAfterPermutation(each, ranked, i, j);
    }
  }

  /** Distinct values survive a permutation. */
  lemma DistinctAfterPermutation(a: seq<Candidate>, b: seq<Candidate>, i: nat, j: nat)
    requires DistinctValues(a) && multiset(a) == multiset(b)
    requires i < j < |b|
    ensures b[i].value != b[j].value
  {
    assert b[i] in multiset(a) && b[j] in multiset(a);
    var p :| 0 <= p < |a| && a[p] == b[i];
    var q :| 0 <= q < |a| && a[q] == b[j];
    if p == q {
      assert b[i] == b[j];
      assert multiset(b)[b[i]] >= 2 by {
        assert b == b[..j] + b[j..];
        assert multiset(b) == multiset(b[..j]) + multiset(b[j..]);
        assert b[i] in multiset(b[..j]) by { assert b[..j][i] == b[i]; }
        assert b[j] in multiset(b[j..]) by { assert b[j..][0] == b[j]; }
      }
      MultiplicityOne(a, p);
    }
  }

  /** In a sequence of candidates with distinct values every element occurs once. */
  lemma {:induction false} MultiplicityOne(a: seq<Candidate>, p: nat)
    requires DistinctValues(a) && p < |a|
    ensures multiset(a)[a[p]] == 1
    decreases |a|
  {
    if |a| > 0 {
      assert a == [a[0]] + a[1..];
      if p == 0 {
        assert a[0] !in a[1..];
      } else {
        MultiplicityOne(a[1..], p - 1);
        assert a[p] != a[0];
      }
    }
  }
}
