/** PomAnalyzer: coordinate candidates from the pom.xml / pom.properties files a jar
    carries under META-INF/maven/{groupId}/{artifactId}/. XML and properties parsing
    are parameters; a parser returning None stands for the exception it throws. */
module PomAnalyzer {
  import opened Wrappers
  import opened Text
  import opened MavenUid
  import opened ValueCandidate
  import opened Util

  /** A buffered pom file: its entry path and bytes. */
  datatype FileBuffer = FileBuffer(path: Path, content: seq<byte>)

  datatype PomFileType = PomXml | PomProps

  function TypeFilename(t: PomFileType): string {
    match t
    case PomXml => "pom.xml"
    case PomProps => "pom.properties"
  }

  /** The fields of a parsed pom.xml the analyzer reads. */
  datatype Parent = Parent(groupId: Str, version: Str)
  datatype PomModel = PomModel(groupId: Str, artifactId: Str, version: Str, parent: Option<Parent>)

  /** A parsed pom.properties: its key/value pairs. */
  type Properties = map<string, string>

  /** One recorded value with the source it was read from. */
  datatype Record = Record(value: Str, source: string)

  /** The per-component records, in the order they were recorded. */
  datatype Found = Found(groupIds: seq<Record>, artifactIds: seq<Record>, versions: seq<Record>)

  function RecordsOf(f: Found, c: Component): seq<Record> {
    match c
    case GroupId => f.groupIds
    case ArtifactId => f.artifactIds
    case Version => f.versions
  }

  /** Appends one record to one component; the other components are unchanged. */
  function Add(f: Found, c: Component, r: Record): (g: Found)
    ensures RecordsOf(g, c) == RecordsOf(f, c) + [r]
    ensures forall d :: d != c ==> RecordsOf(g, d) == RecordsOf(f, d)
  {
    match c
    case GroupId => f.(groupIds := f.groupIds + [r])
    case ArtifactId => f.(artifactIds := f.artifactIds + [r])
    case Version => f.(versions := f.versions + [r])
  }

  /** Path.getFileName of an entry path. */
  function FileName(p: Path): string {
    if |p| == 0 then "" else p[|p| - 1]
  }

  /** The pom file type, by exact (case-sensitive) file name. */
  function FileTypeOf(p: Path): (t: Option<PomFileType>)
    ensures t.Some? <==> FileName(p) == "pom.xml" || FileName(p) == "pom.properties"
    ensures t.Some? ==> TypeFilename(t.value) == FileName(p)
  {
    if FileName(p) == "pom.xml" then Some(PomXml)
    else if FileName(p) == "pom.properties" then Some(PomProps)
    else None
  }

  /** The third parent of the path exists and equals META-INF/maven: the path is
      META-INF/maven/{groupId}/{artifactId}/{file}. */
  predicate IsMavenPath(p: Path) {
    |p| == 5 && p[0] == "META-INF" && p[1] == "maven"
  }

  /** pom.xml: groupId and version fall back to the parent's, artifactId never does. */
  function XmlGroupId(m: PomModel): (r: Str)
    ensures m.groupId.Some? ==> r == m.groupId
    ensures m.groupId.None? && m.parent.Some? ==> r == m.parent.value.groupId
    ensures m.groupId.None? && m.parent.None? ==> r.None?
  {
    if m.groupId.None? && m.parent.Some? then m.parent.value.groupId else m.groupId
  }

  function XmlVersion(m: PomModel): (r: Str)
    ensures m.version.Some? ==> r == m.version
    ensures m.version.None? && m.parent.Some? ==> r == m.parent.value.version
    ensures m.version.None? && m.parent.None? ==> r.None?
  {
    if m.version.None? && m.parent.Some? then m.parent.value.version else m.version
  }

  /** Properties.getProperty. */
  function GetProperty(props: Properties, key: string): Str {
    if key in props then Some(props[key]) else None
  }

  function PathSource(p: Path): string {
    "Path: '" + Join(p, "/") + "'"
  }

  function FileSource(t: PomFileType): string {
    "File-Content: '" + TypeFilename(t) + "'"
  }

  /** after is before with one more record, read from src. */
  predicate Appended(before: seq<Record>, after: seq<Record>, src: string) {
    |after| == |before| + 1 && after[..|before|] == before && after[|before|].source == src
  }

  /** One record appended to each component. */
  function AddEach(acc: Found, g: Record, a: Record, v: Record): (f: Found)
    ensures f.groupIds == acc.groupIds + [g]
    ensures f.artifactIds == acc.artifactIds + [a]
    ensures f.versions == acc.versions + [v]
  {
    Add(Add(Add(acc, GroupId, g), ArtifactId, a), Version, v)
  }

  /** The records one file contributes after the path records: pom.xml gives
      artifactId, groupId, version; pom.properties gives groupId, artifactId,
      version. None when the file cannot be parsed. */
  function ContentRecords(t: PomFileType, content: seq<byte>,
                          parseXml: seq<byte> -> Option<PomModel>,
                          parseProps: seq<byte> -> Option<Properties>,
                          acc: Found): (r: Option<Found>)
    ensures t == PomXml ==> (r.Some? <==> parseXml(content).Some?)
    ensures t == PomProps ==> (r.Some? <==> parseProps(content).Some?)
    ensures r.Some? ==> (Appended(acc.groupIds, r.value.groupIds, FileSource(t))
      && Appended(acc.artifactIds, r.value.artifactIds, FileSource(t))
      && Appended(acc.versions, r.value.versions, FileSource(t)))
    ensures t == PomXml && r.Some? ==> (var m := parseXml(content).value;
      r.value.groupIds[|acc.groupIds|].value == XmlGroupId(m)
      && r.value.artifactIds[|acc.artifactIds|].value == m.artifactId
      && r.value.versions[|acc.versions|].value == XmlVersion(m))
    ensures t == PomProps && r.Some? ==> (var props := parseProps(content).value;
      r.value.groupIds[|acc.groupIds|].value == (if "groupId" in props then Some(props["groupId"]) else None)
      && r.value.artifactIds[|acc.artifactIds|].value == (if "artifactId" in props then Some(props["artifactId"]) else None)
      && r.value.versions[|acc.versions|].value == (if "version" in props then Some(props["version"]) else None))
  {
    var src := FileSource(t);
    match t
    case PomXml =>
      (match parseXml(content)
       case None => None
       case Some(m) =>
         var f := AddEach(acc, Record(XmlGroupId(m), src), Record(m.artifactId, src), Record(XmlVersion(m), src));
         assert f.groupIds[..|acc.groupIds|] == acc.groupIds;
         assert f.artifactIds[..|acc.artifactIds|] == acc.artifactIds;
         assert f.versions[..|acc.versions|] == acc.versions;
         Some(f))
    case PomProps =>
      (match parseProps(content)
       case None => None
       case Some(props) =>
         var f := AddEach(acc, Record(GetProperty(props, "groupId"), src), Record(GetProperty(props, "artifactId"), src),
                          Record(GetProperty(props, "version"), src));
         assert f.groupIds[..|acc.groupIds|] == acc.groupIds;
         assert f.artifactIds[..|acc.artifactIds|] == acc.artifactIds;
         assert f.versions[..|acc.versions|] == acc.versions;
         Some(f))
  }

  /** The scan state: the records so far and the sticky correct-path flag. */
  datatype ScanState = ScanState(found: Found, correctPath: bool)

  /** One file of findValueCandidatesWithSources. */
  function ScanFile(f: FileBuffer, st: ScanState,
                    parseXml: seq<byte> -> Option<PomModel>,
                    parseProps: seq<byte> -> Option<Properties>): (r: Result<ScanState, string>)
    ensures FileTypeOf(f.path).None? ==> r == Success(st)
    ensures FileTypeOf(f.path).Some? && r.Success? ==> (
      r.value.correctPath == (st.correctPath && IsMavenPath(f.path))
      && |r.value.found.versions| == |st.found.versions| + 1
      && |r.value.found.groupIds| == |st.found.groupIds| + 2
      && |r.value.found.artifactIds| == |st.found.artifactIds| + 2
      && r.value.found.groupIds[|st.found.groupIds|] ==
           Record(if r.value.correctPath then Some(f.path[2]) else None, PathSource(f.path))
      && r.value.found.artifactIds[|st.found.artifactIds|] ==
           Record(if r.value.correctPath then Some(f.path[3]) else None, PathSource(f.path))
      && Appended(st.found.versions, r.value.found.versions, FileSource(FileTypeOf(f.path).value)))
  {
    match FileTypeOf(f.path)
    case None => Success(st)
    case Some(t) =>
      var correct := st.correctPath && IsMavenPath(f.path);
      var src := PathSource(f.path);
      var groupId := if correct then Some(f.path[2]) else None;
      var artifactId := if correct then Some(f.path[3]) else None;
      var f2 := st.found.(groupIds := st.found.groupIds + [Record(groupId, src)],
                          artifactIds := st.found.artifactIds + [Record(artifactId, src)]);
      match ContentRecords(t, f.content, parseXml, parseProps, f2)
      case None => Failure("cannot parse " + TypeFilename(t))
      case Some(f3) =>
        assert f3.groupIds[|st.found.groupIds|] == f3.groupIds[..|f2.groupIds|][|st.found.groupIds|];
        assert f3.artifactIds[|st.found.artifactIds|] == f3.artifactIds[..|f2.artifactIds|][|st.found.artifactIds|];
        Success(ScanState(f3, correct))
  }

  /** findValueCandidatesWithSources over the files in order; the first parse
      failure aborts the whole analysis. */
  function Scan(files: seq<FileBuffer>, st: ScanState,
                parseXml: seq<byte> -> Option<PomModel>,
                parseProps: seq<byte> -> Option<Properties>): Result<ScanState, string>
    decreases |files|
  {
    if |files| == 0 then Success(st)
    else match ScanFile(files[0], st, parseXml, parseProps)
      case Failure(e) => Failure(e)
      case Success(st1) => Scan(files[1..], st1, parseXml, parseProps)
  }

  /** The correct-path flag after a scan: it holds iff it held before and every pom
      file scanned lies exactly under META-INF/maven/{groupId}/{artifactId}/. */
  lemma {:induction false} ScanCorrectPath(files: seq<FileBuffer>, st: ScanState,
                                           parseXml: seq<byte> -> Option<PomModel>,
                                           parseProps: seq<byte> -> Option<Properties>)
    requires Scan(files, st, parseXml, parseProps).Success?
    ensures Scan(files, st, parseXml, parseProps).value.correctPath <==>
      st.correctPath && forall i :: 0 <= i < |files| && FileTypeOf(files[i].path).Some? ==> IsMavenPath(files[i].path)
    decreases |files|
  {
    if |files| > 0 {
      var st1 := ScanFile(files[0], st, parseXml, parseProps).value;
      ScanCorrectPath(files[1..], st1, parseXml, parseProps);
      assert forall i :: 1 <= i < |files| ==> files[i] == files[1..][i - 1];
    }
  }

  /** Every record of rs was read from a file's content. */
  ghost predicate FromContent(rs: seq<Record>) {
    forall i :: 0 <= i < |rs| ==> StartsWith(rs[i].source, "File-Content: '")
  }

  lemma ContentSourceIsContent(t: PomFileType)
    ensures StartsWith(FileSource(t), "File-Content: '")
  {
    assert FileSource(t)[..|"File-Content: '"|] == "File-Content: '";
  }

  lemma AppendedFromContent(before: seq<Record>, after: seq<Record>, src: string)
    requires Appended(before, after, src) && FromContent(before) && StartsWith(src, "File-Content: '")
    ensures FromContent(after)
  {
    forall i | 0 <= i < |after|
      ensures StartsWith(after[i].source, "File-Content: '")
    {
      if i < |before| {
        assert after[i] == after[..|before|][i];
      }
    }
  }

  /** One file keeps the version records content-sourced. */
  lemma ScanFileVersionsFromContent(f: FileBuffer, st: ScanState,
                                    parseXml: seq<byte> -> Option<PomModel>,
                                    parseProps: seq<byte> -> Option<Properties>)
    requires ScanFile(f, st, parseXml, parseProps).Success?
    requires FromContent(st.found.versions)
    ensures FromContent(ScanFile(f, st, parseXml, parseProps).value.found.versions)
  {
    if FileTypeOf(f.path).Some? {
      var t := FileTypeOf(f.path).value;
      ContentSourceIsContent(t);
      AppendedFromContent(st.found.versions, ScanFile(f, st, parseXml, parseProps).value.found.versions, FileSource(t));
    }
  }

  /** Path sources never reach the version records: every version record comes
      from the content of a pom.xml or pom.properties. */
  lemma {:induction false} VersionsFromContentOnly(files: seq<FileBuffer>, st: ScanState,
                                                   parseXml: seq<byte> -> Option<PomModel>,
                                                   parseProps: seq<byte> -> Option<Properties>)
    requires Scan(files, st, parseXml, parseProps).Success?
    requires FromContent(st.found.versions)
    ensures FromContent(Scan(files, st, parseXml, parseProps).value.found.versions)
    decreases |files|
  {
    if |files| > 0 {
      var st1 := ScanFile(files[0], st, parseXml, parseProps).value;
      ScanFileVersionsFromContent(files[0], st, parseXml, parseProps);
      VersionsFromContentOnly(files[1..], st1, parseXml, parseProps);
    }
  }

  // ---------------------------------------------------------------- emission

  /** The distinct values of the records, in order of first occurrence (the keys
      of the per-component value map). */
  function DistinctValues(rs: seq<Record>): (vs: seq<Str>)
    ensures forall v :: v in vs <==> exists i :: 0 <= i < |rs| && rs[i].value == v
    ensures forall i, j :: 0 <= i < j < |vs| ==> vs[i] != vs[j]
    decreases |rs|
  {
    if |rs| == 0 then []
    else
      var init := DistinctValues(rs[..|rs| - 1]);
      var v := rs[|rs| - 1].value;
      assert forall i :: 0 <= i < |rs| - 1 ==> rs[..|rs| - 1][i] == rs[i];
      if v in init then init else init + [v]
  }

  /** The records holding value v, in order. */
  function WithValue(rs: seq<Record>, v: Str): (r: seq<Record>)
    ensures forall i :: 0 <= i < |r| ==> r[i].value == v
    decreases |rs|
  {
    if |rs| == 0 then []
    else WithValue(rs[..|rs| - 1], v) + (if rs[|rs| - 1].value == v then [rs[|rs| - 1]] else [])
  }

  function LowConfidence(c: Component, rs: seq<Record>): (r: seq<Emitted>)
    ensures |r| == |rs|
    ensures forall i :: 0 <= i < |r| ==> r[i] == Emitted(c, rs[i].value, 2, rs[i].source)
  {
    seq(|rs|, i requires 0 <= i < |rs| => Emitted(c, rs[i].value, 2, rs[i].source))
  }

  const BothFiles: string := "pom.xml / pom.properties"

  /** Every record holds the same value, and that value is not null. */
  predicate Agree(rs: seq<Record>) {
    |rs| > 0 && rs[0].value.Some? && forall i :: 0 <= i < |rs| ==> rs[i].value == rs[0].value
  }

  /** The records agree exactly when their one distinct value is not null. */
  lemma AgreeIsSingleValue(rs: seq<Record>)
    ensures Agree(rs) <==> |DistinctValues(rs)| == 1 && DistinctValues(rs)[0].Some?
  {
    var vs := DistinctValues(rs);
    if Agree(rs) {
      assert rs[0].value in vs;
      forall i | 0 <= i < |vs|
        ensures vs[i] == rs[0].value
      {
        assert vs[i] in vs;
      }
    }
    if |vs| == 1 && vs[0].Some? {
      assert vs[0] in vs;
      assert forall i :: 0 <= i < |rs| ==> rs[i].value in vs;
    }
  }

  /** The candidates of one component: exactly one distinct value that is not null
      gives one candidate of score 10; otherwise every record gives a candidate of
      score 2, null values included. */
  function EmitComponent(c: Component, rs: seq<Record>): (r: seq<Emitted>)
    ensures forall i :: 0 <= i < |r| ==> r[i].component == c
    ensures var vs := DistinctValues(rs);
      |vs| == 1 && vs[0].Some? ==> r == [Emitted(c, vs[0], 10, BothFiles)]
    ensures (exists i :: 0 <= i < |r| && r[i].score == 10) <==> |r| == 1 && r[0].score == 10
    ensures |r| == 1 && r[0].score == 10 ==>
      r[0].value.Some? && forall i :: 0 <= i < |rs| ==> rs[i].value == r[0].value
    ensures Agree(rs) ==> r == [Emitted(c, rs[0].value, 10, BothFiles)]
    ensures !Agree(rs) ==> forall i :: 0 <= i < |r| ==> r[i].score == 2
    ensures !Agree(rs) ==> multiset(r) == multiset(LowConfidence(c, rs))
  {
    AgreeIsSingleValue(rs);
    var vs := DistinctValues(rs);
    if |vs| == 1 && vs[0].Some? then
      assert forall i :: 0 <= i < |rs| ==> rs[i].value in vs;
      [Emitted(c, vs[0], 10, BothFiles)]
    else
      EmitGroupsIsLowConfidence(c, rs, vs);
      EmitGroupsComponent(c, rs, vs)
  }

  function EmitGroupsComponent(c: Component, rs: seq<Record>, vs: seq<Str>): (r: seq<Emitted>)
    ensures forall i :: 0 <= i < |r| ==> r[i].component == c && r[i].score == 2
    decreases |vs|
  {
    if |vs| == 0 then []
    else
      var head := LowConfidence(c, WithValue(rs, vs[0]));
      head + EmitGroupsComponent(c, rs, vs[1..])
  }

  /** Number of candidates holding value v. */
  function CountValue(es: seq<Emitted>, v: Str): nat
    decreases |es|
  {
    if |es| == 0 then 0 else (if es[0].value == v then 1 else 0) + CountValue(es[1..], v)
  }

  function CountRecords(rs: seq<Record>, v: Str): nat
    decreases |rs|
  {
    if |rs| == 0 then 0 else CountRecords(rs[..|rs| - 1], v) + (if rs[|rs| - 1].value == v then 1 else 0)
  }

  lemma {:induction false} CountValueAppend(a: seq<Emitted>, b: seq<Emitted>, v: Str)
    ensures CountValue(a + b, v) == CountValue(a, v) + CountValue(b, v)
    decreases |a|
  {
    if |a| == 0 {
      assert a + b == b;
    } else {
      assert (a + b)[1..] == a[1..] + b;
      CountValueAppend(a[1..], b, v);
    }
  }

  lemma {:induction false} CountLowConfidence(c: Component, rs: seq<Record>, v: Str)
    ensures CountValue(LowConfidence(c, rs), v) == CountRecords(rs, v)
    decreases |rs|
  {
    if |rs| > 0 {
      var init := rs[..|rs| - 1];
      CountLowConfidence(c, init, v);
      assert LowConfidence(c, rs) == LowConfidence(c, init) + [Emitted(c, rs[|rs| - 1].value, 2, rs[|rs| - 1].source)];
      CountValueAppend(LowConfidence(c, init), [Emitted(c, rs[|rs| - 1].value, 2, rs[|rs| - 1].source)], v);
    }
  }

  lemma {:induction false} CountWithValue(rs: seq<Record>, w: Str, v: Str)
    ensures CountRecords(WithValue(rs, w), v) == if w == v then CountRecords(rs, v) else 0
    decreases |rs|
  {
    if |rs| > 0 {
      var init := rs[..|rs| - 1];
      CountWithValue(init, w, v);
      var tail := if rs[|rs| - 1].value == w then [rs[|rs| - 1]] else [];
      CountRecordsAppend(WithValue(init, w), tail, v);
    }
  }

  lemma {:induction false} CountRecordsAppend(a: seq<Record>, b: seq<Record>, v: Str)
    ensures CountRecords(a + b, v) == CountRecords(a, v) + CountRecords(b, v)
    decreases |b|
  {
    if |b| > 0 {
      assert (a + b)[..|a + b| - 1] == a + b[..|b| - 1];
      CountRecordsAppend(a, b[..|b| - 1], v);
    } else {
      assert a + b == a;
    }
  }

  /** In the low-confidence case each value is proposed once per record holding it,
      so its candidates total 2 points per source. */
  lemma {:induction false} EmitGroupsCount(c: Component, rs: seq<Record>, vs: seq<Str>, v: Str)
    requires forall i, j :: 0 <= i < j < |vs| ==> vs[i] != vs[j]
    ensures CountValue(EmitGroupsComponent(c, rs, vs), v) == if v in vs then CountRecords(rs, v) else 0
    decreases |vs|
  {
    if |vs| > 0 {
      EmitGroupsCount(c, rs, vs[1..], v);
      CountValueAppend(LowConfidence(c, WithValue(rs, vs[0])), EmitGroupsComponent(c, rs, vs[1..]), v);
      CountLowConfidence(c, WithValue(rs, vs[0]), v);
      CountWithValue(rs, vs[0], v);
      assert v in vs <==> v == vs[0] || v in vs[1..];
      if v == vs[0] {
        assert v !in vs[1..];
      }
    }
  }

  /** Outside the single-value case every record becomes exactly one score-2
      candidate of its value: a value with n sources gets n candidates. */
  lemma EmitComponentCounts(c: Component, rs: seq<Record>, v: Str)
    requires var vs := DistinctValues(rs); !(|vs| == 1 && vs[0].Some?)
    ensures CountValue(EmitComponent(c, rs), v) == CountRecords(rs, v)
    ensures forall e :: e in EmitComponent(c, rs) ==> e.score == 2
  {
    var vs := DistinctValues(rs);
    EmitGroupsCount(c, rs, vs, v);
    if v !in vs {
      CountRecordsAbsent(rs, v);
    }
  }

  /** Low-confidence emission distributes over concatenation. */
  lemma LowConfidenceAppend(c: Component, a: seq<Record>, b: seq<Record>)
    ensures LowConfidence(c, a + b) == LowConfidence(c, a) + LowConfidence(c, b)
  {
  }

  /** The candidates of the records holding w are those of all records whose value
      is w, each as often. */
  lemma {:induction false} LowConfidenceWithValue(c: Component, rs: seq<Record>, w: Str, e: Emitted)
    ensures multiset(LowConfidence(c, WithValue(rs, w)))[e]
      == if e.value == w then multiset(LowConfidence(c, rs))[e] else 0
    decreases |rs|
  {
    if |rs| > 0 {
      var init, last := rs[..|rs| - 1], rs[|rs| - 1];
      LowConfidenceWithValue(c, init, w, e);
      var tail := if last.value == w then [last] else [];
      LowConfidenceAppend(c, WithValue(init, w), tail);
      LowConfidenceAppend(c, init, [last]);
      assert init + [last] == rs;
    }
  }

  /** The low-confidence candidates of distinct values vs are those of all records
      whose value is among vs. */
  lemma {:induction false} EmitGroupsMultiset(c: Component, rs: seq<Record>, vs: seq<Str>, e: Emitted)
    requires forall i, j :: 0 <= i < j < |vs| ==> vs[i] != vs[j]
    ensures multiset(EmitGroupsComponent(c, rs, vs))[e]
      == if e.value in vs then multiset(LowConfidence(c, rs))[e] else 0
    decreases |vs|
  {
    if |vs| > 0 {
      EmitGroupsMultiset(c, rs, vs[1..], e);
      LowConfidenceWithValue(c, rs, vs[0], e);
      assert e.value in vs <==> e.value == vs[0] || e.value in vs[1..];
      if e.value == vs[0] {
        assert e.value !in vs[1..];
      }
    }
  }

  /** Emitting every value group of the records gives exactly one candidate per
      record, of the record's value, scored 2, with the record's source as detail (in
      the value map's order, which the model leaves open). */
  lemma EmitGroupsIsLowConfidence(c: Component, rs: seq<Record>, vs: seq<Str>)
    requires vs == DistinctValues(rs)
    ensures multiset(EmitGroupsComponent(c, rs, vs)) == multiset(LowConfidence(c, rs))
  {
    forall e ensures multiset(EmitGroupsComponent(c, rs, vs))[e] == multiset(LowConfidence(c, rs))[e] {
      EmitGroupsMultiset(c, rs, vs, e);
      if e.value !in vs {
        assert e !in LowConfidence(c, rs);
      }
    }
  }

  lemma {:induction false} CountRecordsAbsent(rs: seq<Record>, v: Str)
    requires forall i :: 0 <= i < |rs| ==> rs[i].value != v
    ensures CountRecords(rs, v) == 0
    decreases |rs|
  {
    if |rs| > 0 {
      CountRecordsAbsent(rs[..|rs| - 1], v);
    }
  }

  /** The candidates of component c, in order. */
  function OfComponent(es: seq<Emitted>, c: Component): (r: seq<Emitted>)
    ensures forall e :: e in r <==> e in es && e.component == c
    decreases |es|
  {
    if |es| == 0 then [] else (if es[0].component == c then [es[0]] else []) + OfComponent(es[1..], c)
  }

  lemma {:induction false} OfComponentAppend(a: seq<Emitted>, b: seq<Emitted>, c: Component)
    ensures OfComponent(a + b, c) == OfComponent(a, c) + OfComponent(b, c)
    decreases |a|
  {
    if |a| == 0 {
      assert a + b == b;
    } else {
      assert (a + b)[1..] == a[1..] + b;
      OfComponentAppend(a[1..], b, c);
    }
  }

  lemma {:induction false} OfComponentOnly(es: seq<Emitted>, d: Component, c: Component)
    requires forall i :: 0 <= i < |es| ==> es[i].component == d
    ensures OfComponent(es, c) == if c == d then es else []
    decreases |es|
  {
    if |es| > 0 {
      OfComponentOnly(es[1..], d, c);
    }
  }

  /** The records of a successful scan of the files from the initial state. */
  function FoundOf(files: seq<FileBuffer>,
                   parseXml: seq<byte> -> Option<PomModel>,
                   parseProps: seq<byte> -> Option<Properties>): Result<Found, string>
  {
    match Scan(files, ScanState(Found([], [], []), true), parseXml, parseProps)
    case Failure(e) => Failure(e)
    case Success(st) => Success(st.found)
  }

  /** Candidates of three single-component runs split back into those runs. */
  lemma SplitByComponent(g: seq<Emitted>, a: seq<Emitted>, v: seq<Emitted>)
    requires forall i :: 0 <= i < |g| ==> g[i].component == GroupId
    requires forall i :: 0 <= i < |a| ==> a[i].component == ArtifactId
    requires forall i :: 0 <= i < |v| ==> v[i].component == Version
    ensures OfComponent(g + a + v, GroupId) == g
    ensures OfComponent(g + a + v, ArtifactId) == a
    ensures OfComponent(g + a + v, Version) == v
  {
    OfThree(g, a, v, GroupId);
    assert g + [] + [] == g;
    OfThree(g, a, v, ArtifactId);
    assert [] + a + [] == a;
    OfThree(g, a, v, Version);
    assert [] + [] + v == v;
  }

  lemma OfThree(g: seq<Emitted>, a: seq<Emitted>, v: seq<Emitted>, c: Component)
    requires forall i :: 0 <= i < |g| ==> g[i].component == GroupId
    requires forall i :: 0 <= i < |a| ==> a[i].component == ArtifactId
    requires forall i :: 0 <= i < |v| ==> v[i].component == Version
    ensures OfComponent(g + a + v, c) == OfComponent(g, c) + OfComponent(a, c) + OfComponent(v, c)
    ensures OfComponent(g, c) == (if c == GroupId then g else [])
    ensures OfComponent(a, c) == (if c == ArtifactId then a else [])
    ensures OfComponent(v, c) == (if c == Version then v else [])
  {
    OfComponentAppend(g + a, v, c);
    OfComponentAppend(g, a, c);
    OfComponentOnly(g, GroupId, c);
    OfComponentOnly(a, ArtifactId, c);
    OfComponentOnly(v, Version, c);
  }

  /** PomAnalyzer.analyze: no pom files, no candidates; a parse failure fails the
      analysis; otherwise the groupId candidates, then the artifactId ones, then the
      version ones, each component emitted from the records the scan gathered for it. */
  function Analyze(files: seq<FileBuffer>,
                   parseXml: seq<byte> -> Option<PomModel>,
                   parseProps: seq<byte> -> Option<Properties>): (r: Result<seq<Emitted>, string>)
    ensures |files| == 0 ==> r == Success([])
    ensures |files| > 0 ==> (r.Success? <==> FoundOf(files, parseXml, parseProps).Success?)
    ensures r.Success? ==>
      r.value == OfComponent(r.value, GroupId) + OfComponent(r.value, ArtifactId) + OfComponent(r.value, Version)
    ensures r.Success? && |files| > 0 ==> forall c ::
      OfComponent(r.value, c) == EmitComponent(c, RecordsOf(FoundOf(files, parseXml, parseProps).value, c))
  {
    if |files| == 0 then Success([])
    else match Scan(files, ScanState(Found([], [], []), true), parseXml, parseProps)
      case Failure(e) => Failure(e)
      case Success(st) =>
        EmitAllSplits(st.found);
        Success(EmitAll(st.found))
  }

  /** The candidates of the three components, groupId first. */
  function EmitAll(found: Found): seq<Emitted> {
    EmitComponent(GroupId, found.groupIds) + EmitComponent(ArtifactId, found.artifactIds)
    + EmitComponent(Version, found.versions)
  }

  lemma EmitAllSplits(found: Found)
    ensures var r := EmitAll(found);
      r == OfComponent(r, GroupId) + OfComponent(r, ArtifactId) + OfComponent(r, Version)
    ensures forall c :: OfComponent(EmitAll(found), c) == EmitComponent(c, RecordsOf(found, c))
  {
    var g, a, v := EmitComponent(GroupId, found.groupIds), EmitComponent(ArtifactId, found.artifactIds),
                   EmitComponent(Version, found.versions);
    SplitByComponent(g, a, v);
    forall c ensures OfComponent(EmitAll(found), c) == EmitComponent(c, RecordsOf(found, c)) {
      match c
      case GroupId =>
      case ArtifactId =>
      case Version =>
    }
  }

  /** Per component: when all the records gathered for it carry the same non-null
      value, that value is the one candidate, scored 10; otherwise every candidate
      scores 2 and each value is proposed once per record that holds it. */
  lemma AnalyzeComponent(files: seq<FileBuffer>,
                         parseXml: seq<byte> -> Option<PomModel>,
                         parseProps: seq<byte> -> Option<Properties>, c: Component, v: Str)
    requires |files| > 0 && Analyze(files, parseXml, parseProps).Success?
    ensures var rs := RecordsOf(FoundOf(files, parseXml, parseProps).value, c);
      var es := OfComponent(Analyze(files, parseXml, parseProps).value, c);
      (Agree(rs) ==> es == [Emitted(c, rs[0].value, 10, BothFiles)])
      && (!Agree(rs) ==> (forall e :: e in es ==> e.score == 2) && CountValue(es, v) == CountRecords(rs, v))
  {
    var rs := RecordsOf(FoundOf(files, parseXml, parseProps).value, c);
    if !Agree(rs) {
      AgreeIsSingleValue(rs);
      EmitComponentCounts(c, rs, v);
    }
  }

  /** Every record holds the value Some(w). */
  predicate AllValue(rs: seq<Record>, w: string) {
    forall i :: 0 <= i < |rs| ==> rs[i].value == Some(w)
  }

  /** A pom file under META-INF/maven/g/a/ whose content parses and names g, a and v. */
  predicate AgreeingFile(f: FileBuffer, g: string, a: string, v: string,
                         parseXml: seq<byte> -> Option<PomModel>,
                         parseProps: seq<byte> -> Option<Properties>)
  {
    FileTypeOf(f.path).Some? && IsMavenPath(f.path) && f.path[2] == g && f.path[3] == a
    && match FileTypeOf(f.path).value
       case PomXml =>
         parseXml(f.content).Some? && (var m := parseXml(f.content).value;
           XmlGroupId(m) == Some(g) && m.artifactId == Some(a) && XmlVersion(m) == Some(v))
       case PomProps =>
         parseProps(f.content).Some? && (var p := parseProps(f.content).value;
           GetProperty(p, "groupId") == Some(g) && GetProperty(p, "artifactId") == Some(a)
           && GetProperty(p, "version") == Some(v))
  }

  /** The scan state a run of agreeing files keeps. */
  predicate AgreeingState(st: ScanState, g: string, a: string, v: string) {
    st.correctPath && AllValue(st.found.groupIds, g) && AllValue(st.found.artifactIds, a)
    && AllValue(st.found.versions, v)
  }

  lemma AppendedAllValue(before: seq<Record>, after: seq<Record>, src: string, w: string)
    requires Appended(before, after, src) && AllValue(before, w) && after[|before|].value == Some(w)
    ensures AllValue(after, w)
  {
    forall i | 0 <= i < |after| ensures after[i].value == Some(w) {
      if i < |before| {
        assert after[i] == after[..|before|][i];
      }
    }
  }

  lemma ScanAgreeingFile(f: FileBuffer, st: ScanState, g: string, a: string, v: string,
                         parseXml: seq<byte> -> Option<PomModel>,
                         parseProps: seq<byte> -> Option<Properties>)
    requires AgreeingFile(f, g, a, v, parseXml, parseProps) && AgreeingState(st, g, a, v)
    ensures ScanFile(f, st, parseXml, parseProps).Success?
    ensures AgreeingState(ScanFile(f, st, parseXml, parseProps).value, g, a, v)
    ensures |ScanFile(f, st, parseXml, parseProps).value.found.versions| == |st.found.versions| + 1
  {
    var t := FileTypeOf(f.path).value;
    var src := PathSource(f.path);
    var f2 := st.found.(groupIds := st.found.groupIds + [Record(Some(g), src)],
                        artifactIds := st.found.artifactIds + [Record(Some(a), src)]);
    assert AllValue(f2.groupIds, g) && AllValue(f2.artifactIds, a);
    var f3 := ContentRecords(t, f.content, parseXml, parseProps, f2);
    assert f3.Some?;
    AppendedAllValue(f2.groupIds, f3.value.groupIds, FileSource(t), g);
    AppendedAllValue(f2.artifactIds, f3.value.artifactIds, FileSource(t), a);
    AppendedAllValue(f2.versions, f3.value.versions, FileSource(t), v);
    assert ScanFile(f, st, parseXml, parseProps) == Success(ScanState(f3.value, true));
  }

  lemma {:induction false} ScanAgreeing(files: seq<FileBuffer>, st: ScanState, g: string, a: string, v: string,
                                        parseXml: seq<byte> -> Option<PomModel>,
                                        parseProps: seq<byte> -> Option<Properties>)
    requires AllAgreeing(files, g, a, v, parseXml, parseProps)
    requires AgreeingState(st, g, a, v)
    ensures Scan(files, st, parseXml, parseProps).Success?
    ensures AgreeingState(Scan(files, st, parseXml, parseProps).value, g, a, v)
    ensures |Scan(files, st, parseXml, parseProps).value.found.versions| == |st.found.versions| + |files|
    decreases |files|
  {
    if |files| > 0 {
      AllAgreeingTail(files, g, a, v, parseXml, parseProps);
      ScanAgreeingFile(files[0], st, g, a, v, parseXml, parseProps);
      var st1 := ScanFile(files[0], st, parseXml, parseProps).value;
      ScanStep(files, st, parseXml, parseProps);
      ScanAgreeing(files[1..], st1, g, a, v, parseXml, parseProps);
    }
  }

  predicate AllAgreeing(files: seq<FileBuffer>, g: string, a: string, v: string,
                        parseXml: seq<byte> -> Option<PomModel>,
                        parseProps: seq<byte> -> Option<Properties>)
  {
    forall i :: 0 <= i < |files| ==> AgreeingFile(files[i], g, a, v, parseXml, parseProps)
  }

  lemma AllAgreeingTail(files: seq<FileBuffer>, g: string, a: string, v: string,
                        parseXml: seq<byte> -> Option<PomModel>,
                        parseProps: seq<byte> -> Option<Properties>)
    requires |files| > 0 && AllAgreeing(files, g, a, v, parseXml, parseProps)
    ensures AgreeingFile(files[0], g, a, v, parseXml, parseProps)
    ensures AllAgreeing(files[1..], g, a, v, parseXml, parseProps)
  {
    forall i | 0 <= i < |files[1..]| ensures AgreeingFile(files[1..][i], g, a, v, parseXml, parseProps) {
      assert files[1..][i] == files[i + 1];
    }
  }

  /** A successful first file hands its state on to the scan of the rest. */
  lemma ScanStep(files: seq<FileBuffer>, st: ScanState,
                 parseXml: seq<byte> -> Option<PomModel>,
                 parseProps: seq<byte> -> Option<Properties>)
    requires |files| > 0 && ScanFile(files[0], st, parseXml, parseProps).Success?
    ensures Scan(files, st, parseXml, parseProps)
      == Scan(files[1..], ScanFile(files[0], st, parseXml, parseProps).value, parseXml, parseProps)
  {
  }

  /** Pom files that all lie under META-INF/maven/g/a/ and all name g, a and v in their
      content yield exactly the three score-10 candidates g, a and v. */
  lemma AgreeingPomFiles(files: seq<FileBuffer>, g: string, a: string, v: string,
                         parseXml: seq<byte> -> Option<PomModel>,
                         parseProps: seq<byte> -> Option<Properties>)
    requires |files| > 0
    requires forall i :: 0 <= i < |files| ==> AgreeingFile(files[i], g, a, v, parseXml, parseProps)
    ensures Analyze(files, parseXml, parseProps)
      == Success([Emitted(GroupId, Some(g), 10, BothFiles), Emitted(ArtifactId, Some(a), 10, BothFiles),
                  Emitted(Version, Some(v), 10, BothFiles)])
  {
    var st0 := ScanState(Found([], [], []), true);
    ScanAgreeing(files, st0, g, a, v, parseXml, parseProps);
    ScanLengths(files, st0, parseXml, parseProps);
    var found := Scan(files, st0, parseXml, parseProps).value.found;
    assert FoundOf(files, parseXml, parseProps) == Success(found);
    AgreeingEmit(found, g, a, v);
    EmitAllSplits(found);
  }

  lemma AgreeingEmit(found: Found, g: string, a: string, v: string)
    requires |found.groupIds| > 0 && |found.artifactIds| > 0 && |found.versions| > 0
    requires AllValue(found.groupIds, g) && AllValue(found.artifactIds, a) && AllValue(found.versions, v)
    ensures EmitAll(found) == [Emitted(GroupId, Some(g), 10, BothFiles), Emitted(ArtifactId, Some(a), 10, BothFiles),
                               Emitted(Version, Some(v), 10, BothFiles)]
  {
    assert Agree(found.groupIds) && Agree(found.artifactIds) && Agree(found.versions);
  }

  /** Each scanned pom file adds one version record and two groupId and artifactId
      records. */
  lemma {:induction false} ScanLengths(files: seq<FileBuffer>, st: ScanState,
                                       parseXml: seq<byte> -> Option<PomModel>,
                                       parseProps: seq<byte> -> Option<Properties>)
    requires Scan(files, st, parseXml, parseProps).Success?
    ensures var f := Scan(files, st, parseXml, parseProps).value.found;
      |f.groupIds| - |st.found.groupIds| == |f.artifactIds| - |st.found.artifactIds|
      == 2 * (|f.versions| - |st.found.versions|)
    decreases |files|
  {
    if |files| > 0 {
      var st1 := ScanFile(files[0], st, parseXml, parseProps).value;
      ScanLengths(files[1..], st1, parseXml, parseProps);
    }
  }

  /** Files with other names (say "POM.xml") contribute nothing to the scan. */
  lemma OtherFilesIgnored(f: FileBuffer, st: ScanState,
                          parseXml: seq<byte> -> Option<PomModel>,
                          parseProps: seq<byte> -> Option<Properties>)
    requires FileName(f.path) != "pom.xml" && FileName(f.path) != "pom.properties"
    ensures ScanFile(f, st, parseXml, parseProps) == Success(st)
  {
  }
}
