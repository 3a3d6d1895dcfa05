/** Generator: the text of the install script and of the POM built from the jar
    reports of one or more analysis reports. Reading the report files, checking the
    jar files and writing the outputs are left out; the platform's joining of a
    directory and a file name is a parameter. */
module Generator {
  import opened Wrappers
  import opened Seqs
  import opened Text
  import opened MavenUid

  datatype ScriptType = Powershell

  /** The declared constants, in declaration order (ScriptType.values()). */
  const ScriptTypes: seq<ScriptType> := [Powershell]

  function FileExtension(t: ScriptType): string {
    match t
    case Powershell => "ps1"
  }

  /** ScriptType.fileExtensions.get: the script type with the given file extension. */
  function ScriptTypeOf(ext: string): (r: Option<ScriptType>)
    ensures r.Some? ==> FileExtension(r.value) == ext
    ensures r.None? ==> forall t :: FileExtension(t) != ext
  {
    Lookup(ScriptTypes, ext)
  }

  function Lookup(types: seq<ScriptType>, ext: string): (r: Option<ScriptType>)
    ensures r.Some? ==> r.value in types && FileExtension(r.value) == ext
    ensures r.None? ==> forall i :: 0 <= i < |types| ==> FileExtension(types[i]) != ext
    decreases |types|
  {
    if |types| == 0 then None
    else if FileExtension(types[0]) == ext then Some(types[0])
    else Lookup(types[1..], ext)
  }

  /** "ps1" is the only extension, and it names Powershell. */
  lemma FileExtensionsRoundTrip(ext: string)
    ensures ScriptTypeOf(ext).Some? <==> ext == "ps1"
    ensures ScriptTypeOf("ps1") == Some(Powershell)
  {
  }

  /** One jar of an analysis report. */
  datatype JarReport = JarReport(filename: string, dir: string, sha256: string, foundOnRemote: bool, result: Uid)

  const ExitOnMvnError: string := "if (-not $?) {exit 1}"

  /** String concatenation renders null as "null". */
  function Render(s: Str): string {
    match s
    case None => "null"
    case Some(v) => v
  }

  /** Character.isWhitespace: the ASCII controls \t \n \u000B \f \r and U+001C to
      U+001F, and the Unicode space, line and paragraph separators except the
      non-breaking ones (U+00A0, U+2007, U+202F). */
  predicate IsJavaWhitespace(c: char) {
    ('\U{0009}' <= c <= '\U{000D}') || ('\U{001C}' <= c <= '\U{001F}') || c == ' '
    || c == '\U{1680}' || ('\U{2000}' <= c <= '\U{2006}') || ('\U{2008}' <= c <= '\U{200A}')
    || c == '\U{2028}' || c == '\U{2029}' || c == '\U{205F}' || c == '\U{3000}'
  }

  /** String.isBlank: empty or white space only. */
  predicate IsBlank(s: string) {
    forall i :: 0 <= i < |s| ==> IsJavaWhitespace(s[i])
  }

  /** A classifier is written out when it is set and not blank. */
  predicate HasClassifier(u: Uid) {
    u.classifier.Some? && !IsBlank(u.classifier.value)
  }

  // ---------------------------------------------------------------- install script

  function ClassifierArg(u: Uid): string {
    if HasClassifier(u) then " -Dclassifier='" + u.classifier.value + "'" else ""
  }

  /** The command, the packaging and the jar's path. */
  function ScriptHead(command: string, jarPath: string): string {
    command + " -Dpackaging='jar' -Dfile='" + jarPath + "'"
  }

  const ScriptTail: string := "; " + ExitOnMvnError + "\n"

  function GroupIdArg(u: Uid): string { " -DgroupId='" + Render(u.groupId) + "'" }

  function ArtifactIdArg(u: Uid): string { " -DartifactId='" + Render(u.artifactId) + "'" }

  function VersionArg(u: Uid): string { " -Dversion='" + Render(u.version) + "'" }

  /** The install command for one jar: after the command, the packaging and the
      jar's path come the groupId, artifactId and version arguments, one right after
      the other, then the classifier argument if any, and the exit-on-error tail
      ends the line. */
  function ScriptLine(command: string, jarPath: string, u: Uid): (line: string)
    ensures StartsWith(line, ScriptHead(command, jarPath))
    ensures OccursAt(GroupIdArg(u), line, |ScriptHead(command, jarPath)|)
    ensures OccursAt(ArtifactIdArg(u), line, |ScriptHead(command, jarPath)| + |GroupIdArg(u)|)
    ensures OccursAt(VersionArg(u), line, |ScriptHead(command, jarPath)| + |GroupIdArg(u)| + |ArtifactIdArg(u)|)
    ensures OccursAt(ClassifierArg(u), line,
                     |ScriptHead(command, jarPath)| + |GroupIdArg(u)| + |ArtifactIdArg(u)| + |VersionArg(u)|)
    ensures |line| == |ScriptHead(command, jarPath)| + |GroupIdArg(u)| + |ArtifactIdArg(u)| + |VersionArg(u)|
                      + |ClassifierArg(u)| + |ScriptTail|
    ensures EndsWith(line, ScriptTail)
  {
    var head := ScriptHead(command, jarPath);
    var g, a, v, c := GroupIdArg(u), ArtifactIdArg(u), VersionArg(u), ClassifierArg(u);
    SixParts(head, g, a, v, c, ScriptTail);
    head + (g + (a + (v + (c + ScriptTail))))
  }

  /** The classifier argument leaves the line as it is without a classifier exactly
      when the classifier is unset or blank. */
  lemma ClassifierArgIff(command: string, jarPath: string, u: Uid)
    ensures ScriptLine(command, jarPath, u) == ScriptLine(command, jarPath, u.(classifier := None))
      <==> !HasClassifier(u)
  {
    var bare := u.(classifier := None);
    assert ClassifierArg(bare) == "";
    if HasClassifier(u) {
      assert |ClassifierArg(u)| > 0;
      assert |ScriptLine(command, jarPath, u)| > |ScriptLine(command, jarPath, bare)|;
    }
  }

  /** Where each of six consecutive parts sits in their concatenation. */
  lemma SixParts(h: string, g: string, a: string, v: string, c: string, t: string)
    ensures StartsWith(h + (g + (a + (v + (c + t)))), h) && EndsWith(h + (g + (a + (v + (c + t)))), t)
    ensures OccursAt(g, h + (g + (a + (v + (c + t)))), |h|)
    ensures OccursAt(a, h + (g + (a + (v + (c + t)))), |h| + |g|)
    ensures OccursAt(v, h + (g + (a + (v + (c + t)))), |h| + |g| + |a|)
    ensures OccursAt(c, h + (g + (a + (v + (c + t)))), |h| + |g| + |a| + |v|)
  {
    SixPartsInside(h, g, a, v, c, t);
    var r4 := c + t;
    var r3 := v + r4;
    var r2 := a + r3;
    var r1 := g + r2;
    StartsWithHead(h, r1);
    EndsWithTail(c, t);
    EndsWithBehind(v, r4, t);
    EndsWithBehind(a, r3, t);
    EndsWithBehind(g, r2, t);
    EndsWithBehind(h, r1, t);
  }

  lemma SixPartsInside(h: string, g: string, a: string, v: string, c: string, t: string)
    ensures OccursAt(g, h + (g + (a + (v + (c + t)))), |h|)
    ensures OccursAt(a, h + (g + (a + (v + (c + t)))), |h| + |g|)
    ensures OccursAt(v, h + (g + (a + (v + (c + t)))), |h| + |g| + |a|)
    ensures OccursAt(c, h + (g + (a + (v + (c + t)))), |h| + |g| + |a| + |v|)
  {
    var r2 := a + (v + (c + t));
    var r1 := g + r2;
    ThreeInside(a, v, c, t);
    HeadAt(g, r2);
    Shift(a, r2, g, 0);
    Shift(v, r2, g, |a|);
    Shift(c, r2, g, |a| + |v|);
    Shift(g, r1, h, 0);
    Shift(a, r1, h, |g|);
    Shift(v, r1, h, |g| + |a|);
    Shift(c, r1, h, |g| + |a| + |v|);
  }

  /** Where the first three of four consecutive parts sit in their concatenation. */
  lemma ThreeInside(a: string, v: string, c: string, t: string)
    ensures OccursAt(a, a + (v + (c + t)), 0)
    ensures OccursAt(v, a + (v + (c + t)), |a|)
    ensures OccursAt(c, a + (v + (c + t)), |a| + |v|)
  {
    var r4 := c + t;
    var r3 := v + r4;
    HeadAt(c, t);
    HeadAt(v, r4);
    Shift(c, r4, v, 0);
    HeadAt(a, r3);
    Shift(v, r3, a, 0);
    Shift(c, r3, a, |v|);
  }

  lemma HeadAt(x: string, q: string)
    ensures OccursAt(x, x + q, 0)
  {
    assert (x + q)[..|x|] == x;
  }

  lemma Shift(x: string, q: string, p: string, k: int)
    requires OccursAt(x, q, k)
    ensures OccursAt(x, p + q, |p| + k)
  {
    assert (p + q)[|p| + k..|p| + k + |x|] == q[k..k + |x|];
  }

  /** The reports of jars that are not in a remote repository yet. */
  function NotFound(jars: seq<JarReport>): (r: seq<JarReport>)
    ensures forall j :: j in r <==> j in jars && !j.foundOnRemote
    ensures |r| <= |jars|
    ensures |jars| == 1 ==> r == (if jars[0].foundOnRemote then [] else jars)
    ensures (forall i :: 0 <= i < |jars| ==> !jars[i].foundOnRemote) ==> r == jars
    decreases |jars|
  {
    if |jars| == 0 then []
    else (if jars[0].foundOnRemote then [] else [jars[0]]) + NotFound(jars[1..])
  }

  /** The install command of one jar, its path joined from the report's directory
      and file name. */
  function JarLine(command: string, j: JarReport, resolvePath: (string, string) -> string): string {
    ScriptLine(command, resolvePath(j.dir, j.filename), j.result)
  }

  /** The lines of the script: one per jar not found on a remote, in report order. */
  function ScriptLines(command: string, jars: seq<JarReport>, resolvePath: (string, string) -> string)
    : (r: seq<string>)
    ensures |r| == |NotFound(jars)|
    ensures forall i :: 0 <= i < |r| ==> r[i] == JarLine(command, NotFound(jars)[i], resolvePath)
  {
    var todo := NotFound(jars);
    seq(|todo|, i requires 0 <= i < |todo| => JarLine(command, todo[i], resolvePath))
  }

  /** The powershell install script. */
  function Script(command: string, jars: seq<JarReport>, resolvePath: (string, string) -> string): (r: string)
    ensures |NotFound(jars)| == 0 ==> r == ""
    ensures forall i :: 0 <= i < |NotFound(jars)| ==> Contains(r, JarLine(command, NotFound(jars)[i], resolvePath))
  {
    var lines := ScriptLines(command, jars, resolvePath);
    forall i | 0 <= i < |lines| ensures Contains(Concat(lines), lines[i]) {
      ConcatPartAt(lines, i);
    }
    Concat(lines)
  }

  /** `sub` occurs somewhere in `s`. */
  ghost predicate Contains(s: string, sub: string) {
    exists k :: OccursAt(sub, s, k)
  }

  /** The i-th part sits in the concatenation right after the parts before it. */
  lemma ConcatPartAt(parts: seq<string>, i: int)
    requires 0 <= i < |parts|
    ensures OccursAt(parts[i], Concat(parts), |Concat(parts[..i])|)
  {
    assert parts == parts[..i] + parts[i..];
    ConcatAppend(parts[..i], parts[i..]);
    assert parts[i..][1..] == parts[i + 1..];
    assert Concat(parts[i..]) == parts[i] + Concat(parts[i + 1..]);
    HeadAt(parts[i], Concat(parts[i + 1..]));
    Shift(parts[i], Concat(parts[i..]), Concat(parts[..i]), 0);
  }

  lemma ContainsLeft(p: string, q: string, x: string)
    requires Contains(p, x)
    ensures Contains(p + q, x)
  {
    var k :| OccursAt(x, p, k);
    assert (p + q)[k..k + |x|] == p[k..k + |x|];
    assert OccursAt(x, p + q, k);
  }

  lemma ContainsRight(p: string, q: string, x: string)
    requires Contains(q, x)
    ensures Contains(p + q, x)
  {
    var k :| OccursAt(x, q, k);
    Shift(x, q, p, k);
  }

  /** Every line belongs to a jar that is not on a remote yet, and every such jar
      has its line. */
  lemma ScriptLinesCover(command: string, jars: seq<JarReport>, resolvePath: (string, string) -> string)
    ensures forall line :: line in ScriptLines(command, jars, resolvePath) <==>
      exists j :: j in jars && !j.foundOnRemote && line == JarLine(command, j, resolvePath)
  {
    var lines := ScriptLines(command, jars, resolvePath);
    var todo := NotFound(jars);
    forall line | line in lines
      ensures exists j :: j in jars && !j.foundOnRemote && line == JarLine(command, j, resolvePath)
    {
      var i :| 0 <= i < |lines| && lines[i] == line;
      assert todo[i] in todo;
    }
    forall j | j in jars && !j.foundOnRemote
      ensures JarLine(command, j, resolvePath) in lines
    {
      assert j in todo;
      var i :| 0 <= i < |todo| && todo[i] == j;
      assert lines[i] == JarLine(command, j, resolvePath);
    }
  }

  lemma {:induction false} NotFoundAppend(a: seq<JarReport>, b: seq<JarReport>)
    ensures NotFound(a + b) == NotFound(a) + NotFound(b)
    decreases |a|
  {
    if |a| == 0 {
      assert a + b == b;
    } else {
      ConsOfAppend(a, b);
      NotFoundAppend(a[1..], b);
      var h := if a[0].foundOnRemote then [] else [a[0]];
      assert NotFound(a + b) == h + NotFound(a[1..] + b);
      assert NotFound(a) == h + NotFound(a[1..]);
      AppendAssoc(h, NotFound(a[1..]), NotFound(b));
    }
  }

  /** The script of several reports is the scripts of each in turn. */
  lemma {:induction false} ScriptAppend(command: string, a: seq<JarReport>, b: seq<JarReport>, resolvePath: (string, string) -> string)
    ensures Script(command, a + b, resolvePath) == Script(command, a, resolvePath) + Script(command, b, resolvePath)
  {
    NotFoundAppend(a, b);
    var la := ScriptLines(command, a, resolvePath);
    var lb := ScriptLines(command, b, resolvePath);
    var lab := ScriptLines(command, a + b, resolvePath);
    assert |lab| == |la| + |lb|;
    forall i | 0 <= i < |lab| ensures lab[i] == (la + lb)[i] {
      if i < |la| {
        assert NotFound(a + b)[i] == NotFound(a)[i];
      } else {
        assert NotFound(a + b)[i] == NotFound(b)[i - |la|];
      }
    }
    assert lab == la + lb;
    ConcatAppend(la, lb);
  }

  /** A single jar not on a remote yet makes a script of exactly its install line. */
  lemma ScriptOfOneJar(command: string, j: JarReport, resolvePath: (string, string) -> string)
    requires !j.foundOnRemote
    ensures Script(command, [j], resolvePath) == JarLine(command, j, resolvePath)
  {
    var lines := ScriptLines(command, [j], resolvePath);
    assert lines == [JarLine(command, j, resolvePath)];
    assert lines[1..] == [];
    assert Concat(lines) == lines[0] + Concat([]);
  }

  /** Jars already found on a remote repository contribute nothing to the script. */
  lemma FoundJarsOmitted(command: string, jars: seq<JarReport>, j: JarReport, resolvePath: (string, string) -> string)
    requires j.foundOnRemote
    ensures Script(command, jars + [j], resolvePath) == Script(command, jars, resolvePath)
  {
    ScriptAppend(command, jars, [j], resolvePath);
    assert ScriptLines(command, [j], resolvePath) == [] by {
      assert [j][1..] == [];
    }
  }

  // ---------------------------------------------------------------- POM

  const PomHead: string :=
    "<project xmlns=\"http://maven.apache.org/POM/4.0.0\"\n"
    + "\txmlns:xsi=\"http://www.w3.org/2001/XMLSchema-instance\"\n"
    + "\txsi:schemaLocation=\"http://maven.apache.org/POM/4.0.0 https://maven.apache.org/xsd/maven-4.0.0.xsd\">\n"
    + "\t<modelVersion>4.0.0</modelVersion>\n"
    + "\t<groupId>???</groupId>\n"
    + "\t<artifactId>???</artifactId>\n"
    + "\t<version>0.0.1-SNAPSHOT</version>\n"
    + "\n"

  /** The text before the property lines, between them and the dependencies, and
      after the dependencies. */
  const PomOpen: string := PomHead + "\t<properties>\n"
  const PomMiddle: string := "\t</properties>\n\n\t<dependencies>\n"
  const PomClose: string := "\t</dependencies>\n</project>\n"

  /** The property that holds a jar's version. */
  function PropertyName(u: Uid): string {
    "version." + Render(u.artifactId)
  }

  function PropertyLine(u: Uid): string {
    "\t\t<" + PropertyName(u) + ">" + Render(u.version) + "</" + PropertyName(u) + ">\n"
  }

  function ClassifierElement(u: Uid): string {
    if HasClassifier(u) then "\t\t\t<classifier>" + u.classifier.value + "</classifier>\n" else ""
  }

  /** The dependency's version: a reference to the jar's version property. */
  function VersionReference(u: Uid): string {
    "${" + PropertyName(u) + "}"
  }

  function DependencyHead(u: Uid): string {
    "\t\t<dependency>\n"
      + "\t\t\t<groupId>" + Render(u.groupId) + "</groupId>\n"
      + "\t\t\t<artifactId>" + Render(u.artifactId) + "</artifactId>\n"
      + "\t\t\t<version>"
  }

  function DependencyTail(u: Uid): string {
    "</version>\n" + ClassifierElement(u) + "\t\t</dependency>\n"
  }

  function Dependency(u: Uid): string {
    DependencyHead(u) + VersionReference(u) + DependencyTail(u)
  }

  /** The classifier element appears exactly when the classifier is set and not
      blank. */
  lemma ClassifierElementIff(u: Uid)
    ensures Dependency(u) == Dependency(u.(classifier := None)) <==> !HasClassifier(u)
  {
    if HasClassifier(u) {
      assert |Dependency(u)| > |Dependency(u.(classifier := None))|;
    }
  }

  function Properties(jars: seq<JarReport>): (r: seq<string>)
    ensures |r| == |jars| && forall i :: 0 <= i < |jars| ==> r[i] == PropertyLine(jars[i].result)
  {
    seq(|jars|, i requires 0 <= i < |jars| => PropertyLine(jars[i].result))
  }

  function Dependencies(jars: seq<JarReport>): (r: seq<string>)
    ensures |r| == |jars| && forall i :: 0 <= i < |jars| ==> r[i] == Dependency(jars[i].result)
  {
    seq(|jars|, i requires 0 <= i < |jars| => Dependency(jars[i].result))
  }

  /** The POM: a property per jar holding its version, and a dependency per jar that
      refers to that property, both in report order. */
  function Pom(jars: seq<JarReport>): (r: string)
    ensures r == PomOpen + (Concat(Properties(jars)) + (PomMiddle + (Concat(Dependencies(jars)) + PomClose)))
    ensures StartsWith(r, PomOpen)
    ensures EndsWith(r, PomClose)
    ensures forall i :: 0 <= i < |jars| ==>
      Contains(r, PropertyLine(jars[i].result)) && Contains(r, Dependency(jars[i].result))
  {
    var props, deps := Concat(Properties(jars)), Concat(Dependencies(jars));
    var head, mid, tail := PomOpen, PomMiddle, PomClose;
    forall i | 0 <= i < |jars|
      ensures Contains(props, PropertyLine(jars[i].result)) && Contains(deps, Dependency(jars[i].result))
    {
      ConcatPartAt(Properties(jars), i);
      ConcatPartAt(Dependencies(jars), i);
    }
    forall i | 0 <= i < |jars|
      ensures Contains(head + (props + (mid + (deps + tail))), PropertyLine(jars[i].result))
      ensures Contains(head + (props + (mid + (deps + tail))), Dependency(jars[i].result))
    {
      FiveParts(head, props, mid, deps, tail, PropertyLine(jars[i].result), Dependency(jars[i].result));
    }
    FiveParts(head, props, mid, deps, tail, [], []);
    head + (props + (mid + (deps + tail)))
  }

  /** Text found in the second or the fourth of five consecutive parts is found in
      their concatenation, which starts with the first part and ends with the last. */
  lemma FiveParts(head: string, props: string, mid: string, deps: string, tail: string, x: string, y: string)
    ensures StartsWith(head + (props + (mid + (deps + tail))), head)
    ensures EndsWith(head + (props + (mid + (deps + tail))), tail)
    ensures Contains(props, x) ==> Contains(head + (props + (mid + (deps + tail))), x)
    ensures Contains(deps, y) ==> Contains(head + (props + (mid + (deps + tail))), y)
  {
    var rest := mid + (deps + tail);
    if Contains(props, x) {
      ContainsLeft(props, rest, x);
      ContainsRight(head, props + rest, x);
    }
    if Contains(deps, y) {
      ContainsLeft(deps, tail, y);
      ContainsRight(mid, deps + tail, y);
      ContainsRight(props, rest, y);
      ContainsRight(head, props + rest, y);
    }
    StartsWithHead(head, props + rest);
    EndsWithTail(deps, tail);
    EndsWithBehind(mid, deps + tail, tail);
    EndsWithBehind(props, rest, tail);
    EndsWithBehind(head, props + rest, tail);
  }

  /** The property and dependency sections of two lists of jars follow each other. */
  lemma PomSectionsAppend(a: seq<JarReport>, b: seq<JarReport>)
    ensures Concat(Properties(a + b)) == Concat(Properties(a)) + Concat(Properties(b))
    ensures Concat(Dependencies(a + b)) == Concat(Dependencies(a)) + Concat(Dependencies(b))
  {
    assert Properties(a + b) == Properties(a) + Properties(b);
    assert Dependencies(a + b) == Dependencies(a) + Dependencies(b);
    ConcatAppend(Properties(a), Properties(b));
    ConcatAppend(Dependencies(a), Dependencies(b));
  }

  /** A single jar makes a property section of its property line and a dependency
      section of its dependency. */
  lemma PomSectionsOfOneJar(j: JarReport)
    ensures Concat(Properties([j])) == PropertyLine(j.result)
    ensures Concat(Dependencies([j])) == Dependency(j.result)
  {
    assert Properties([j])[1..] == [];
    assert Dependencies([j])[1..] == [];
  }

  /** One more jar adds its property line at the end of the properties section and
      its dependency at the end of the dependencies section; nothing else changes. */
  lemma PomAppendJar(jars: seq<JarReport>, j: JarReport)
    ensures Pom(jars + [j]) == PomOpen + (Concat(Properties(jars)) + PropertyLine(j.result)
      + (PomMiddle + (Concat(Dependencies(jars)) + Dependency(j.result) + PomClose)))
  {
    PomSectionsAppend(jars, [j]);
    PomSectionsOfOneJar(j);
  }

  /** Every jar is a dependency, whether or not it was found on a remote repository:
      the POM depends on the coordinates alone. */
  lemma PomIgnoresFoundFlag(a: seq<JarReport>, b: seq<JarReport>)
    requires |a| == |b| && forall i :: 0 <= i < |a| ==> a[i].result == b[i].result
    ensures Pom(a) == Pom(b)
  {
    assert Properties(a) == Properties(b);
    assert Dependencies(a) == Dependencies(b);
  }

  /** `sub` occurs in `s` at index k. */
  ghost predicate OccursAt(sub: string, s: string, k: int) {
    0 <= k <= |s| - |sub| && s[k..k + |sub|] == sub
  }

  /** A dependency's version refers to the property its jar defines. */
  lemma DependencyUsesProperty(u: Uid)
    ensures StartsWith(PropertyLine(u), "\t\t<" + PropertyName(u) + ">")
    ensures exists k :: OccursAt(VersionReference(u), Dependency(u), k)
    ensures VersionReference(u) == "${" + PropertyName(u) + "}"
  {
    var head := DependencyHead(u);
    var ref := VersionReference(u);
    assert Dependency(u)[|head|..|head| + |ref|] == ref;
    assert OccursAt(ref, Dependency(u), |head|);
  }

  // ---------------------------------------------------------------- run

  /** The command line options that shape the outputs. */
  datatype Options = Options(scriptCommand: string, noScript: bool, scriptTypes: set<string>, pom: bool)

  /** How a generator run ends: the options are rejected, the reports hold no jar,
      or the outputs (script text per file extension, and the POM when asked for). */
  datatype Outcome = InvalidScriptType | NoJars | Generated(scripts: map<string, string>, pomText: Option<string>)

  /** The jar reports of all report files, in file order. */
  function AllJars(reports: seq<seq<JarReport>>): (r: seq<JarReport>)
    ensures |r| == 0 <==> forall i :: 0 <= i < |reports| ==> |reports[i]| == 0
    ensures |reports| == 1 ==> r == reports[0]
    decreases |reports|
  {
    if |reports| == 0 then [] else reports[0] + AllJars(reports[1..])
  }

  /** The jars of several report files are those of each file in turn. */
  lemma {:induction false} AllJarsAppend(a: seq<seq<JarReport>>, b: seq<seq<JarReport>>)
    ensures AllJars(a + b) == AllJars(a) + AllJars(b)
    decreases |a|
  {
    if |a| == 0 {
      assert a + b == b;
    } else {
      ConsOfAppend(a, b);
      AllJarsAppend(a[1..], b);
    }
  }

  /** Every jar of every report file is among all jars, and nothing else is. */
  lemma {:induction false} AllJarsMembers(reports: seq<seq<JarReport>>, j: JarReport)
    ensures j in AllJars(reports) <==> exists i :: 0 <= i < |reports| && j in reports[i]
    decreases |reports|
  {
    if |reports| > 0 {
      AllJarsMembers(reports[1..], j);
      if exists i :: 0 <= i < |reports| && j in reports[i] {
        var i :| 0 <= i < |reports| && j in reports[i];
        if i > 0 {
          assert reports[1..][i - 1] == reports[i];
        }
      }
      if j in AllJars(reports[1..]) {
        var i :| 0 <= i < |reports[1..]| && j in reports[1..][i];
        assert reports[i + 1] == reports[1..][i];
      }
    }
  }

  /** The script types the validator accepts: each one names a known file
      extension. */
  predicate ValidScriptTypes(types: set<string>) {
    forall t :: t in types ==> ScriptTypeOf(t).Some?
  }

  /** The script of each requested type, keyed by its file extension. */
  function Scripts(o: Options, jars: seq<JarReport>, resolvePath: (string, string) -> string)
    : (m: map<string, string>)
    requires ValidScriptTypes(o.scriptTypes)
    ensures m.Keys == (if o.noScript then {} else o.scriptTypes)
    ensures m.Keys <= {"ps1"}
    ensures forall t :: t in m ==> m[t] == Script(o.scriptCommand, jars, resolvePath)
  {
    assert forall t :: t in o.scriptTypes ==> t == "ps1" by {
      forall t | t in o.scriptTypes ensures t == "ps1" {
        FileExtensionsRoundTrip(t);
      }
    }
    if o.noScript then map[]
    else map t | t in o.scriptTypes :: Script(o.scriptCommand, jars, resolvePath)
  }

  /** Generator.runGenerator without its I/O: script types are validated first; an
      empty set of jar reports stops before any output; otherwise each requested
      script type gets the install script and, if requested, the POM is built. */
  function Generate(o: Options, reports: seq<seq<JarReport>>, resolvePath: (string, string) -> string)
    : (r: Outcome)
    ensures r == InvalidScriptType <==> !o.noScript && !ValidScriptTypes(o.scriptTypes)
    ensures r == NoJars <==> (o.noScript || ValidScriptTypes(o.scriptTypes)) && |AllJars(reports)| == 0
    ensures r.Generated? ==> r.scripts.Keys == (if o.noScript then {} else o.scriptTypes)
    ensures r.Generated? ==> r.scripts.Keys <= {"ps1"}
    ensures r.Generated? ==> forall t :: t in r.scripts ==> r.scripts[t] == Script(o.scriptCommand, AllJars(reports), resolvePath)
    ensures r.Generated? ==> (r.pomText.Some? <==> o.pom)
    ensures r.Generated? && o.pom ==> r.pomText == Some(Pom(AllJars(reports)))
  {
    if !o.noScript && !ValidScriptTypes(o.scriptTypes) then InvalidScriptType
    else
      var jars := AllJars(reports);
      if |jars| == 0 then NoJars
      else Output(o, jars, resolvePath)
  }

  /** The scripts and POM written for a non-empty list of jars. */
  function Output(o: Options, jars: seq<JarReport>, resolvePath: (string, string) -> string): (r: Outcome)
    requires o.noScript || ValidScriptTypes(o.scriptTypes)
    ensures r.Generated?
    ensures r.scripts.Keys == (if o.noScript then {} else o.scriptTypes)
    ensures r.scripts.Keys <= {"ps1"}
    ensures forall t :: t in r.scripts ==> r.scripts[t] == Script(o.scriptCommand, jars, resolvePath)
    ensures r.pomText == (if o.pom then Some(Pom(jars)) else None)
  {
    var scripts := if o.noScript then map[] else Scripts(o, jars, resolvePath);
    Generated(scripts, if o.pom then Some(Pom(jars)) else None)
  }
}
