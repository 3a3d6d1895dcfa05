/** JarFilenameAnalyzer: artifactId and version candidates from the jar's file name. */
module JarFilenameAnalyzer {
  import opened Wrappers
  import opened Text
  import opened MavenUid
  import opened Helper
  import opened ValueCandidate

  /** The file name without its extension: everything before the last '.'. */
  function Stem(jarFilename: string): (r: Option<string>)
    ensures r.None? <==> '.' !in jarFilename
    ensures r.Some? ==> (|r.value| < |jarFilename| && jarFilename[|r.value|] == '.'
                         && StartsWith(jarFilename, r.value) && '.' !in jarFilename[|r.value| + 1..])
  {
    var k := LastIndexOf(jarFilename, '.');
    if k < 0 then None
    else
      assert StartsWith(jarFilename, jarFilename[..k]);
      Some(jarFilename[..k])
  }

  function Detail(jarFilename: string): string {
    "'" + jarFilename + "'"
  }

  /** JarFilenameAnalyzer.analyze. None stands for the exception thrown for a name
      without any '.'. With a "-version[sep classifiers]" suffix on the stem, the
      part before the suffix is the artifactId and the captured version the version,
      both scoring 6; otherwise the whole stem is the artifactId with score 4. */
  function Analyze(jarFilename: string): (r: Option<seq<Emitted>>)
    ensures r.None? <==> '.' !in jarFilename
    ensures r.Some? ==> (1 <= |r.value| <= 2 && r.value[0].component == ArtifactId
                         && forall i :: 0 <= i < |r.value| ==>
                              r.value[i].component != GroupId && r.value[i].detail == Detail(jarFilename))
    ensures r.Some? ==> var stem := Stem(jarFilename).value;
      match JarFilenameVersionSuffix(stem)
      case Some((p, v)) =>
        r.value == [Emitted(ArtifactId, Some(stem[..p]), 6, Detail(jarFilename)),
                    Emitted(Version, Some(v), 6, Detail(jarFilename))]
      case None =>
        r.value == [Emitted(ArtifactId, Some(stem), 4, Detail(jarFilename))]
  {
    match Stem(jarFilename)
    case None => None
    case Some(stem) =>
      var detail := Detail(jarFilename);
      match JarFilenameVersionSuffix(stem)
      case Some((p, version)) =>
        Some([Emitted(ArtifactId, Some(stem[..p]), 6, detail), Emitted(Version, Some(version), 6, detail)])
      case None =>
        Some([Emitted(ArtifactId, Some(stem), 4, detail)])
  }

  /** "widget-2.3.1.jar" yields artifactId "widget" and version "2.3.1". */
  lemma VersionedNameExample()
    ensures Analyze("widget-2.3.1.jar") == Some([
      Emitted(ArtifactId, Some("widget"), 6, Detail("widget-2.3.1.jar")),
      Emitted(Version, Some("2.3.1"), 6, Detail("widget-2.3.1.jar"))])
  {
    var name := "widget-2.3.1.jar";
    var stem := "widget-2.3.1";
    assert Stem(name) == Some(stem) by {
      assert name[12] == '.';
      StemExample(name, 12);
      assert name[..12] == stem;
    }
    assert JarFilenameVersionSuffix(stem) == Some((6, "2.3.1")) by {
      SuffixExample();
    }
    assert stem[..6] == "widget";
  }

  lemma StemExample(name: string, k: nat)
    requires k < |name| && name[k] == '.' && forall j :: k < j < |name| ==> name[j] != '.'
    ensures Stem(name) == Some(name[..k])
  {
  }

  lemma SuffixExample()
    ensures JarFilenameVersionSuffix("widget-2.3.1") == Some((6, "2.3.1"))
  {
    var stem := "widget-2.3.1";
    assert stem[7..] == "2.3.1";
    ThreeDigitVersion('2', '3', '1');
    assert stem[6] == '-' && IsVersionWithClassifiers(stem[7..]);
    assert forall p :: 0 <= p < 6 ==> stem[p] != '-';
    assert SuffixFrom(stem, 0) == Some(6);
  }

  /** "widget.jar" has no version suffix: the stem is the artifactId, score 4. */
  lemma PlainNameExample()
    ensures Analyze("widget.jar") == Some([Emitted(ArtifactId, Some("widget"), 4, Detail("widget.jar"))])
  {
    StemExample("widget.jar", 6);
    assert "widget.jar"[..6] == "widget";
    assert forall p :: 0 <= p < 6 ==> "widget"[p] != '-';
    assert JarFilenameVersionSuffix("widget").None?;
  }
}
