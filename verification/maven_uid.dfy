/** MavenUid: the Maven coordinate value type (groupId, artifactId, version, classifier)
    and the coordinate components used to address its fields. Java's nullable strings
    are Option<string>. */
module MavenUid {
  import opened Wrappers
  import opened Text

  /** A nullable Java string. */
  type Str = Option<string>

  datatype Component = GroupId | ArtifactId | Version

  /** The component's xml tag name (also the pom.properties key). */
  function XmlTagName(c: Component): string {
    match c
    case GroupId => "groupId"
    case ArtifactId => "artifactId"
    case Version => "version"
  }

  datatype Uid = Uid(groupId: Str, artifactId: Str, version: Str, classifier: Str)

  /** The public constructor: the classifier always starts out as the empty string. */
  function New(groupId: Str, artifactId: Str, version: Str): (u: Uid)
    ensures u.classifier == Some("")
    ensures u.groupId == groupId && u.artifactId == artifactId && u.version == version
  {
    Uid(groupId, artifactId, version, Some(""))
  }

  /** get(component): the field named by the component. */
  function Get(u: Uid, c: Component): Str {
    match c
    case ArtifactId => u.artifactId
    case GroupId => u.groupId
    case Version => u.version
  }

  /** Reading back a freshly constructed uid yields exactly the constructor arguments. */
  lemma GetNew(g: Str, a: Str, v: Str)
    ensures Get(New(g, a, v), GroupId) == g
    ensures Get(New(g, a, v), ArtifactId) == a
    ensures Get(New(g, a, v), Version) == v
  {
  }

  /** Two uids with the same classifier are equal exactly when get agrees on all components. */
  lemma GetDeterminesUid(u1: Uid, u2: Uid)
    requires u1.classifier == u2.classifier
    ensures (forall c :: Get(u1, c) == Get(u2, c)) <==> u1 == u2
  {
    if forall c :: Get(u1, c) == Get(u2, c) {
      assert Get(u1, GroupId) == Get(u2, GroupId);
      assert Get(u1, ArtifactId) == Get(u2, ArtifactId);
      assert Get(u1, Version) == Get(u2, Version);
    }
  }

  /** Objects.equals on two nullable strings. */
  predicate NullSafeEquals(a: Str, b: Str) {
    match a
    case None => b.None?
    case Some(x) => b.Some? && x == b.value
  }

  /** equals: all four fields compared null-safely. It coincides with value equality,
      so it is reflexive, symmetric and transitive. */
  predicate Equals(u1: Uid, u2: Uid): (r: bool)
    ensures r <==> u1 == u2
  {
    NullSafeEquals(u1.artifactId, u2.artifactId)
    && NullSafeEquals(u1.groupId, u2.groupId)
    && NullSafeEquals(u1.version, u2.version)
    && NullSafeEquals(u1.classifier, u2.classifier)
  }

  const TwoTo32: int := 0x1_0000_0000
  const TwoTo31: int := 0x8000_0000

  /** Java int arithmetic: reduction into the signed 32-bit range. */
  function ToInt32(x: int): (r: int)
    ensures -TwoTo31 <= r < TwoTo31
    ensures (r - x) % TwoTo32 == 0
  {
    var m := x % TwoTo32;
    if m >= TwoTo31 then m - TwoTo32 else m
  }

  /** String.hashCode over the characters, 31-polynomial with int wrap-around. */
  function StringHash(s: string): (h: int)
    ensures -TwoTo31 <= h < TwoTo31
    decreases |s|
  {
    if |s| == 0 then 0 else ToInt32(31 * StringHash(s[..|s| - 1]) + s[|s| - 1] as int)
  }

  function Pow31(n: nat): nat {
    if n == 0 then 1 else 31 * Pow31(n - 1)
  }

  /** Reference definition: the sum of s[i] * 31^(n-1-i) over the n characters, in
      unbounded integers. */
  function Polynomial(s: string): int
    decreases |s|
  {
    if |s| == 0 then 0 else s[0] as int * Pow31(|s| - 1) + Polynomial(s[1..])
  }

  lemma {:induction false} PolynomialSnoc(s: string, c: char)
    ensures Polynomial(s + [c]) == 31 * Polynomial(s) + c as int
    decreases |s|
  {
    if |s| == 0 {
      assert ([] + [c])[1..] == [];
    } else {
      assert (s + [c])[1..] == s[1..] + [c];
      PolynomialSnoc(s[1..], c);
      assert Pow31(|s|) == 31 * Pow31(|s| - 1);
    }
  }

  /** Numbers that differ by a multiple of 2^32 are the same int. */
  lemma ToInt32Congruent(x: int, y: int, q: int)
    requires x - y == q * TwoTo32
    ensures ToInt32(x) == ToInt32(y)
  {
    assert x % TwoTo32 == y % TwoTo32 by {
      assert x == y + q * TwoTo32;
    }
  }

  /** The hash is the 31-polynomial of the characters reduced to a Java int: the
      wrap-around at every step does not change the result modulo 2^32. */
  lemma {:induction false} StringHashIsPolynomial(s: string)
    ensures StringHash(s) == ToInt32(Polynomial(s))
    decreases |s|
  {
    if |s| > 0 {
      var init, c := s[..|s| - 1], s[|s| - 1];
      StringHashIsPolynomial(init);
      assert s == init + [c];
      PolynomialSnoc(init, c);
      var p := Polynomial(init);
      var d := ToInt32(p) - p;
      var q := d / TwoTo32;
      assert d == q * TwoTo32;
      assert (31 * ToInt32(p) + c as int) - (31 * p + c as int) == (31 * q) * TwoTo32;
      ToInt32Congruent(31 * ToInt32(p) + c as int, 31 * p + c as int, 31 * q);
    }
  }

  function NullableHash(s: Str): int {
    match s
    case None => 0
    case Some(x) => StringHash(x)
  }

  /** Objects.hash(artifactId, groupId, version, classifier). */
  function HashCode(u: Uid): (h: int)
    ensures -TwoTo31 <= h < TwoTo31
  {
    var h1 := ToInt32(31 * 1 + NullableHash(u.artifactId));
    var h2 := ToInt32(31 * h1 + NullableHash(u.groupId));
    var h3 := ToInt32(31 * h2 + NullableHash(u.version));
    ToInt32(31 * h3 + NullableHash(u.classifier))
  }

  /** Equal uids have equal hash codes. */
  lemma EqualsConsistentWithHashCode(u1: Uid, u2: Uid)
    requires Equals(u1, u2)
    ensures HashCode(u1) == HashCode(u2)
  {
  }

  /** Java string concatenation renders null as "null". */
  function Show(s: Str): string {
    match s
    case None => "null"
    case Some(x) => x
  }

  /** toString: "( g | a | v[ | classifier: c] )" with a null version shown as
      "<unknown-version>" and the classifier part omitted for the empty classifier. */
  function ToString(u: Uid): (r: string)
    ensures StartsWith(r, "( " + Show(u.groupId) + " | " + Show(u.artifactId) + " | ")
    ensures EndsWith(r, " )")
    ensures u.classifier == Some("") ==>
      r == "( " + Show(u.groupId) + " | " + Show(u.artifactId) + " | "
           + (if u.version.None? then "<unknown-version>" else u.version.value) + " )"
    ensures u.classifier != Some("") ==>
      EndsWith(r, " | classifier: " + Show(u.classifier) + " )")
  {
    var versionString := if u.version.None? then "<unknown-version>" else u.version.value;
    var classifierString := if u.classifier == Some("") then "" else " | classifier: " + Show(u.classifier);
    "( " + Show(u.groupId) + " | " + Show(u.artifactId) + " | " + versionString + classifierString + " )"
  }
}
