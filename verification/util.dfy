/** Util: the bounded filtered prefix `subList`, jar entry paths, and the shape of the
    SHA-256 digesting of a jar (the digest and the Base64 encoder are parameters). */
module Util {
  import opened Wrappers
  import opened Text

  // ---------------------------------------------------------------- subList

  /** A null filter accepts every item. */
  predicate Passes<T>(filter: Option<T -> bool>, x: T) {
    filter.None? || filter.value(x)
  }

  /** Reference definition: all items passing the filter, in original order. */
  function Filter<T>(s: seq<T>, filter: Option<T -> bool>): seq<T>
    decreases |s|
  {
    if |s| == 0 then []
    else Filter(s[..|s| - 1], filter) + (if Passes(filter, s[|s| - 1]) then [s[|s| - 1]] else [])
  }

  lemma {:induction false} FilterAllPass<T>(s: seq<T>, filter: Option<T -> bool>)
    ensures |Filter(s, filter)| <= |s|
    ensures forall i :: 0 <= i < |Filter(s, filter)| ==> Passes(filter, Filter(s, filter)[i])
    ensures forall x :: x in Filter(s, filter) ==> x in s
    decreases |s|
  {
    if |s| > 0 {
      FilterAllPass(s[..|s| - 1], filter);
    }
  }

  /** A null filter keeps the whole list. */
  lemma {:induction false} FilterNone<T>(s: seq<T>)
    ensures Filter(s, None) == s
    decreases |s|
  {
    if |s| > 0 {
      FilterNone(s[..|s| - 1]);
      assert s[..|s| - 1] + [s[|s| - 1]] == s;
    }
  }

  /** How many items subList keeps at most: a maxCount below one still keeps one,
      because the count is compared only after an item was added. */
  function Limit(maxCount: int): (n: nat)
    ensures n >= 1 && (maxCount >= 1 ==> n == maxCount)
  {
    if maxCount < 1 then 1 else maxCount
  }

  function Min(a: nat, b: nat): nat {
    if a <= b then a else b
  }

  /** Util.subList: an empty list comes back as is; otherwise the first
      min(Limit(maxCount), #passing) passing items, in original order. */
  method SubList<T>(original: seq<T>, maxCount: int, filter: Option<T -> bool>) returns (result: seq<T>)
    ensures |original| == 0 ==> result == original
    ensures result == Filter(original, filter)[..Min(Limit(maxCount), |Filter(original, filter)|)]
  {
    if |original| == 0 {
      return original;
    }
    result := [];
    var count := 0;
    var i := 0;
    while i < |original|
      invariant 0 <= i <= |original|
      invariant result == Filter(original[..i], filter)
      invariant count == |result| < Limit(maxCount)
    {
      var item := original[i];
      assert original[..i + 1][..i] == original[..i];
      if Passes(filter, item) {
        result := result + [item];
        count := count + 1;
        if count >= maxCount {
          FilterPrefix(original, i + 1, filter);
          return;
        }
      }
      i := i + 1;
    }
    assert original[..i] == original;
  }

  /** The filtered list of a prefix is a prefix of the filtered list. */
  lemma {:induction false} FilterPrefix<T>(s: seq<T>, n: nat, filter: Option<T -> bool>)
    requires n <= |s|
    ensures |Filter(s[..n], filter)| <= |Filter(s, filter)|
    ensures Filter(s, filter)[..|Filter(s[..n], filter)|] == Filter(s[..n], filter)
    decreases |s| - n
  {
    if n < |s| {
      FilterPrefix(s, n + 1, filter);
      assert s[..n + 1][..n] == s[..n];
    } else {
      assert s[..n] == s;
    }
  }

  // ---------------------------------------------------------------- paths

  /** A jar entry path: its name elements (java.nio.file.Path of the entry name). */
  type Path = seq<string>

  /** Paths.get(name) for a '/'-separated entry name: empty elements (from leading,
      doubled or trailing separators) are dropped. */
  function ParsePath(name: string): (p: Path)
    ensures forall i :: 0 <= i < |p| ==> p[i] != "" && '/' !in p[i]
  {
    NonEmpty(SplitAll(name, '/'))
  }

  function NonEmpty(parts: seq<string>): (r: seq<string>)
    ensures forall i :: 0 <= i < |r| ==> r[i] != "" && r[i] in parts
    ensures forall i :: 0 <= i < |parts| && parts[i] != "" ==> parts[i] in r
    decreases |parts|
  {
    if |parts| == 0 then []
    else (if parts[0] == "" then [] else [parts[0]]) + NonEmpty(parts[1..])
  }

  // ---------------------------------------------------------------- sha256

  newtype byte = x: int | 0 <= x < 256

  /** One entry of the jar stream, with the bytes the stream yields for it. */
  datatype ZipEntry = ZipEntry(name: string, isDirectory: bool,
                               creationTime: Option<int>, lastModifiedTime: Option<int>,
                               content: seq<byte>)

  datatype JarHashes = JarHashes(jarSha256: string, classesToSha256: map<Path, seq<byte>>)

  /** The class test of sha256: the lower-cased entry name ends in ".class". */
  predicate IsClassEntry(e: ZipEntry) {
    EndsWith(Lower(e.name), ".class")
  }

  /** The bytes fed to the whole-jar digest: every entry's bytes, in entry order. */
  function AllBytes(entries: seq<ZipEntry>): seq<byte>
    decreases |entries|
  {
    if |entries| == 0 then [] else AllBytes(entries[..|entries| - 1]) + entries[|entries| - 1].content
  }

  /** Reference definition of the class map: each class entry in turn stores the
      digest of its own bytes under its path, overwriting an earlier duplicate. */
  function ClassDigests(entries: seq<ZipEntry>, digest: seq<byte> -> seq<byte>): map<Path, seq<byte>>
    decreases |entries|
  {
    if |entries| == 0 then map[]
    else
      var e := entries[|entries| - 1];
      var m := ClassDigests(entries[..|entries| - 1], digest);
      if IsClassEntry(e) then m[ParsePath(e.name) := digest(e.content)] else m
  }

  /** Util.sha256 over an already decoded entry stream. */
  method Sha256(entries: seq<ZipEntry>, digest: seq<byte> -> seq<byte>, base64: seq<byte> -> string)
    returns (hashes: JarHashes)
    ensures hashes.jarSha256 == base64(digest(AllBytes(entries)))
    ensures hashes.classesToSha256 == ClassDigests(entries, digest)
  {
    var classes: map<Path, seq<byte>> := map[];
    var jarBytes: seq<byte> := [];
    var i := 0;
    while i < |entries|
      invariant 0 <= i <= |entries|
      invariant jarBytes == AllBytes(entries[..i])
      invariant classes == ClassDigests(entries[..i], digest)
    {
      var e := entries[i];
      assert entries[..i + 1][..i] == entries[..i];
      jarBytes := jarBytes + e.content;
      if IsClassEntry(e) {
        classes := classes[ParsePath(e.name) := digest(e.content)];
      }
      i := i + 1;
    }
    assert entries[..i] == entries;
    hashes := JarHashes(base64(digest(jarBytes)), classes);
  }

  /** e is a class entry whose path is p. */
  predicate ClassEntryAt(e: ZipEntry, p: Path) {
    IsClassEntry(e) && ParsePath(e.name) == p
  }

  /** Index of the last class entry whose path is p, or -1 if there is none. */
  function LastClassEntry(entries: seq<ZipEntry>, p: Path): (k: int)
    ensures -1 <= k < |entries|
    ensures k >= 0 ==> ClassEntryAt(entries[k], p)
    ensures forall j :: k < j < |entries| ==> !ClassEntryAt(entries[j], p)
    decreases |entries|
  {
    if |entries| == 0 then -1
    else
      var e := entries[|entries| - 1];
      if ClassEntryAt(e, p) then |entries| - 1
      else
        var k := LastClassEntry(entries[..|entries| - 1], p);
        assert forall j :: k < j < |entries| - 1 ==> entries[j] == entries[..|entries| - 1][j];
        k
  }

  /** The class map has a key exactly for the paths of class entries, and each key
      holds the digest of the bytes of the last class entry with that path. */
  lemma {:induction false} ClassDigestsLookup(entries: seq<ZipEntry>, digest: seq<byte> -> seq<byte>, p: Path)
    ensures p in ClassDigests(entries, digest) <==> LastClassEntry(entries, p) >= 0
    ensures p in ClassDigests(entries, digest) ==>
      ClassDigests(entries, digest)[p] == digest(entries[LastClassEntry(entries, p)].content)
    decreases |entries|
  {
    if |entries| > 0 {
      ClassDigestsLookup(entries[..|entries| - 1], digest, p);
    }
  }

  /** Non-class entries change the whole-jar bytes but never the class map. */
  lemma NonClassEntryKeepsClassMap(entries: seq<ZipEntry>, e: ZipEntry, digest: seq<byte> -> seq<byte>)
    requires !IsClassEntry(e)
    ensures ClassDigests(entries + [e], digest) == ClassDigests(entries, digest)
    ensures AllBytes(entries + [e]) == AllBytes(entries) + e.content
  {
    assert (entries + [e])[..|entries|] == entries;
  }
}
