/** ClassFilepathAnalyzer: groupId candidates from the folders holding most of a jar's
    classes. The class folders are gathered into a tree whose nodes count the classes
    directly inside them; the deep count of a folder is its own count plus those of
    all its subfolders. */
module ClassFilepathAnalyzer {
  import opened Wrappers
  import opened Seqs
  import opened Text
  import opened MavenUid
  import opened Helper
  import opened ValueCandidate
  import opened Util
  import opened StringUtil
  import Sorting

  /** Paths.get("."): the root of the folder tree, and the relative path that means
      "this folder". */
  const CurrentDir: Path := ["."]

  /** A folder: its path from the root (starting with "."), its own name, the number
      of classes directly inside it, and its subfolders in creation order. */
  datatype FolderNode = FolderNode(path: Path, folderName: string, classCount: nat, children: seq<FolderNode>)

  function NewNode(path: Path): (n: FolderNode)
    requires |path| >= 1
    ensures WellFormed(n) && DeepCount(n) == 0 && n.path == path
  {
    FolderNode(path, path[|path| - 1], 0, [])
  }

  /** Every node is named after the last element of its path, each child's path
      extends its parent's by the child's name, and siblings have distinct names. */
  predicate WellFormed(n: FolderNode)
    decreases n
  {
    LocallyWellFormed(n) && forall i :: 0 <= i < |n.children| ==> WellFormed(n.children[i])
  }

  /** The conditions of WellFormed on the node and its direct children alone. */
  predicate LocallyWellFormed(n: FolderNode) {
    |n.path| >= 1 && n.folderName == n.path[|n.path| - 1]
    && DistinctNames(n.children) && ChildPaths(n.children, n.path)
  }

  /** Siblings have distinct folder names. */
  predicate DistinctNames(cs: seq<FolderNode>) {
    forall i, j :: 0 <= i < j < |cs| ==> cs[i].folderName != cs[j].folderName
  }

  /** Each sibling's path extends the parent path by the sibling's name. */
  predicate ChildPaths(cs: seq<FolderNode>, parent: Path) {
    forall i :: 0 <= i < |cs| ==> cs[i].path == parent + [cs[i].folderName]
  }

  /** The number of classes in a folder and all its subfolders (getStats' return). */
  function DeepCount(n: FolderNode): nat
    decreases n
  {
    n.classCount + ChildrenCount(n.children)
  }

  function ChildrenCount(cs: seq<FolderNode>): nat
    decreases cs
  {
    if |cs| == 0 then 0 else DeepCount(cs[0]) + ChildrenCount(cs[1..])
  }

  lemma {:induction false} ChildrenCountAppend(cs: seq<FolderNode>, x: FolderNode)
    ensures ChildrenCount(cs + [x]) == ChildrenCount(cs) + DeepCount(x)
    decreases |cs|
  {
    if |cs| == 0 {
      assert (cs + [x])[1..] == [];
    } else {
      assert (cs + [x])[1..] == cs[1..] + [x];
      ChildrenCountAppend(cs[1..], x);
    }
  }

  lemma {:induction false} ChildrenCountUpdate(cs: seq<FolderNode>, k: nat, x: FolderNode)
    requires k < |cs|
    ensures ChildrenCount(cs[k := x]) == ChildrenCount(cs) - DeepCount(cs[k]) + DeepCount(x)
    decreases |cs|
  {
    if k > 0 {
      assert cs[k := x][1..] == cs[1..][k - 1 := x];
      ChildrenCountUpdate(cs[1..], k - 1, x);
    }
  }

  /** The index of the child with the given name, or -1. */
  function FindChild(cs: seq<FolderNode>, name: string): (k: int)
    ensures -1 <= k < |cs|
    ensures k >= 0 ==> cs[k].folderName == name
    ensures k < 0 ==> forall i :: 0 <= i < |cs| ==> cs[i].folderName != name
    decreases |cs|
  {
    if |cs| == 0 then -1
    else if cs[|cs| - 1].folderName == name then |cs| - 1
    else FindChild(cs[..|cs| - 1], name)
  }

  /** incrementClassCount: walks the relative path down from this node, creating the
      missing folders, and counts one class in the folder it ends at. Exactly one class
      is added below the node, and the tree stays well formed. */
  function Increment(n: FolderNode, rel: Path): (r: FolderNode)
    requires |rel| >= 1
    ensures r.path == n.path && r.folderName == n.folderName
    ensures DeepCount(r) == DeepCount(n) + 1
    ensures WellFormed(n) ==> WellFormed(r)
    decreases |rel|, if rel == CurrentDir then 0 else 1
  {
    if rel == CurrentDir then n.(classCount := n.classCount + 1)
    else
      var name := rel[0];
      var sub := if |rel| == 1 then CurrentDir else rel[1..];
      var k := FindChild(n.children, name);
      if k < 0 then
        var child := Increment(NewNode(n.path + [name]), sub);
        ChildrenCountAppend(n.children, child);
        assert WellFormed(n) ==> WellFormed(n.(children := n.children + [child])) by {
          if WellFormed(n) {
            WellFormedAppend(n, child);
          }
        }
        n.(children := n.children + [child])
      else
        var child := Increment(n.children[k], sub);
        ChildrenCountUpdate(n.children, k, child);
        assert WellFormed(n) ==> WellFormed(n.(children := n.children[k := child])) by {
          if WellFormed(n) {
            WellFormedUpdate(n, k, child);
          }
        }
        n.(children := n.children[k := child])
  }

  /** A well-formed new subfolder with a fresh name keeps its parent well formed. */
  lemma WellFormedAppend(n: FolderNode, child: FolderNode)
    requires LocallyWellFormed(n) && forall i :: 0 <= i < |n.children| ==> WellFormed(n.children[i])
    requires WellFormed(child) && child.path == n.path + [child.folderName]
    requires forall i :: 0 <= i < |n.children| ==> n.children[i].folderName != child.folderName
    ensures WellFormed(n.(children := n.children + [child]))
  {
    AppendKeepsPaths(n.children, n.path, child);
    AppendKeepsNamesDistinct(n.children, child);
    AppendKeepsWellFormed(n.children, child);
  }

  lemma AppendKeepsPaths(children: seq<FolderNode>, path: Path, child: FolderNode)
    requires ChildPaths(children, path) && child.path == path + [child.folderName]
    ensures ChildPaths(children + [child], path)
  {
    var cs := children + [child];
    forall i | 0 <= i < |cs|
      ensures cs[i].path == path + [cs[i].folderName]
    {
      if i < |children| {
        assert cs[i] == children[i];
      }
    }
  }

  lemma AppendKeepsWellFormed(children: seq<FolderNode>, child: FolderNode)
    requires forall i :: 0 <= i < |children| ==> WellFormed(children[i])
    requires WellFormed(child)
    ensures forall i :: 0 <= i < |children + [child]| ==> WellFormed((children + [child])[i])
  {
    var cs := children + [child];
    forall i | 0 <= i < |cs|
      ensures WellFormed(cs[i])
    {
      if i < |children| {
        assert cs[i] == children[i];
      }
    }
  }

  lemma AppendKeepsNamesDistinct(children: seq<FolderNode>, child: FolderNode)
    requires DistinctNames(children)
    requires forall i :: 0 <= i < |children| ==> children[i].folderName != child.folderName
    ensures DistinctNames(children + [child])
  {
    var cs := children + [child];
    forall i, j | 0 <= i < j < |cs|
      ensures cs[i].folderName != cs[j].folderName
    {
      assert cs[i] == children[i];
      if j < |children| {
        assert cs[j] == children[j];
      }
    }
  }

  /** Replacing a subfolder by a well-formed one of the same path keeps the parent
      well formed. */
  lemma WellFormedUpdate(n: FolderNode, k: nat, child: FolderNode)
    requires WellFormed(n) && WellFormed(child) && k < |n.children|
    requires child.path == n.children[k].path && child.folderName == n.children[k].folderName
    ensures WellFormed(n.(children := n.children[k := child]))
  {
    var m := n.(children := n.children[k := child]);
    assert forall i :: 0 <= i < |n.children| && i != k ==> m.children[i] == n.children[i];
    assert LocallyWellFormed(m);
  }

  // ---------------------------------------------------------------- tree building

  /** The META-INF/versions subtree of a multi-release jar is skipped. */
  predicate IsVersioned(p: Path) {
    |p| >= 2 && p[0] == "META-INF" && p[1] == "versions"
  }

  /** A class counts when it has a parent folder and is not versioned. */
  predicate Counted(p: Path) {
    |p| >= 2 && !IsVersioned(p)
  }

  function ParentOf(p: Path): Path
    requires |p| >= 2
  {
    p[..|p| - 1]
  }

  /** The tree after adding the classes in order. */
  function BuildTree(classes: seq<Path>): (t: FolderNode)
    ensures WellFormed(t) && t.path == CurrentDir
    decreases |classes|
  {
    if |classes| == 0 then NewNode(CurrentDir)
    else
      var t := BuildTree(classes[..|classes| - 1]);
      var p := classes[|classes| - 1];
      if Counted(p) then Increment(t, ParentOf(p)) else t
  }

  function CountCounted(classes: seq<Path>): nat
    decreases |classes|
  {
    if |classes| == 0 then 0
    else CountCounted(classes[..|classes| - 1]) + (if Counted(classes[|classes| - 1]) then 1 else 0)
  }

  /** The total the ratios are taken against is the number of classes that have a
      parent folder and are not under META-INF/versions. */
  lemma {:induction false} TotalIsCountedClasses(classes: seq<Path>)
    ensures DeepCount(BuildTree(classes)) == CountCounted(classes)
    decreases |classes|
  {
    if |classes| > 0 {
      TotalIsCountedClasses(classes[..|classes| - 1]);
    }
  }

  // ---------------------------------------------------------------- folder counts

  /** The folder, relative to a node, that incrementClassCount counts a class in: the
      relative path itself, or, when it ends in ".", the path without that element. */
  function Destination(rel: Path): Path
    requires |rel| >= 1
  {
    if rel[|rel| - 1] == "." then rel[..|rel| - 1] else rel
  }

  /** One step of the walk: the destination is the first name followed by the
      destination of the rest. */
  lemma DestinationStep(rel: Path)
    requires |rel| >= 1 && rel != CurrentDir
    ensures Destination(rel) == [rel[0]] + Destination(if |rel| == 1 then CurrentDir else rel[1..])
  {
    if |rel| == 1 {
      assert rel == [rel[0]];
    } else {
      var tail := rel[1..];
      assert tail[|tail| - 1] == rel[|rel| - 1];
      if rel[|rel| - 1] == "." {
        assert rel[..|rel| - 1] == [rel[0]] + tail[..|tail| - 1];
      } else {
        assert rel == [rel[0]] + tail;
      }
    }
  }

  /** q is one of the folders from `from` down to `to`, both included. */
  predicate OnPath(q: Path, from: Path, to: Path) {
    StartsWithPath(q, from) && StartsWithPath(to, q)
  }

  lemma OnPathStep(q: Path, p: Path, name: string, d: Path)
    requires q != p
    ensures OnPath(q, p, p + ([name] + d)) <==> OnPath(q, p + [name], (p + [name]) + d)
  {
    var to := p + ([name] + d);
    assert to == (p + [name]) + d;
    if OnPath(q, p, to) {
      assert q[..|q|] == q;
      assert q[..|p| + 1] == to[..|p| + 1] == p + [name];
    }
    if OnPath(q, p + [name], to) {
      assert q[..|p|] == (p + [name])[..|p|] == p;
    }
  }

  /** The deep count of the folder at path q in the tree, 0 when there is none. */
  function DeepAt(n: FolderNode, q: Path): nat
    decreases n
  {
    if q == n.path then DeepCount(n) else ChildrenDeepAt(n.children, q)
  }

  function ChildrenDeepAt(cs: seq<FolderNode>, q: Path): nat
    decreases cs
  {
    if |cs| == 0 then 0 else DeepAt(cs[0], q) + ChildrenDeepAt(cs[1..], q)
  }

  lemma {:induction false} ChildrenDeepAtAppend(cs: seq<FolderNode>, x: FolderNode, q: Path)
    ensures ChildrenDeepAt(cs + [x], q) == ChildrenDeepAt(cs, q) + DeepAt(x, q)
    decreases |cs|
  {
    if |cs| == 0 {
      assert (cs + [x])[1..] == [];
    } else {
      assert (cs + [x])[1..] == cs[1..] + [x];
      ChildrenDeepAtAppend(cs[1..], x, q);
    }
  }

  lemma {:induction false} ChildrenDeepAtUpdate(cs: seq<FolderNode>, k: nat, x: FolderNode, q: Path)
    requires k < |cs|
    ensures ChildrenDeepAt(cs[k := x], q) == ChildrenDeepAt(cs, q) - DeepAt(cs[k], q) + DeepAt(x, q)
    decreases |cs|
  {
    if k > 0 {
      assert cs[k := x][1..] == cs[1..][k - 1 := x];
      ChildrenDeepAtUpdate(cs[1..], k - 1, x, q);
    }
  }

  /** incrementClassCount adds one class to exactly the folders from the node down to
      the destination of the relative path, creating the missing ones on the way,
      and leaves every other folder's deep count unchanged. */
  lemma {:induction false} IncrementDeepAt(n: FolderNode, rel: Path, q: Path)
    requires |rel| >= 1 && WellFormed(n)
    ensures DeepAt(Increment(n, rel), q)
      == DeepAt(n, q) + (if OnPath(q, n.path, n.path + Destination(rel)) then 1 else 0)
    decreases |rel|, if rel == CurrentDir then 0 else 1
  {
    var dest := n.path + Destination(rel);
    if q == n.path {
      assert dest[..|n.path|] == n.path;
    } else if rel == CurrentDir {
      assert dest == n.path;
      assert q[..|q|] == q;
    } else {
      var name := rel[0];
      var sub := if |rel| == 1 then CurrentDir else rel[1..];
      var k := FindChild(n.children, name);
      DestinationStep(rel);
      OnPathStep(q, n.path, name, Destination(sub));
      if k < 0 {
        var empty := NewNode(n.path + [name]);
        var child := Increment(empty, sub);
        IncrementDeepAt(empty, sub, q);
        assert DeepAt(empty, q) == 0;
        ChildrenDeepAtAppend(n.children, child, q);
        assert Increment(n, rel) == n.(children := n.children + [child]);
      } else {
        var child := Increment(n.children[k], sub);
        IncrementDeepAt(n.children[k], sub, q);
        ChildrenDeepAtUpdate(n.children, k, child, q);
        assert Increment(n, rel) == n.(children := n.children[k := child]);
      }
    }
  }

  /** The folder, from the root, that a counted class is counted in. */
  function ClassFolder(p: Path): Path
    requires Counted(p)
  {
    CurrentDir + Destination(ParentOf(p))
  }

  /** Reference definition: the number of counted classes that lie in folder q or
      below it. */
  function CountUnder(classes: seq<Path>, q: Path): nat
    decreases |classes|
  {
    if |classes| == 0 then 0
    else
      var p := classes[|classes| - 1];
      CountUnder(classes[..|classes| - 1], q) + (if Counted(p) && OnPath(q, CurrentDir, ClassFolder(p)) then 1 else 0)
  }

  /** The deep count of each folder of the built tree is the number of counted
      classes inside it. */
  lemma {:induction false} BuildTreeDeepAt(classes: seq<Path>, q: Path)
    ensures DeepAt(BuildTree(classes), q) == CountUnder(classes, q)
    decreases |classes|
  {
    if |classes| > 0 {
      var init, p := classes[..|classes| - 1], classes[|classes| - 1];
      BuildTreeDeepAt(init, q);
      if Counted(p) {
        IncrementDeepAt(BuildTree(init), ParentOf(p), q);
      }
    }
  }

  /** A path lying in two sibling folders names the same sibling. */
  lemma SiblingPrefix(q: Path, parent: Path, a: string, b: string)
    requires StartsWithPath(q, parent + [a]) && StartsWithPath(q, parent + [b])
    ensures a == b && StartsWithPath(q, parent)
  {
    assert q[|parent|] == q[..|parent| + 1][|parent|] == (parent + [a])[|parent|];
    assert q[|parent|] == (parent + [b])[|parent|];
    assert q[..|parent|] == (parent + [a])[..|parent|];
  }

  /** A tree holds no folder outside its own path. */
  lemma {:induction false} DeepAtOutside(m: FolderNode, q: Path)
    requires WellFormed(m)
    ensures !StartsWithPath(q, m.path) ==> DeepAt(m, q) == 0
    decreases m
  {
    if !StartsWithPath(q, m.path) {
      assert q != m.path;
      forall i | 0 <= i < |m.children| ensures !StartsWithPath(q, m.children[i].path) {
        if StartsWithPath(q, m.children[i].path) {
          SiblingPrefix(q, m.path, m.children[i].folderName, m.children[i].folderName);
        }
      }
      ChildrenDeepAtNone(m.children, q);
    }
  }

  lemma {:induction false} ChildrenDeepAtNone(cs: seq<FolderNode>, q: Path)
    requires forall i :: 0 <= i < |cs| ==> WellFormed(cs[i]) && !StartsWithPath(q, cs[i].path)
    ensures ChildrenDeepAt(cs, q) == 0
    decreases cs
  {
    if |cs| > 0 {
      DeepAtOutside(cs[0], q);
      assert forall i :: 0 <= i < |cs[1..]| ==> cs[1..][i] == cs[i + 1];
      ChildrenDeepAtNone(cs[1..], q);
    }
  }

  /** Of well-formed siblings, only the one whose path a folder lies in counts it. */
  lemma {:induction false} ChildrenDeepAtOne(cs: seq<FolderNode>, parent: Path, q: Path, j: nat)
    requires forall i :: 0 <= i < |cs| ==> WellFormed(cs[i])
    requires DistinctNames(cs) && ChildPaths(cs, parent)
    requires j < |cs| && StartsWithPath(q, cs[j].path)
    ensures ChildrenDeepAt(cs, q) == DeepAt(cs[j], q)
    decreases |cs|
  {
    var rest := cs[1..];
    assert forall i :: 0 <= i < |rest| ==> rest[i] == cs[i + 1];
    if j == 0 {
      forall i | 0 <= i < |rest| ensures !StartsWithPath(q, rest[i].path) {
        if StartsWithPath(q, rest[i].path) {
          SiblingPrefix(q, parent, cs[0].folderName, cs[i + 1].folderName);
        }
      }
      ChildrenDeepAtNone(rest, q);
    } else {
      if StartsWithPath(q, cs[0].path) {
        SiblingPrefix(q, parent, cs[0].folderName, cs[j].folderName);
      }
      DeepAtOutside(cs[0], q);
      ChildrenDeepAtOne(rest, parent, q, j - 1);
    }
  }

  /** Some sibling counts a folder that the siblings together count. */
  lemma {:induction false} PositiveChild(cs: seq<FolderNode>, q: Path) returns (j: nat)
    requires ChildrenDeepAt(cs, q) > 0
    ensures j < |cs| && DeepAt(cs[j], q) > 0
    decreases |cs|
  {
    if DeepAt(cs[0], q) > 0 {
      j := 0;
    } else {
      var i := PositiveChild(cs[1..], q);
      assert cs[1..][i] == cs[i + 1];
      j := i + 1;
    }
  }

  // ---------------------------------------------------------------- statistics

  datatype FolderStats = FolderStats(path: Path, deepClassCount: nat)

  /** getStats: the subfolders' statistics first, then the folder's own (post-order). */
  function Stats(n: FolderNode): (s: seq<FolderStats>)
    ensures |s| >= 1 && s[|s| - 1] == FolderStats(n.path, DeepCount(n))
    ensures forall i :: 0 <= i < |s| ==> s[i].deepClassCount <= DeepCount(n)
    ensures WellFormed(n) ==> forall i :: 0 <= i < |s| ==> StartsWithPath(s[i].path, n.path)
    decreases n
  {
    var cs := ChildStats(n.children, n.path);
    cs + [FolderStats(n.path, DeepCount(n))]
  }

  /** The statistics of a list of siblings; every entry counts at most the siblings'
      total, and lies below the parent path when the siblings' paths extend it. */
  function ChildStats(cs: seq<FolderNode>, parent: Path): (s: seq<FolderStats>)
    ensures forall i :: 0 <= i < |s| ==> s[i].deepClassCount <= ChildrenCount(cs)
    ensures (forall j :: 0 <= j < |cs| ==> WellFormed(cs[j]) && cs[j].path == parent + [cs[j].folderName]) ==>
      forall i :: 0 <= i < |s| ==> StartsWithPath(s[i].path, parent) && |s[i].path| > |parent|
    decreases cs
  {
    if |cs| == 0 then []
    else
      var head := Stats(cs[0]);
      var tail := ChildStats(cs[1..], parent);
      assert forall j :: 1 <= j < |cs| ==> cs[1..][j - 1] == cs[j];
      head + tail
  }

  /** An entry of the siblings' statistics comes from one of the siblings. */
  lemma {:induction false} InChildStats(cs: seq<FolderNode>, parent: Path, x: FolderStats)
    requires x in ChildStats(cs, parent)
    ensures exists j :: 0 <= j < |cs| && x in Stats(cs[j])
    decreases |cs|
  {
    if x !in Stats(cs[0]) {
      InChildStats(cs[1..], parent, x);
      var j :| 0 <= j < |cs[1..]| && x in Stats(cs[1..][j]);
      assert cs[1..][j] == cs[j + 1];
    }
  }

  /** Every sibling's statistics are among the siblings' statistics. */
  lemma {:induction false} ChildStatsHas(cs: seq<FolderNode>, parent: Path, j: nat, x: FolderStats)
    requires j < |cs| && x in Stats(cs[j])
    ensures x in ChildStats(cs, parent)
    decreases |cs|
  {
    if j > 0 {
      assert cs[1..][j - 1] == cs[j];
      ChildStatsHas(cs[1..], parent, j - 1, x);
    }
  }

  /** Each statistics entry carries the deep count of its folder. */
  lemma {:induction false} StatsCount(n: FolderNode, x: FolderStats)
    requires WellFormed(n) && x in Stats(n)
    ensures x.deepClassCount == DeepAt(n, x.path)
    decreases n
  {
    var cs := n.children;
    if x in ChildStats(cs, n.path) {
      var j := EntryOfChild(n, x);
      StatsCount(cs[j], x);
      ChildrenDeepAtOne(cs, n.path, x.path, j);
    }
  }

  /** An entry of a folder's subfolder statistics lies in one of its subfolders. */
  lemma EntryOfChild(n: FolderNode, x: FolderStats) returns (j: nat)
    requires WellFormed(n) && x in ChildStats(n.children, n.path)
    ensures j < |n.children| && x in Stats(n.children[j])
    ensures StartsWithPath(x.path, n.children[j].path) && x.path != n.path
  {
    var cs := n.children;
    InChildStats(cs, n.path, x);
    j :| 0 <= j < |cs| && x in Stats(cs[j]);
    var s := Stats(cs[j]);
    var i :| 0 <= i < |s| && s[i] == x;
    assert StartsWithPath(s[i].path, cs[j].path);
  }

  /** Every folder holding a class has its entry in the statistics. */
  lemma {:induction false} FolderInStats(n: FolderNode, q: Path)
    requires WellFormed(n) && DeepAt(n, q) > 0
    ensures FolderStats(q, DeepAt(n, q)) in Stats(n)
    decreases n
  {
    if q != n.path {
      var cs := n.children;
      var j := PositiveChild(cs, q);
      FolderInStats(cs[j], q);
      DeepAtOutside(cs[j], q);
      ChildrenDeepAtOne(cs, n.path, q, j);
      ChildStatsHas(cs, n.path, j, FolderStats(q, DeepAt(n, q)));
    }
  }

  /** getStats over the built tree lists exactly the folders that hold classes, each
      with the number of counted classes in it and below it. */
  lemma FolderCounts(classes: seq<Path>, x: FolderStats, q: Path)
    ensures x in Stats(BuildTree(classes)) ==> x.deepClassCount == CountUnder(classes, x.path)
    ensures CountUnder(classes, q) > 0 ==> FolderStats(q, CountUnder(classes, q)) in Stats(BuildTree(classes))
  {
    var t := BuildTree(classes);
    if x in Stats(t) {
      StatsCount(t, x);
      BuildTreeDeepAt(classes, x.path);
    }
    BuildTreeDeepAt(classes, q);
    if CountUnder(classes, q) > 0 {
      FolderInStats(t, q);
    }
  }

  predicate StartsWithPath(p: Path, prefix: Path) {
    |prefix| <= |p| && p[..|prefix|] == prefix
  }

  function DeepClassCount(s: FolderStats): int {
    s.deepClassCount
  }

  // ---------------------------------------------------------------- scoring

  /** (float) deep / total >= 0.6f, as an exact rational comparison. A total of zero
      divides to NaN, which compares false. */
  predicate HighRatio(deep: nat, total: nat) {
    total > 0 && 5 * deep >= 3 * total
  }

  /** (int) (ratio * 2 + 0.5): twice the ratio, rounded half up. */
  function Confidence(deep: nat, total: nat): nat
    requires total > 0
  {
    (4 * deep + total) / (2 * total)
  }

  /** For a folder holding at least 60% of the classes the confidence is 1 or 2, and
      it is 2 exactly when the folder holds at least 75%. */
  lemma ConfidenceRange(deep: nat, total: nat)
    requires HighRatio(deep, total) && deep <= total
    ensures 1 <= Confidence(deep, total) <= 2
    ensures Confidence(deep, total) == 2 <==> 4 * deep >= 3 * total
  {
    if 4 * deep >= 3 * total {
      DivIs(4 * deep + total, 2 * total, 2);
    } else {
      DivIs(4 * deep + total, 2 * total, 1);
    }
  }

  /** Integer division yields q when the dividend lies in [q * b, q * b + b). */
  lemma DivIs(a: int, b: int, q: int)
    requires b > 0 && q * b <= a < q * b + b
    ensures a / b == q
  {
    var d := a / b;
    assert (d - q) * b == (a - q * b) - a % b;
    MulBetweenIsZero(d - q, b);
  }

  lemma MulBetweenIsZero(x: int, b: int)
    requires b > 0 && -b < x * b < b
    ensures x == 0
  {
  }

  /** (int) (ratio * 100): the percentage, rounded down. */
  function Percent(deep: nat, total: nat): nat
    requires total > 0
  {
    (100 * deep) / total
  }

  /** path.toString() with both separators replaced by '.'. */
  function DotSeparated(s: string): (r: string)
    ensures |r| == |s|
    ensures forall i :: 0 <= i < |s| ==> r[i] == (if s[i] == '\\' || s[i] == '/' then '.' else s[i])
  {
    seq(|s|, i requires 0 <= i < |s| => if s[i] == '\\' || s[i] == '/' then '.' else s[i])
  }

  function SourceString(percent: nat, rel: Path): string {
    "Path contains " + LeftPad(NatToString(percent), 3) + "% of classes: '" + Join(rel, "/") + "'"
  }

  /** The folder statistics that survive the filters, largest deep count first:
      at least 60% of all classes and not the root itself. */
  function Selected(root: FolderNode): (sel: seq<FolderStats>)
    ensures forall i :: 0 <= i < |sel| ==>
      HighRatio(sel[i].deepClassCount, DeepCount(root)) && |sel[i].path| >= 2
      && sel[i].deepClassCount <= DeepCount(root)
    ensures Sorting.SortedDesc(sel, DeepClassCount)
    ensures forall x :: x in sel <==>
      x in Stats(root) && HighRatio(x.deepClassCount, DeepCount(root)) && |x.path| >= 2
  {
    SelectFolders(Stats(root), DeepCount(root))
  }

  /** Sorting, then filtering, the statistics of a tree with `total` classes. */
  function SelectFolders(stats: seq<FolderStats>, total: nat): (sel: seq<FolderStats>)
    requires forall i :: 0 <= i < |stats| ==> stats[i].deepClassCount <= total
    ensures forall i :: 0 <= i < |sel| ==>
      HighRatio(sel[i].deepClassCount, total) && |sel[i].path| >= 2 && sel[i].deepClassCount <= total
    ensures Sorting.SortedDesc(sel, DeepClassCount)
    ensures forall x :: x in sel <==> x in stats && HighRatio(x.deepClassCount, total) && |x.path| >= 2
  {
    var sorted := Sorting.SortDesc(stats, DeepClassCount);
    assert forall x :: x in sorted <==> x in stats by {
      forall x ensures x in sorted <==> x in stats {
        assert x in sorted <==> x in multiset(sorted);
        assert x in stats <==> x in multiset(stats);
      }
    }
    var sel := KeepFiltered(sorted, total);
    assert forall i :: 0 <= i < |sel| ==> sel[i] in stats by {
      forall i | 0 <= i < |sel| ensures sel[i] in stats {
        assert sel[i] in sel;
      }
    }
    sel
  }

  function KeepFiltered(s: seq<FolderStats>, total: nat): (r: seq<FolderStats>)
    ensures forall x :: x in r <==> x in s && HighRatio(x.deepClassCount, total) && |x.path| >= 2
    ensures Sorting.SortedDesc(s, DeepClassCount) ==> Sorting.SortedDesc(r, DeepClassCount)
    decreases |s|
  {
    if |s| == 0 then []
    else
      var rest := KeepFiltered(s[1..], total);
      assert forall x :: x in s <==> x == s[0] || x in s[1..];
      if HighRatio(s[0].deepClassCount, total) && |s[0].path| >= 2 then
        assert Sorting.SortedDesc(s, DeepClassCount) ==> Sorting.SortedDesc([s[0]] + rest, DeepClassCount) by {
          if Sorting.SortedDesc(s, DeepClassCount) {
            SortedConsSub(s, rest);
          }
        }
        [s[0]] + rest
      else
        assert Sorting.SortedDesc(s, DeepClassCount) ==> Sorting.SortedDesc(s[1..], DeepClassCount);
        rest
  }

  /** A sorted subsequence of a sorted list's tail stays sorted behind the list's head. */
  lemma SortedConsSub(s: seq<FolderStats>, rest: seq<FolderStats>)
    requires |s| > 0 && Sorting.SortedDesc(s, DeepClassCount) && Sorting.SortedDesc(rest, DeepClassCount)
    requires forall x :: x in rest ==> x in s[1..]
    ensures Sorting.SortedDesc([s[0]] + rest, DeepClassCount)
  {
    var t := [s[0]] + rest;
    forall i, j | 0 <= i < j < |t|
      ensures DeepClassCount(t[i]) >= DeepClassCount(t[j])
    {
      if i == 0 {
        assert t[j] == rest[j - 1] && t[j] in s[1..];
        var m :| 0 <= m < |s[1..]| && s[1..][m] == t[j];
        assert s[m + 1] == t[j];
      } else {
        assert t[i] == rest[i - 1] && t[j] == rest[j - 1];
      }
    }
  }

  /** The groupId a folder proposes: its path below the root, with '/' and '\\'
      turned into '.', captured by the package pattern. */
  function FolderPackage(s: FolderStats): Option<string>
    requires |s.path| >= 1
  {
    PackageWithOptionalClass(DotSeparated(Join(s.path[1..], "/")), false)
  }

  /** The candidate one selected folder yields, if any: its path below the root must
      have between minDepth and 4 elements and, dotted, match the package pattern.
      The candidate is that package as a groupId, scored by the folder's share of the
      classes. */
  function CandidateOf(s: FolderStats, total: nat, minDepth: nat): (r: Option<Emitted>)
    requires HighRatio(s.deepClassCount, total) && s.deepClassCount <= total && |s.path| >= 1
    ensures r.Some? <==> minDepth <= |s.path| - 1 <= 4 && FolderPackage(s).Some?
    ensures r.Some? ==> (r.value.component == GroupId && r.value.value == FolderPackage(s)
      && r.value.score == Confidence(s.deepClassCount, total))
    ensures r.Some? ==> (r.value.value.Some? && IsPackage(r.value.value.value) && 1 <= r.value.score <= 2)
  {
    var rel := s.path[1..];
    if minDepth <= |rel| <= 4 then
      var pakkage := DotSeparated(Join(rel, "/"));
      match PackageWithOptionalClass(pakkage, false)
      case Some(valid) =>
        ConfidenceRange(s.deepClassCount, total);
        Some(Emitted(GroupId, Some(valid), Confidence(s.deepClassCount, total),
                     SourceString(Percent(s.deepClassCount, total), rel)))
      case None => None
    else None
  }

  /** Every folder of sel is one that ClassFilepathAnalyzer keeps. */
  predicate AllSelectable(sel: seq<FolderStats>, total: nat) {
    forall i :: 0 <= i < |sel| ==>
      HighRatio(sel[i].deepClassCount, total) && sel[i].deepClassCount <= total && |sel[i].path| >= 1
  }

  /** The candidates of the folders in sel, as a set. */
  ghost predicate CandidatesOfFolders(r: seq<Emitted>, sel: seq<FolderStats>, total: nat, minDepth: nat)
    requires AllSelectable(sel, total)
  {
    forall e :: e in r <==> exists i :: 0 <= i < |sel| && CandidateOf(sel[i], total, minDepth) == Some(e)
  }

  lemma CandidatesCons(sel: seq<FolderStats>, rest: seq<Emitted>, total: nat, minDepth: nat)
    requires |sel| > 0 && AllSelectable(sel, total)
    requires CandidatesOfFolders(rest, sel[1..], total, minDepth)
    ensures CandidatesOfFolders((match CandidateOf(sel[0], total, minDepth) case Some(e) => [e] case None => []) + rest,
                                sel, total, minDepth)
  {
    var head := match CandidateOf(sel[0], total, minDepth) case Some(e) => [e] case None => [];
    forall e ensures e in head + rest <==> exists i :: 0 <= i < |sel| && CandidateOf(sel[i], total, minDepth) == Some(e) {
      CandidateConsOne(sel, rest, total, minDepth, e);
    }
  }

  lemma CandidateConsOne(sel: seq<FolderStats>, rest: seq<Emitted>, total: nat, minDepth: nat, e: Emitted)
    requires |sel| > 0 && AllSelectable(sel, total)
    requires CandidatesOfFolders(rest, sel[1..], total, minDepth)
    ensures e in (match CandidateOf(sel[0], total, minDepth) case Some(e) => [e] case None => []) + rest
      <==> exists i :: 0 <= i < |sel| && CandidateOf(sel[i], total, minDepth) == Some(e)
  {
    if e in rest {
      var j :| 0 <= j < |sel[1..]| && CandidateOf(sel[1..][j], total, minDepth) == Some(e);
      assert sel[j + 1] == sel[1..][j];
    }
    if i :| 0 <= i < |sel| && CandidateOf(sel[i], total, minDepth) == Some(e) {
      if i > 0 {
        assert sel[1..][i - 1] == sel[i];
      }
    }
  }

  function CandidatesOf(sel: seq<FolderStats>, total: nat, minDepth: nat): (r: seq<Emitted>)
    requires AllSelectable(sel, total)
    ensures |r| <= |sel|
    ensures forall e :: e in r <==>
      exists i :: 0 <= i < |sel| && CandidateOf(sel[i], total, minDepth) == Some(e)
    ensures forall i :: 0 <= i < |r| ==> GroupCandidate(r[i])
    decreases |sel|
  {
    if |sel| == 0 then []
    else
      SelectableTail(sel, total);
      var rest := CandidatesOf(sel[1..], total, minDepth);
      CandidatesCons(sel, rest, total, minDepth);
      var head := match CandidateOf(sel[0], total, minDepth) case Some(e) => [e] case None => [];
      GroupCandidatesAppend(head, rest);
      head + rest
  }

  /** A package groupId candidate with the score 1 or 2. */
  predicate GroupCandidate(e: Emitted) {
    e.component == GroupId && e.value.Some? && IsPackage(e.value.value) && 1 <= e.score <= 2
  }

  lemma GroupCandidatesAppend(a: seq<Emitted>, b: seq<Emitted>)
    requires forall i :: 0 <= i < |a| ==> GroupCandidate(a[i])
    requires forall i :: 0 <= i < |b| ==> GroupCandidate(b[i])
    ensures forall i :: 0 <= i < |a + b| ==> GroupCandidate((a + b)[i])
  {
    forall i | 0 <= i < |a + b| ensures GroupCandidate((a + b)[i]) {
      if i < |a| { assert (a + b)[i] == a[i]; } else { assert (a + b)[i] == b[i - |a|]; }
    }
  }

  /** Candidates of consecutive runs of folders concatenate: each folder contributes its
      own candidate at its own place. */
  lemma {:induction false} CandidatesOfAppend(a: seq<FolderStats>, b: seq<FolderStats>, total: nat, minDepth: nat)
    requires AllSelectable(a, total) && AllSelectable(b, total)
    ensures AllSelectable(a + b, total)
    ensures CandidatesOf(a + b, total, minDepth) == CandidatesOf(a, total, minDepth) + CandidatesOf(b, total, minDepth)
    decreases |a|
  {
    SelectableAppend(a, b, total);
    if |a| == 0 {
      assert a + b == b;
    } else {
      SelectableTail(a, total);
      CandidatesOfAppend(a[1..], b, total, minDepth);
      CandidatesOfAppendStep(a, b, total, minDepth);
    }
  }

  lemma CandidatesOfAppendStep(a: seq<FolderStats>, b: seq<FolderStats>, total: nat, minDepth: nat)
    requires |a| > 0 && AllSelectable(a, total) && AllSelectable(b, total) && AllSelectable(a + b, total)
    requires AllSelectable(a[1..], total) && AllSelectable(a[1..] + b, total)
    requires CandidatesOf(a[1..] + b, total, minDepth) == CandidatesOf(a[1..], total, minDepth) + CandidatesOf(b, total, minDepth)
    ensures CandidatesOf(a + b, total, minDepth) == CandidatesOf(a, total, minDepth) + CandidatesOf(b, total, minDepth)
  {
    var head := match CandidateOf(a[0], total, minDepth) case Some(e) => [e] case None => [];
    var x, y := CandidatesOf(a[1..], total, minDepth), CandidatesOf(b, total, minDepth);
    ConsOfAppend(a, b);
    CandidatesOfUnfold(a + b, total, minDepth);
    CandidatesOfUnfold(a, total, minDepth);
    assert CandidatesOf(a + b, total, minDepth) == head + (x + y);
    AppendAssoc(head, x, y);
  }

  lemma CandidatesOfUnfold(sel: seq<FolderStats>, total: nat, minDepth: nat)
    requires |sel| > 0 && AllSelectable(sel, total)
    ensures AllSelectable(sel[1..], total)
    ensures CandidatesOf(sel, total, minDepth)
      == (match CandidateOf(sel[0], total, minDepth) case Some(e) => [e] case None => [])
         + CandidatesOf(sel[1..], total, minDepth)
  {
    SelectableTail(sel, total);
  }

  lemma SelectableAppend(a: seq<FolderStats>, b: seq<FolderStats>, total: nat)
    requires AllSelectable(a, total) && AllSelectable(b, total)
    ensures AllSelectable(a + b, total)
  {
    forall i | 0 <= i < |a + b|
      ensures HighRatio((a + b)[i].deepClassCount, total) && (a + b)[i].deepClassCount <= total
        && |(a + b)[i].path| >= 1
    {
      if i < |a| { assert (a + b)[i] == a[i]; } else { assert (a + b)[i] == b[i - |a|]; }
    }
  }

  lemma SelectableTail(a: seq<FolderStats>, total: nat)
    requires |a| > 0 && AllSelectable(a, total)
    ensures AllSelectable(a[1..], total)
  {
    forall i | 0 <= i < |a[1..]|
      ensures HighRatio(a[1..][i].deepClassCount, total) && a[1..][i].deepClassCount <= total
        && |a[1..][i].path| >= 1
    {
      assert a[1..][i] == a[i + 1];
    }
  }

  /** One selected folder alone may be a single-element package; with several, only
      folders at least two deep are considered. */
  function MinPathDepth(selectedCount: nat): (d: nat)
    ensures d == 1 <==> selectedCount <= 1
    ensures d == 2 <==> selectedCount >= 2
  {
    if selectedCount <= 1 then 1 else 2
  }

  /** ClassFilepathAnalyzer.analyze over the paths of the class entries: the candidates
      of the selected folders, in order, over the number of counted classes, with the
      minimum depth chosen by how many folders were selected. Every candidate is a
      groupId that is a valid package name scoring 1 or 2. */
  function Analyze(classes: seq<Path>): (r: seq<Emitted>)
    ensures AllSelectable(Selected(BuildTree(classes)), CountCounted(classes))
    ensures r == CandidatesOf(Selected(BuildTree(classes)), CountCounted(classes),
                              MinPathDepth(|Selected(BuildTree(classes))|))
    ensures forall i :: 0 <= i < |r| ==> (r[i].component == GroupId && r[i].value.Some?
      && IsPackage(r[i].value.value) && 1 <= r[i].score <= 2)
    ensures |r| <= |Selected(BuildTree(classes))|
    ensures CountCounted(classes) == 0 ==> r == []
  {
    var root := BuildTree(classes);
    var sel := Selected(root);
    TotalIsCountedClasses(classes);
    NothingSelectedInEmptyTree(root);
    CandidatesOf(sel, DeepCount(root), MinPathDepth(|sel|))
  }

  /** With two or more folders selected, every candidate comes from a folder at least
      two levels below the root, and carries that folder's package and confidence. */
  lemma SeveralFoldersNeedTwoLevels(classes: seq<Path>, e: Emitted)
    requires |Selected(BuildTree(classes))| >= 2
    requires e in Analyze(classes)
    ensures exists x :: (x in Selected(BuildTree(classes)) && |x.path| >= 3
      && e.value == FolderPackage(x) && e.score == Confidence(x.deepClassCount, CountCounted(classes)))
  {
    var sel := Selected(BuildTree(classes));
    var i :| 0 <= i < |sel| && CandidateOf(sel[i], CountCounted(classes), 2) == Some(e);
    assert sel[i] in sel;
  }

  /** A lone selected folder proposes its package even when it is one level deep. */
  lemma LoneFolderAdmitted(classes: seq<Path>)
    requires |Selected(BuildTree(classes))| == 1
    requires var x := Selected(BuildTree(classes))[0];
      |x.path| <= 5 && FolderPackage(x).Some?
    ensures |Analyze(classes)| == 1
    ensures Analyze(classes)[0].value == FolderPackage(Selected(BuildTree(classes))[0])
  {
    var r, sel, total := Analyze(classes), Selected(BuildTree(classes)), CountCounted(classes);
    assert AllSelectable(sel, total) && r == CandidatesOf(sel, total, MinPathDepth(|sel|));
    CandidatesOfUnfold(sel, total, MinPathDepth(|sel|));
    LoneTail(sel);
  }

  lemma NothingSelectedInEmptyTree(root: FolderNode)
    ensures DeepCount(root) == 0 ==> Selected(root) == []
  {
    var sel := Selected(root);
    if |sel| > 0 {
      assert HighRatio(sel[0].deepClassCount, DeepCount(root));
    }
  }

  /** Classes under META-INF/versions and classes at the jar root leave the analysis
      unchanged. */
  lemma IgnoredClass(classes: seq<Path>, p: Path)
    requires !Counted(p)
    ensures BuildTree(classes + [p]) == BuildTree(classes)
    ensures Analyze(classes + [p]) == Analyze(classes)
  {
    assert (classes + [p])[..|classes|] == classes;
  }
}
