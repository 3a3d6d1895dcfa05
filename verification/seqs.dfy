/** Facts about sequences that the model's proofs use at many element types. Each is
    proved here once, away from the quantifiers of any particular operation. */
module Seqs {

  lemma ConsOfAppend<T>(a: seq<T>, b: seq<T>)
    requires |a| > 0
    ensures (a + b)[0] == a[0] && (a + b)[1..] == a[1..] + b
  {
  }

  lemma AppendAssoc<T>(a: seq<T>, b: seq<T>, c: seq<T>)
    ensures a + (b + c) == (a + b) + c
  {
  }

  /** Slicing a sequence extended at its end, within or from inside its original part. */
  lemma SliceOfAppend<T>(p: seq<T>, q: seq<T>, j: nat)
    requires j <= |p|
    ensures (p + q)[..j] == p[..j] && (p + q)[j..] == p[j..] + q
  {
  }

  lemma IndexAppend<T>(a: seq<T>, b: seq<T>, p: nat)
    requires p < |a| + |b|
    ensures (a + b)[p] == if p < |a| then a[p] else b[p - |a|]
  {
  }

  lemma IndexAppendRight<T>(a: seq<T>, b: seq<T>, q: nat)
    requires q < |b|
    ensures |a| + q < |a + b| && (a + b)[|a| + q] == b[q]
  {
  }

  lemma InitThenLast<T>(s: seq<T>)
    requires |s| > 0
    ensures s == s[..|s| - 1] + [s[|s| - 1]]
  {
  }

  lemma LoneTail<T>(s: seq<T>)
    requires |s| == 1
    ensures s[1..] == []
  {
  }

  lemma ThreeThenRest<T>(x: T, y: T, z: T, rest: seq<T>)
    ensures [x, y, z] + rest == [x] + ([y] + ([z] + rest))
  {
    var l, r := [x, y, z] + rest, [x] + ([y] + ([z] + rest));
    assert |l| == |r|;
    forall i | 0 <= i < |l| ensures l[i] == r[i] {
      if i >= 3 { assert l[i] == rest[i - 3]; assert r[i] == rest[i - 3]; }
    }
  }

  /** Concatenating parts of which at most one is non-empty gives that part. */
  lemma OnlyOnePart<T>(a: seq<T>, b: seq<T>, c: seq<T>, d: seq<T>, e: seq<T>)
    ensures b == c == d == e == [] ==> a + b + c + d + e == a
    ensures a == c == d == e == [] ==> a + b + c + d + e == b
    ensures a == b == d == e == [] ==> a + b + c + d + e == c
    ensures a == b == c == e == [] ==> a + b + c + d + e == d
    ensures a == b == c == d == [] ==> a + b + c + d + e == e
    ensures a == b == c == d == e == [] ==> a + b + c + d + e == []
  {
  }
}
