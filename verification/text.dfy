/** String helpers that mirror the java.lang.String operations the model needs:
    prefix/suffix tests, joining, splitting on one character (with the exact
    trailing-empty-string rule of String.split), trimming and decimal rendering. */
module Text {

  predicate StartsWith(s: string, p: string) {
    |p| <= |s| && s[..|p|] == p
  }

  predicate EndsWith(s: string, suffix: string) {
    |suffix| <= |s| && s[|s| - |suffix|..] == suffix
  }

  lemma StartsWithHead(x: string, y: string)
    ensures StartsWith(x + y, x)
  {
    assert (x + y)[..|x|] == x;
  }

  /** A suffix of y stays a suffix when anything is put in front of y. */
  lemma EndsWithBehind(x: string, y: string, t: string)
    requires EndsWith(y, t)
    ensures EndsWith(x + y, t)
  {
    assert (x + y)[|x + y| - |t|..] == y[|y| - |t|..];
  }

  lemma EndsWithTail(y: string, t: string)
    ensures EndsWith(y + t, t)
  {
    assert (y + t)[|y|..] == t;
  }

  /** A string of n copies of c (empty when n <= 0), like String.repeat. */
  function Repeat(c: char, n: int): (r: string)
    ensures |r| == if n <= 0 then 0 else n
    ensures forall i :: 0 <= i < |r| ==> r[i] == c
    decreases if n <= 0 then 0 else n
  {
    if n <= 0 then "" else [c] + Repeat(c, n - 1)
  }

  /** Concatenation of parts with sep between neighbours, like String.join. */
  function Join(parts: seq<string>, sep: string): string
    decreases |parts|
  {
    if |parts| == 0 then ""
    else if |parts| == 1 then parts[0]
    else parts[0] + sep + Join(parts[1..], sep)
  }

  /** Concatenation of all strings in order. */
  function Concat(parts: seq<string>): string
    decreases |parts|
  {
    if |parts| == 0 then "" else parts[0] + Concat(parts[1..])
  }

  lemma {:induction false} ConcatAppend(a: seq<string>, b: seq<string>)
    ensures Concat(a + b) == Concat(a) + Concat(b)
    decreases |a|
  {
    if |a| == 0 {
      assert a + b == b;
    } else {
      assert (a + b)[1..] == a[1..] + b;
      ConcatAppend(a[1..], b);
    }
  }

  /** Index of the first occurrence of c in s, or |s| when absent. */
  function IndexOf(s: string, c: char): (i: nat)
    ensures i <= |s|
    ensures i < |s| ==> s[i] == c
    ensures forall k :: 0 <= k < i ==> s[k] != c
    decreases |s|
  {
    if |s| == 0 then 0 else if s[0] == c then 0 else 1 + IndexOf(s[1..], c)
  }

  /** The first occurrence of c is IndexOf's answer. */
  lemma IndexOfFirst(s: string, c: char, i: nat)
    requires i < |s| && s[i] == c
    requires forall k :: 0 <= k < i ==> s[k] != c
    ensures IndexOf(s, c) == i
  {
  }

  /** Index of the last occurrence of c in s; -1 when absent (String.lastIndexOf). */
  function LastIndexOf(s: string, c: char): (i: int)
    ensures -1 <= i < |s|
    ensures i >= 0 ==> s[i] == c
    ensures forall k :: i < k < |s| ==> s[k] != c
    decreases |s|
  {
    if |s| == 0 then -1
    else if s[|s| - 1] == c then |s| - 1
    else LastIndexOf(s[..|s| - 1], c)
  }

  /** Splits s at every occurrence of c, keeping all empty pieces. */
  function SplitAll(s: string, c: char): (parts: seq<string>)
    ensures |parts| >= 1
    ensures forall i :: 0 <= i < |parts| ==> c !in parts[i]
    decreases |s|
  {
    var i := IndexOf(s, c);
    if i == |s| then [s] else [s[..i]] + SplitAll(s[i + 1..], c)
  }

  /** A string without c is a single piece. */
  lemma SplitAllNone(s: string, c: char)
    requires c !in s
    ensures SplitAll(s, c) == [s]
  {
    assert IndexOf(s, c) == |s|;
  }

  /** The first c ends the first piece. */
  lemma SplitAllCons(head: string, rest: string, c: char)
    requires c !in head
    ensures SplitAll(head + [c] + rest, c) == [head] + SplitAll(rest, c)
  {
    var s := head + [c] + rest;
    assert s[|head|] == c;
    assert forall k :: 0 <= k < |head| ==> s[k] == head[k];
    assert IndexOf(s, c) == |head|;
    assert s[..|head|] == head;
    assert s[|head| + 1..] == rest;
  }

  lemma {:induction false} JoinSplitAll(s: string, c: char)
    ensures Join(SplitAll(s, c), [c]) == s
    decreases |s|
  {
    var i := IndexOf(s, c);
    if i < |s| {
      var head, tail := s[..i], s[i + 1..];
      var rest := SplitAll(tail, c);
      assert SplitAll(s, c) == [head] + rest;
      assert Join(rest, [c]) == tail by {
        JoinSplitAll(tail, c);
      }
      assert Join([head] + rest, [c]) == head + [c] + Join(rest, [c]) by {
        JoinCons(head, rest, [c]);
      }
      assert head + [c] + tail == s;
    } else {
      assert SplitAll(s, c) == [s];
    }
  }

  lemma JoinCons(head: string, rest: seq<string>, sep: string)
    requires |rest| >= 1
    ensures Join([head] + rest, sep) == head + sep + Join(rest, sep)
  {
    assert ([head] + rest)[1..] == rest;
  }

  /** Drops trailing empty strings. */
  function DropTrailingEmpty(parts: seq<string>): (r: seq<string>)
    ensures |r| <= |parts| && r == parts[..|r|]
    ensures |r| > 0 ==> r[|r| - 1] != ""
    ensures forall i :: |r| <= i < |parts| ==> parts[i] == ""
    decreases |parts|
  {
    if |parts| == 0 then []
    else if parts[|parts| - 1] == "" then DropTrailingEmpty(parts[..|parts| - 1])
    else parts
  }

  /** Java's s.split(regex) for a regex that matches exactly the one character c:
      without any match the result is [s]; otherwise the pieces between matches with
      trailing empty pieces removed. */
  function JavaSplit(s: string, c: char): (parts: seq<string>)
    ensures c !in s ==> parts == [s]
    ensures forall i :: 0 <= i < |parts| ==> c !in parts[i]
    ensures c in s ==> parts == DropTrailingEmpty(SplitAll(s, c))
  {
    if c !in s then [s] else DropTrailingEmpty(SplitAll(s, c))
  }

  /** Rejoining any leading run of split pieces gives a prefix of the input that
      ends at the input's end or just before an occurrence of c. */
  lemma {:induction false} JoinPrefixOfSplitAll(s: string, c: char, k: nat)
    requires 1 <= k <= |SplitAll(s, c)|
    ensures var j := Join(SplitAll(s, c)[..k], [c]);
      StartsWith(s, j) && (|j| < |s| ==> s[|j|] == c)
    decreases |s|
  {
    var i := IndexOf(s, c);
    var parts := SplitAll(s, c);
    if i == |s| {
      assert parts[..k] == [s];
    } else if k == 1 {
      assert parts[..k] == [s[..i]];
    } else {
      var rest := SplitAll(s[i + 1..], c);
      assert parts == [s[..i]] + rest;
      var pre := rest[..k - 1];
      assert parts[..k] == [s[..i]] + pre;
      JoinPrefixOfSplitAll(s[i + 1..], c, k - 1);
      var tail := Join(pre, [c]);
      assert StartsWith(s[i + 1..], tail);
      assert Join(parts[..k], [c]) == s[..i] + [c] + tail;
      PrefixExtend(s, i, c, tail);
    }
  }

  lemma PrefixExtend(s: string, i: nat, c: char, tail: string)
    requires i < |s| && s[i] == c && StartsWith(s[i + 1..], tail)
    requires |tail| < |s[i + 1..]| ==> s[i + 1..][|tail|] == c
    ensures var j := s[..i] + [c] + tail; StartsWith(s, j) && (|j| < |s| ==> s[|j|] == c)
  {
    var j := s[..i] + [c] + tail;
    assert |j| == i + 1 + |tail|;
    assert forall m :: 0 <= m < |j| ==> j[m] == s[m];
  }

  /** Characters java.lang.String.trim removes: every code point up to U+0020. */
  predicate IsTrimmable(c: char) {
    c <= ' '
  }

  function TrimStart(s: string): (r: string)
    ensures EndsWith(s, r)
    ensures |r| > 0 ==> !IsTrimmable(r[0])
    ensures forall i :: 0 <= i < |s| - |r| ==> IsTrimmable(s[i])
    decreases |s|
  {
    if |s| > 0 && IsTrimmable(s[0]) then
      var r := TrimStart(s[1..]);
      TrimStartStep(s, r);
      r
    else s
  }

  /** Dropping one more trimmable character in front keeps r a suffix preceded only
      by trimmable characters. */
  lemma TrimStartStep(s: string, r: string)
    requires |s| > 0 && IsTrimmable(s[0]) && EndsWith(s[1..], r)
    requires forall i :: 0 <= i < |s[1..]| - |r| ==> IsTrimmable(s[1..][i])
    ensures EndsWith(s, r)
    ensures forall i :: 0 <= i < |s| - |r| ==> IsTrimmable(s[i])
  {
    assert s[|s| - |r|..] == s[1..][|s[1..]| - |r|..];
    forall i | 0 <= i < |s| - |r|
      ensures IsTrimmable(s[i])
    {
      if i > 0 {
        assert s[i] == s[1..][i - 1];
      }
    }
  }

  function TrimEnd(s: string): (r: string)
    ensures StartsWith(s, r)
    ensures |r| > 0 ==> !IsTrimmable(r[|r| - 1])
    ensures forall i :: |r| <= i < |s| ==> IsTrimmable(s[i])
    decreases |s|
  {
    if |s| > 0 && IsTrimmable(s[|s| - 1]) then TrimEnd(s[..|s| - 1]) else s
  }

  /** String.trim: removes leading and trailing characters up to U+0020. */
  function Trim(s: string): (r: string)
    ensures |r| <= |s|
    ensures |r| > 0 ==> !IsTrimmable(r[0]) && !IsTrimmable(r[|r| - 1])
  {
    TrimEnd(TrimStart(s))
  }

  /** ASCII lower-casing of one character. */
  function LowerChar(c: char): char {
    if 'A' <= c <= 'Z' then (c as int - 'A' as int + 'a' as int) as char else c
  }

  function Lower(s: string): (r: string)
    ensures |r| == |s|
    ensures forall i :: 0 <= i < |s| ==> r[i] == LowerChar(s[i])
  {
    seq(|s|, i requires 0 <= i < |s| => LowerChar(s[i]))
  }

  function DigitChar(d: nat): char
    requires d < 10
  {
    ('0' as int + d) as char
  }

  /** Decimal rendering of a natural number, as Integer.toString does. */
  function NatToString(n: nat): (r: string)
    ensures |r| >= 1
    ensures forall i :: 0 <= i < |r| ==> '0' <= r[i] <= '9'
    decreases n
  {
    if n < 10 then [DigitChar(n)] else NatToString(n / 10) + [DigitChar(n % 10)]
  }

  /** Decimal rendering of an integer with a leading '-' when negative. */
  function IntToString(n: int): string {
    if n < 0 then "-" + NatToString(-n) else NatToString(n)
  }
}
