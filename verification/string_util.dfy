/** StringUtil: right and left padding of a string with spaces to a minimum length. */
module StringUtil {
  import opened Text

  /** rightPad(str, minLength): str followed by spaces up to minLength characters. */
  function RightPad(s: string, minLength: int): (r: string)
    ensures |r| == if |s| < minLength then minLength else |s|
    ensures StartsWith(r, s)
    ensures forall i :: |s| <= i < |r| ==> r[i] == ' '
    ensures |s| >= minLength ==> r == s
  {
    if |s| < minLength then s + Repeat(' ', minLength - |s|) else s
  }

  /** leftPad(str, minLength): spaces followed by str, minLength characters at least. */
  function LeftPad(s: string, minLength: int): (r: string)
    ensures |r| == if |s| < minLength then minLength else |s|
    ensures EndsWith(r, s)
    ensures forall i :: 0 <= i < |r| - |s| ==> r[i] == ' '
    ensures |s| >= minLength ==> r == s
  {
    if |s| < minLength then Repeat(' ', minLength - |s|) + s else s
  }

  /** Padding an already padded string to the same length changes nothing. */
  lemma PadIdempotent(s: string, minLength: int)
    ensures RightPad(RightPad(s, minLength), minLength) == RightPad(s, minLength)
    ensures LeftPad(LeftPad(s, minLength), minLength) == LeftPad(s, minLength)
  {
  }

}
