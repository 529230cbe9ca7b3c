/** The part of JavaScript's string semantics the editor relies on: `String.prototype.slice`. */
module JsText {

  /** How `slice` turns an argument into a position of a string of length `len`:
      a negative argument counts back from the end, and the result is clamped to [0, len]. */
  function RelativeIndex(i: int, len: nat): (k: nat)
    ensures k <= len
    ensures 0 <= i <= len ==> k == i
    ensures i > len ==> k == len
  {
    if i < 0 then (if len + i < 0 then 0 else len + i)
    else if i > len then len
    else i
  }

  /** `s.slice(start, end)`; `s.slice(start)` is `Slice(s, start, |s|)`. */
  function Slice(s: string, start: int, end: int): (r: string)
    ensures |r| <= |s|
    ensures 0 <= start <= end <= |s| ==> r == s[start..end]
    ensures 0 <= end <= start ==> r == []
  {
    var a := RelativeIndex(start, |s|);
    var b := RelativeIndex(end, |s|);
    if a < b then s[a..b] else []
  }

  /** Cutting a string at any argument `p` and gluing the two slices back gives the string,
      whatever `p` is: negative and too-large arguments are clamped consistently. */
  lemma SliceAtSplits(s: string, p: int)
    ensures Slice(s, 0, p) + Slice(s, p, |s|) == s
  {
    var k := RelativeIndex(p, |s|);
    assert Slice(s, 0, p) == s[..k];
    assert Slice(s, p, |s|) == s[k..];
  }

  /** `slice(0, -1)` drops the last character (and is empty on the empty string). */
  lemma SliceToMinusOne(s: string)
    ensures Slice(s, 0, -1) == if s == [] then [] else s[..|s| - 1]
  {
  }
}
