// The two pieces of JavaScript built-in behaviour the page script relies on,
// written out because Dafny's own operators differ from them.
module JsText {

  /** The index ToIntegerOrInfinity-then-clamp step of String.prototype.substring:
      an argument below 0 becomes 0 and one above the length becomes the length. */
  function Clamp(x: int, len: nat): (r: nat)
    ensures r <= len
    ensures 0 <= x <= len ==> r == x
    ensures x < 0 ==> r == 0
    ensures x > len ==> r == len
  {
    if x < 0 then 0 else if x > len then len else x
  }

  /** String.prototype.substring(start, end): both ends are clamped into the
      string and swapped when start comes after end. */
  function Substring(s: string, start: int, end: int): (r: string)
    ensures |r| <= |s|
    ensures 0 <= start <= end <= |s| ==> r == s[start..end]
    ensures start <= 0 <= end ==> r <= s
    ensures start <= 0 <= end ==> |r| == if end <= |s| then end else |s|
  {
    var a, b := Clamp(start, |s|), Clamp(end, |s|);
    if a <= b then s[a..b] else s[b..a]
  }

  /** The JavaScript `%` operator on integers: the remainder takes the sign of
      the dividend (Dafny's `%` never returns a negative value). */
  function Remainder(a: int, b: int): (r: int)
    requires b > 0
    ensures 0 <= a ==> 0 <= r < b
    ensures a <= 0 ==> -b < r <= 0
    ensures 0 <= a ==> r == a % b
  {
    if a >= 0 then a % b else -((-a) % b)
  }

  /** Negating the dividend negates the remainder; with the non-negative case
      above this fixes the value for every dividend. */
  lemma RemainderOfNegation(a: int, b: int)
    requires b > 0
    ensures Remainder(-a, b) == -Remainder(a, b)
  {
  }
}
