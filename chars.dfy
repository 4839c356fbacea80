// Character classes and the min/max folds used for range dispatch
// (include/strm/strm.hpp:31-58).

module Chars {

  /** `is_between`: inclusive range test on characters. */
  predicate IsBetween(c: char, lo: char, hi: char) {
    lo <= c <= hi
  }

  /** `is_letter`: an ASCII letter, upper or lower case. */
  predicate IsLetter(c: char) {
    IsBetween(c, 'a', 'z') || IsBetween(c, 'A', 'Z')
  }

  /** `is_digit`: an ASCII decimal digit. */
  predicate IsDigit(c: char) {
    IsBetween(c, '0', '9')
  }

  const DigitChars: string := "0123456789"

  /**
   * The classes by their members: the digits are exactly the ten of DigitChars,
   * no character is both a digit and a letter, and the separators the matchers
   * test for ('_', '.', NUL) belong to neither class.
   */
  lemma CharClasses(c: char)
    ensures IsDigit(c) <==> c in DigitChars
    ensures !(IsDigit(c) && IsLetter(c))
    ensures forall d :: d in "_.\0" ==> !IsDigit(d) && !IsLetter(d)
  {
  }

  /** The smallest character of a non-empty list: a lower bound of it (SeqMinMaxIn: one of its elements). */
  function SeqMin(s: seq<char>): (r: char)
    requires |s| > 0
    ensures forall i :: 0 <= i < |s| ==> r <= s[i]
  {
    if |s| == 1 then s[0]
    else
      var m := SeqMin(s[1..]);
      if s[0] < m then s[0] else m
  }

  /** The largest character of a non-empty list: an upper bound of it (SeqMinMaxIn: one of its elements). */
  function SeqMax(s: seq<char>): (r: char)
    requires |s| > 0
    ensures forall i :: 0 <= i < |s| ==> s[i] <= r
  {
    if |s| == 1 then s[0]
    else
      var m := SeqMax(s[1..]);
      if s[0] > m then s[0] else m
  }

  /** The bounds are attained: both are elements of the list. */
  lemma {:induction false} SeqMinMaxIn(s: seq<char>)
    requires |s| > 0
    ensures SeqMin(s) in s && SeqMax(s) in s
    decreases |s|
  {
    if |s| > 1 {
      SeqMinMaxIn(s[1..]);
    }
  }

  /** An element of the list bounding it from below is its minimum. */
  lemma SeqMinUnique(s: seq<char>, lo: char)
    requires lo in s && forall i :: 0 <= i < |s| ==> lo <= s[i]
    ensures lo == SeqMin(s)
  {
    SeqMinMaxIn(s);
  }

  /** An element of the list bounding it from above is its maximum. */
  lemma SeqMaxUnique(s: seq<char>, hi: char)
    requires hi in s && forall i :: 0 <= i < |s| ==> s[i] <= hi
    ensures hi == SeqMax(s)
  {
    SeqMinMaxIn(s);
  }

  /** The `consteval min` loop: starts from the first element and keeps the smaller one. */
  method MinOf(arr: seq<char>) returns (res: char)
    requires |arr| > 0
    ensures res in arr
    ensures forall i :: 0 <= i < |arr| ==> res <= arr[i]
  {
    res := arr[0];
    var k := 0;
    while k < |arr|
      invariant 0 <= k <= |arr|
      invariant res in arr
      invariant forall i :: 0 <= i < k ==> res <= arr[i]
    {
      res := if arr[k] < res then arr[k] else res;
      k := k + 1;
    }
  }

  /** The `consteval max` loop: starts from the first element and keeps the larger one. */
  method MaxOf(arr: seq<char>) returns (res: char)
    requires |arr| > 0
    ensures res in arr
    ensures forall i :: 0 <= i < |arr| ==> arr[i] <= res
  {
    res := arr[0];
    var k := 0;
    while k < |arr|
      invariant 0 <= k <= |arr|
      invariant res in arr
      invariant forall i :: 0 <= i < k ==> arr[i] <= res
    {
      res := if arr[k] > res then arr[k] else res;
      k := k + 1;
    }
  }
}
