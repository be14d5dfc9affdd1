/**
 * Python's `str.strip(chars)`: remove from both ends of a string every
 * character of a given class. The class is a parameter here; the message
 * loader uses the whitespace class (`str.strip()` without arguments).
 */
module Trimming {

  /** Every character of `s` is in the class `drop`. */
  predicate AllIn(drop: char -> bool, s: string) {
    forall i :: 0 <= i < |s| ==> drop(s[i])
  }

  /** The number of characters of the class that `s` starts with. */
  function LeadingCount(drop: char -> bool, s: string): (n: nat)
    ensures n <= |s|
    ensures forall k :: 0 <= k < n ==> drop(s[k])
    ensures n == |s| || !drop(s[n])
  {
    if |s| > 0 && drop(s[0]) then
      var m := LeadingCount(drop, s[1..]);
      assert forall k :: 1 <= k < 1 + m ==> s[k] == s[1..][k - 1];
      1 + m
    else 0
  }

  /** The number of characters of the class that `s` ends with. */
  function TrailingCount(drop: char -> bool, s: string): (n: nat)
    ensures n <= |s|
    ensures forall k :: |s| - n <= k < |s| ==> drop(s[k])
    ensures n == |s| || !drop(s[|s| - n - 1])
  {
    if |s| > 0 && drop(s[|s| - 1]) then
      var init := s[..|s| - 1];
      var m := TrailingCount(drop, init);
      assert forall k :: |init| - m <= k < |init| ==> s[k] == init[k];
      1 + m
    else 0
  }

  /** `s.lstrip(chars)` */
  function TrimStart(drop: char -> bool, s: string): string {
    s[LeadingCount(drop, s)..]
  }

  /** `s.rstrip(chars)` */
  function TrimEnd(drop: char -> bool, s: string): string {
    s[..|s| - TrailingCount(drop, s)]
  }

  /**
   * `s.strip(chars)`: no longer than `s`, and neither starting nor ending
   * with a character of the class (StripIsInfix, StripRemovesOnlyClass and
   * StripUnique say which part of `s` it is).
   */
  function Strip(drop: char -> bool, s: string): (r: string)
    ensures |r| <= |s|
    ensures r == [] || (!drop(r[0]) && !drop(r[|r| - 1]))
  {
    var t := TrimStart(drop, s);
    assert t == [] || t[0] == s[LeadingCount(drop, s)];
    TrimEnd(drop, t)
  }

  /** Strip(drop, s) is the part of `s` that starts right after its leading run of the class. */
  lemma StripIsInfix(drop: char -> bool, s: string)
    ensures var i := LeadingCount(drop, s);
            i + |Strip(drop, s)| <= |s| && Strip(drop, s) == s[i..i + |Strip(drop, s)|]
  {
    var i := LeadingCount(drop, s);
    var t := s[i..];
    var r := t[..|t| - TrailingCount(drop, t)];
    assert Strip(drop, s) == r;
    SliceOfSuffix(s, i, |r|);
  }

  /** What Strip(drop, s) leaves out of `s`, on either side, is characters of the class only. */
  lemma StripRemovesOnlyClass(drop: char -> bool, s: string)
    ensures var i := LeadingCount(drop, s);
            i + |Strip(drop, s)| <= |s|
            && AllIn(drop, s[..i]) && AllIn(drop, s[i + |Strip(drop, s)|..])
  {
    var i := LeadingCount(drop, s);
    var t := s[i..];
    var j := TrailingCount(drop, t);
    var e := i + |t| - j;
    assert forall k :: 0 <= k < |s| - e ==> s[e..][k] == t[|t| - j + k];
  }

  /** Slicing a suffix of `s` is slicing `s` at shifted bounds. */
  lemma SliceOfSuffix<T>(s: seq<T>, i: nat, m: nat)
    requires i + m <= |s|
    ensures s[i..][..m] == s[i..i + m] && s[i..][m..] == s[i + m..]
  {
  }

  /** A run of the class that ends at the end of `s` or before another character is the leading one. */
  lemma {:induction false} LeadingCountUnique(drop: char -> bool, s: string, n: nat)
    requires n <= |s| && forall k :: 0 <= k < n ==> drop(s[k])
    requires n == |s| || !drop(s[n])
    ensures LeadingCount(drop, s) == n
  {
    if n > 0 {
      assert forall k :: 0 <= k < n - 1 ==> s[1..][k] == s[k + 1];
      LeadingCountUnique(drop, s[1..], n - 1);
    }
  }

  /** A run of the class that starts at the start of `s` or after another character is the trailing one. */
  lemma {:induction false} TrailingCountUnique(drop: char -> bool, s: string, n: nat)
    requires n <= |s| && forall k :: |s| - n <= k < |s| ==> drop(s[k])
    requires n == |s| || !drop(s[|s| - n - 1])
    ensures TrailingCount(drop, s) == n
  {
    if n > 0 {
      var init := s[..|s| - 1];
      assert forall k :: |init| - (n - 1) <= k < |init| ==> init[k] == s[k];
      TrailingCountUnique(drop, init, n - 1);
    }
  }

  /**
   * Strip is determined by its decomposition: any split of `s` into a run of
   * the class, a part that neither starts nor ends with the class, and a run
   * of the class, strips to that part.
   */
  lemma StripUnique(drop: char -> bool, s: string, pre: string, mid: string, post: string)
    requires s == pre + mid + post && AllIn(drop, pre) && AllIn(drop, post)
    requires mid == [] || (!drop(mid[0]) && !drop(mid[|mid| - 1]))
    ensures Strip(drop, s) == mid
  {
    var t := mid + post;
    assert forall k :: 0 <= k < |pre| ==> s[k] == pre[k];
    assert forall k :: |pre| <= k < |s| ==> s[k] == t[k - |pre|];
    assert forall k :: |mid| <= k < |t| ==> t[k] == post[k - |mid|];
    if mid == [] {
      LeadingCountUnique(drop, s, |s|);
      assert s[|s|..] == [];
    } else {
      LeadingCountUnique(drop, s, |pre|);
      assert s[|pre|..] == t;
      TrailingCountUnique(drop, t, |post|);
      assert t[..|mid|] == mid;
    }
  }

  /** Stripping twice is stripping once. */
  lemma StripIdempotent(drop: char -> bool, s: string)
    ensures Strip(drop, Strip(drop, s)) == Strip(drop, s)
  {
    StripUnique(drop, Strip(drop, s), [], Strip(drop, s), []);
  }

  /** The stripped string is empty exactly when every character of `s` is in the class. */
  lemma StripEmpty(drop: char -> bool, s: string)
    ensures Strip(drop, s) == [] <==> AllIn(drop, s)
  {
    if Strip(drop, s) == [] {
      assert LeadingCount(drop, s) == |s|;
    }
    if AllIn(drop, s) {
      LeadingCountUnique(drop, s, |s|);
    }
  }
}
