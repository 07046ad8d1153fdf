/**
 * The boundary shared by `takeWhile` and `dropWhile`: the first element of a
 * sequence that fails a predicate.
 */
module Prefixes {

  /** The index of the first element of `s` that fails `p`, or `|s|` when every element passes. */
  function FirstFailure<T>(s: seq<T>, p: T -> bool): (k: nat)
    ensures k <= |s|
    ensures forall i :: 0 <= i < k ==> p(s[i])
    ensures k < |s| ==> !p(s[k])
  {
    if s == [] || !p(s[0]) then 0 else 1 + FirstFailure(s[1..], p)
  }

  /** The longest prefix of `s` whose elements all satisfy `p`. */
  function PassingPrefix<T>(s: seq<T>, p: T -> bool): seq<T> {
    s[..FirstFailure(s, p)]
  }

  /** What is left of `s` once its longest passing prefix is removed. */
  function AfterPassingPrefix<T>(s: seq<T>, p: T -> bool): seq<T> {
    s[FirstFailure(s, p)..]
  }

  /** No prefix of `s` made of passing elements is longer than `PassingPrefix(s, p)`. */
  lemma PassingPrefixIsLongest<T>(s: seq<T>, p: T -> bool, t: seq<T>)
    requires t <= s
    requires forall i :: 0 <= i < |t| ==> p(t[i])
    ensures t <= PassingPrefix(s, p)
  {
  }

  /**
   * The prefix `takeWhile` keeps and the suffix `dropWhile` keeps split the
   * sequence, and the suffix, when not empty, starts with a failing element.
   */
  lemma {:induction false} TakeAndDropSplit<T>(s: seq<T>, p: T -> bool)
    ensures PassingPrefix(s, p) + AfterPassingPrefix(s, p) == s
    ensures AfterPassingPrefix(s, p) != [] ==> !p(AfterPassingPrefix(s, p)[0])
    ensures forall x :: x in PassingPrefix(s, p) ==> p(x)
  {
    var k := FirstFailure(s, p);
    assert s[..k] + s[k..] == s;
    forall x | x in PassingPrefix(s, p) ensures p(x) {
      var i :| 0 <= i < k && s[i] == x;
    }
  }
}
