/**
 * Go's `strings.Replace(s, old, new, -1)` for the case the load balancer uses,
 * a one-character `old` and a one-character `new`: every occurrence is replaced.
 */
module Strings {

  /** Every `from` in `s` becomes `to`; every other character stays where it is. */
  function ReplaceAll(s: string, from: char, to: char): (r: string)
    ensures |r| == |s|
    ensures forall i :: 0 <= i < |s| ==> r[i] == if s[i] == from then to else s[i]
  {
    if s == [] then []
    else [if s[0] == from then to else s[0]] + ReplaceAll(s[1..], from, to)
  }

  /** After replacing `from` by a different character no `from` is left. */
  lemma ReplaceAllRemoves(s: string, from: char, to: char)
    requires from != to
    ensures from !in ReplaceAll(s, from, to)
  {
  }

  /** Replacing a second time changes nothing. */
  lemma ReplaceAllIdempotent(s: string, from: char, to: char)
    ensures ReplaceAll(ReplaceAll(s, from, to), from, to) == ReplaceAll(s, from, to)
  {
  }

  /** A string without `from` is left as it is. */
  lemma ReplaceAllAbsent(s: string, from: char, to: char)
    requires from !in s
    ensures ReplaceAll(s, from, to) == s
  {
  }

  /** Replacement works character by character, so it distributes over concatenation. */
  lemma ReplaceAllAppend(a: string, b: string, from: char, to: char)
    ensures ReplaceAll(a + b, from, to) == ReplaceAll(a, from, to) + ReplaceAll(b, from, to)
  {
  }
}
