/** Facts about sequences that several modules need: writing a list over part of a sequence, what
    inserting one element does to the contents, and lists of numbers without repeats or below a bound. */
module Sequences {
  /** A sequence with a list written over it from a position on. */
  function Splice<T>(s: seq<T>, at: nat, list: seq<T>): (r: seq<T>)
    requires at + |list| <= |s|
    ensures |r| == |s|
  {
    s[..at] + list + s[at + |list|..]
  }

  lemma SplitContents<T>(s: seq<T>, j: nat, x: T)
    requires j <= |s|
    ensures multiset(s[..j] + [x] + s[j..]) == multiset(s) + multiset{x}
  {
    assert s == s[..j] + s[j..];
  }

  /** No element occurs twice. */
  predicate NoRepeats(s: seq<nat>) {
    forall i, j :: 0 <= i < j < |s| ==> s[i] != s[j]
  }

  /** Every element is below a bound. */
  predicate Within(s: seq<nat>, size: nat) {
    forall i :: 0 <= i < |s| ==> s[i] < size
  }

  /** The numbers below a bound, in some order. */
  predicate IsShuffle(s: seq<nat>, size: nat) {
    |s| == size && Within(s, size) && NoRepeats(s)
  }

  lemma NoRepeatsAppend(s: seq<nat>, x: nat)
    ensures NoRepeats(s + [x]) <==> NoRepeats(s) && x !in s
  {
    var t := s + [x];
    assert forall i :: 0 <= i < |s| ==> t[i] == s[i];
    assert t[|s|] == x;
  }
}
