/** Sequences cut into chunks, and without one of their elements. */
module Sequences {
  /** Chunk b of a sequence, of `size` elements. */
  function Chunk<T>(s: seq<T>, size: nat, b: nat): (chunk: seq<T>)
    requires size * b + size <= |s|
    ensures |chunk| == size
  {
    s[size * b..size * b + size]
  }

  function RemoveAt<T>(s: seq<T>, j: nat): (t: seq<T>)
    requires j < |s|
    ensures |t| == |s| - 1
    ensures forall i :: 0 <= i < |t| ==> t[i] == s[if i < j then i else i + 1]
  {
    s[..j] + s[j + 1..]
  }

  lemma RemoveAtMultiset<T>(s: seq<T>, j: nat)
    requires j < |s|
    ensures multiset(s) == multiset(RemoveAt(s, j)) + multiset{s[j]}
  {
    assert s == s[..j] + ([s[j]] + s[j + 1..]);
  }

  /** Every other element is still there. */
  lemma RemoveAtKeeps<T>(s: seq<T>, j: nat, v: T)
    requires j < |s| && v in s && v != s[j]
    ensures v in RemoveAt(s, j)
  {
    var i: nat :| i < |s| && s[i] == v;
    assert RemoveAt(s, j)[if i < j then i else i - 1] == v;
  }
}
