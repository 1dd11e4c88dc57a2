/**
  Pieces of sequences, element by element.
 */
module Slices {
  /** Where a character stands in a string; its length if it does not. */
  function Index(s: string, c: char): (k: nat)
    ensures k <= |s|
    ensures k < |s| ==> s[k] == c
    ensures forall j :: 0 <= j < k ==> s[j] != c
  {
    if |s| == 0 || s[0] == c then 0 else 1 + Index(s[1..], c)
  }

  lemma {:induction false} IndexOfFirst(before: string, c: char, rest: string)
    requires c !in before
    ensures Index(before + [c] + rest, c) == |before|
    decreases |before|
  {
    var s := before + [c] + rest;
    if before != "" {
      assert s[0] == before[0] && before[0] in before;
      assert s[1..] == before[1..] + [c] + rest;
      IndexOfFirst(before[1..], c, rest);
    }
  }

  lemma SliceGrows<T>(s: seq<T>, i: nat, j: nat)
    requires i <= j < |s|
    ensures s[i..j + 1] == s[i..j] + [s[j]]
  {
    var a, b := s[i..j + 1], s[i..j] + [s[j]];
    forall k | 0 <= k < j + 1 - i
      ensures a[k] == b[k]
    {
      assert a[k] == s[i + k];
    }
  }

  lemma SliceOfSlice<T>(s: seq<T>, p: nat, end: nat, i: nat, j: nat)
    requires p <= end <= |s| && i <= j <= end - p
    ensures s[p..end][i..j] == s[p + i..p + j]
  {
    var a, b := s[p..end][i..j], s[p + i..p + j];
    forall k | 0 <= k < j - i
      ensures a[k] == b[k]
    {
      assert a[k] == s[p..end][i + k] == s[p + i + k];
    }
  }
}
