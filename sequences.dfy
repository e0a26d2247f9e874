/** Sequence helpers shared by the local-address decoding and the text
    parsers: substring search and reversal. */
module Sequences {

  /** `s` contains `t` as a contiguous run (QByteArray/QString `contains`). */
  predicate Contains<T(==)>(s: seq<T>, t: seq<T>)
  {
    exists i :: 0 <= i <= |s| - |t| && t <= s[i..]
  }

  /** The elements of `s` in the opposite order (`std::reverse`). */
  function Reversed<T>(s: seq<T>): seq<T>
  {
    if s == [] then [] else Reversed(s[1..]) + [s[0]]
  }

  lemma {:induction false} ReversedIndex<T>(s: seq<T>, k: nat)
    requires k < |s|
    ensures |Reversed(s)| == |s|
    ensures Reversed(s)[k] == s[|s| - 1 - k]
  {
    if k < |s| - 1 {
      ReversedIndex(s[1..], k);
    } else {
      ReversedLength(s[1..]);
    }
  }

  lemma {:induction false} ReversedLength<T>(s: seq<T>)
    ensures |Reversed(s)| == |s|
  {
    if s != [] {
      ReversedLength(s[1..]);
    }
  }

  /** Reversing twice gives back the original order. */
  lemma ReversedInvolution<T>(s: seq<T>)
    ensures Reversed(Reversed(s)) == s
  {
    ReversedLength(s);
    ReversedLength(Reversed(s));
    forall k | 0 <= k < |s|
      ensures Reversed(Reversed(s))[k] == s[k]
    {
      ReversedIndex(Reversed(s), k);
      ReversedIndex(s, |s| - 1 - k);
    }
  }

  /** Swaps the two ends of `a` inward until they meet, as `std::reverse` does. */
  method ReverseInPlace<T>(a: array<T>)
    modifies a
    ensures a[..] == Reversed(old(a[..]))
  {
    var lo, hi := 0, a.Length;
    while lo + 1 < hi
      invariant 0 <= lo <= hi && lo + hi == a.Length
      invariant forall k :: 0 <= k < lo ==> a[k] == old(a[a.Length - 1 - k])
      invariant forall k :: hi <= k < a.Length ==> a[k] == old(a[a.Length - 1 - k])
      invariant forall k :: lo <= k < hi ==> a[k] == old(a[k])
    {
      a[lo], a[hi - 1] := a[hi - 1], a[lo];
      lo, hi := lo + 1, hi - 1;
    }
    ghost var before := old(a[..]);
    ReversedLength(before);
    forall k | 0 <= k < a.Length
      ensures a[..][k] == Reversed(before)[k]
    {
      ReversedIndex(before, k);
    }
  }
}
