/** Facts about splicing one element into a sequence, shared by the two insertion sorts. */
module Sequences {
  /** Indexing into a with x spliced in at position k. */
  lemma Spliced<T>(a: seq<T>, x: T, k: nat)
    requires k <= |a|
    ensures |a[..k] + [x] + a[k..]| == |a| + 1
    ensures forall i :: 0 <= i < k ==> (a[..k] + [x] + a[k..])[i] == a[i]
    ensures (a[..k] + [x] + a[k..])[k] == x
    ensures forall i :: k < i <= |a| ==> (a[..k] + [x] + a[k..])[i] == a[i - 1]
  {
  }

  /** Splicing x into the tail of s at k' is splicing it into s at k' + 1. */
  lemma ConsSplice<T>(s: seq<T>, x: T, k': nat)
    requires 0 < |s| && k' <= |s| - 1
    ensures [s[0]] + (s[1..][..k'] + [x] + s[1..][k'..]) == s[..k' + 1] + [x] + s[k' + 1..]
  {
    assert s[1..][..k'] == s[1..k' + 1];
    assert s[1..][k'..] == s[k' + 1..];
    assert s[..k' + 1] == [s[0]] + s[1..k' + 1];
  }
}
