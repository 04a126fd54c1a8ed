/**
 * Facts about sequence concatenation, slicing and indexing that the proofs
 * of the other modules call on by name, stated once for any element type.
 */
module Seqs {

  lemma ConcatAssoc<T>(a: seq<T>, b: seq<T>, c: seq<T>)
    ensures a + b + c == a + (b + c)
  {
  }

  lemma SplitAt<T>(s: seq<T>, i: int)
    requires 0 <= i <= |s|
    ensures s == s[..i] + s[i..]
  {
  }

  lemma PrefixOfAppend<T>(a: seq<T>, b: seq<T>, c: seq<T>)
    ensures a <= a + b + c
  {
    assert (a + b + c)[..|a|] == a;
  }

  /** Two prefixes `h + x` and `h + y` that disagree at position `i` of `x` and `y` cannot both start `s`. */
  lemma PrefixesDiverge<T>(h: seq<T>, x: seq<T>, y: seq<T>, s: seq<T>, i: int)
    requires 0 <= i < |x| && i < |y| && x[i] != y[i]
    requires h + x <= s
    ensures !(h + y <= s)
  {
    assert s[|h| + i] == (h + x)[|h| + i] == x[i];
    assert (h + y)[|h| + i] == y[i];
  }

  lemma ConsAt<T>(x: T, s: seq<T>)
    ensures ([x] + s)[0] == x && |[x] + s| == |s| + 1
    ensures forall j :: 1 <= j <= |s| ==> ([x] + s)[j] == s[j - 1]
  {
  }

  lemma TailAt<T>(s: seq<T>)
    requires |s| > 0
    ensures forall j :: 1 <= j < |s| ==> s[1..][j - 1] == s[j]
  {
  }
}
