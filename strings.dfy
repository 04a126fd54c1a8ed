/**
 * The few functions of Go's `strings` package that the backup and restore
 * tools use, over `string` (a sequence of characters):
 * Index (single character and substring), Contains, Split (single-character
 * separator), Join and Replace with a count of 1.
 */
module Strings {

  /** strings.Index(s, string(c)): the position of the first `c` in `s`, or -1. */
  function IndexOf(s: string, c: char): (i: int)
    ensures -1 <= i < |s|
    ensures i == -1 <==> c !in s
    ensures 0 <= i ==> s[i] == c && c !in s[..i]
  {
    if |s| == 0 then -1
    else if s[0] == c then 0
    else
      var j := IndexOf(s[1..], c);
      assert s == [s[0]] + s[1..];
      if j == -1 then -1
      else
        assert s[..j + 1] == [s[0]] + s[1..][..j];
        j + 1
  }

  /** `pat` occurs in `s` starting at position `k`. */
  predicate OccursAt(s: string, pat: string, k: int)
  {
    0 <= k <= |s| - |pat| && s[k..k + |pat|] == pat
  }

  /** strings.Contains(s, pat): `pat` occurs somewhere in `s`. */
  predicate Contains(s: string, pat: string)
  {
    exists k | 0 <= k <= |s| - |pat| :: OccursAt(s, pat, k)
  }

  /** Dropping the first character shifts every later occurrence one place left. */
  lemma OccursAtTail(s: string, pat: string, k: int)
    requires 1 <= k && |s| > 0
    ensures OccursAt(s, pat, k) <==> OccursAt(s[1..], pat, k - 1)
  {
    if k <= |s| - |pat| {
      var here, there := s[k..k + |pat|], s[1..][k - 1..k - 1 + |pat|];
      forall t | 0 <= t < |pat| ensures here[t] == there[t] {
        assert s[1..][k - 1 + t] == s[k + t];
      }
      assert here == there;
    }
  }

  /** strings.Index(s, pat): the position of the first occurrence of `pat`, or -1. */
  function Find(s: string, pat: string): (i: int)
    ensures i == -1 || 0 <= i <= |s| - |pat|
    ensures i == -1 <==> !Contains(s, pat)
    ensures 0 <= i ==> OccursAt(s, pat, i)
    ensures 0 <= i ==> forall k :: 0 <= k < i ==> !OccursAt(s, pat, k)
  {
    if pat <= s then
      assert OccursAt(s, pat, 0);
      0
    else if |s| <= |pat| then
      assert !OccursAt(s, pat, 0);
      -1
    else
      var j := Find(s[1..], pat);
      assert !OccursAt(s, pat, 0);
      assert forall k :: 1 <= k ==> (OccursAt(s, pat, k) <==> OccursAt(s[1..], pat, k - 1)) by {
        forall k | 1 <= k {
          OccursAtTail(s, pat, k);
        }
      }
      if j == -1 then
        assert forall k :: 0 <= k <= |s| - |pat| ==> !OccursAt(s, pat, k) by {
          forall k | 1 <= k <= |s| - |pat| ensures !OccursAt(s, pat, k) {
            assert !OccursAt(s[1..], pat, k - 1);
          }
        }
        -1
      else
        OccursAtTail(s, pat, j + 1);
        assert OccursAt(s, pat, j + 1);
        assert forall k :: 0 <= k < j + 1 ==> !OccursAt(s, pat, k) by {
          forall k | 1 <= k < j + 1 ensures !OccursAt(s, pat, k) {
            assert !OccursAt(s[1..], pat, k - 1);
          }
        }
        j + 1
  }

  /** strings.Replace(s, pat, rep, 1): the first occurrence of `pat` replaced by `rep`. */
  function ReplaceFirst(s: string, pat: string, rep: string): string
  {
    var i := Find(s, pat);
    if i == -1 then s else s[..i] + rep + s[i + |pat|..]
  }

  /** strings.Split(s, string(sep)): the pieces between the occurrences of `sep`. */
  function Split(s: string, sep: char): (parts: seq<string>)
    ensures |parts| >= 1
    ensures forall k :: 0 <= k < |parts| ==> sep !in parts[k]
    decreases |s|
  {
    var i := IndexOf(s, sep);
    if i == -1 then [s] else [s[..i]] + Split(s[i + 1..], sep)
  }

  /** strings.Join(parts, string(sep)). */
  function Join(parts: seq<string>, sep: char): string
  {
    if |parts| == 0 then ""
    else if |parts| == 1 then parts[0]
    else parts[0] + [sep] + Join(parts[1..], sep)
  }

  /** The first `sep` of `a + [sep] + b` is the one after `a` when `a` holds none. */
  lemma {:induction false} IndexOfAfter(a: string, sep: char, b: string)
    requires sep !in a
    ensures IndexOf(a + [sep] + b, sep) == |a|
  {
    if |a| > 0 {
      assert (a + [sep] + b)[1..] == a[1..] + [sep] + b;
      IndexOfAfter(a[1..], sep, b);
    }
  }

  /** A position holding `c` with no `c` before it is the one IndexOf reports. */
  lemma {:induction false} IndexOfIs(s: string, c: char, k: int)
    requires 0 <= k < |s| && s[k] == c && c !in s[..k]
    ensures IndexOf(s, c) == k
  {
    if k > 0 {
      assert s[0] == s[..k][0];
      assert s[1..][..k - 1] == s[..k][1..];
      IndexOfIs(s[1..], c, k - 1);
    }
  }

  /** Counting `sep` across its first occurrence, at `i`. */
  lemma CountAround(s: string, sep: char, i: int)
    requires 0 <= i < |s| && s[i] == sep && sep !in s[..i]
    ensures multiset(s)[sep] == multiset(s[i + 1..])[sep] + 1
  {
    assert s == s[..i] + [sep] + s[i + 1..];
    assert multiset(s) == multiset(s[..i]) + multiset{sep} + multiset(s[i + 1..]);
    assert sep !in multiset(s[..i]);
  }

  /** A split has one more piece than the string has separators. */
  lemma {:induction false} SplitLength(s: string, sep: char)
    ensures |Split(s, sep)| == multiset(s)[sep] + 1
    decreases |s|
  {
    var i := IndexOf(s, sep);
    if i == -1 {
      assert sep !in multiset(s);
    } else {
      assert |Split(s, sep)| == 1 + |Split(s[i + 1..], sep)|;
      SplitLength(s[i + 1..], sep);
      CountAround(s, sep, i);
    }
  }

  /** Joining the pieces of a split gives the string back. */
  lemma {:induction false} JoinSplit(s: string, sep: char)
    ensures Join(Split(s, sep), sep) == s
    decreases |s|
  {
    var i := IndexOf(s, sep);
    if i != -1 {
      var rest := Split(s[i + 1..], sep);
      JoinSplit(s[i + 1..], sep);
      assert Split(s, sep) == [s[..i]] + rest;
      assert ([s[..i]] + rest)[1..] == rest;
      assert Join(Split(s, sep), sep) == s[..i] + [sep] + Join(rest, sep);
      assert s == s[..i] + [sep] + s[i + 1..];
    }
  }

  /** Splitting at a first separator that follows a separator-free head. */
  lemma SplitAfter(head: string, sep: char, rest: string)
    requires sep !in head
    ensures Split(head + [sep] + rest, sep) == [head] + Split(rest, sep)
  {
    var s := head + [sep] + rest;
    IndexOfAfter(head, sep, rest);
    assert s[..|head|] == head;
    assert s[|head| + 1..] == rest;
  }

  /** Splitting a join of separator-free pieces gives the pieces back. */
  lemma {:induction false} SplitJoin(parts: seq<string>, sep: char)
    requires |parts| >= 1
    requires forall k :: 0 <= k < |parts| ==> sep !in parts[k]
    ensures Split(Join(parts, sep), sep) == parts
  {
    if |parts| == 1 {
      assert sep !in parts[0];
    } else {
      var tail := parts[1..];
      assert sep !in parts[0];
      SplitAfter(parts[0], sep, Join(tail, sep));
      SplitJoin(tail, sep);
      assert parts == [parts[0]] + tail;
    }
  }

  /** An occurrence in `b` is an occurrence in `a + b`. */
  lemma ContainsInSuffix(a: string, b: string, pat: string)
    requires Contains(b, pat)
    ensures Contains(a + b, pat)
  {
    var k :| 0 <= k <= |b| - |pat| && OccursAt(b, pat, k);
    assert (a + b)[|a| + k..|a| + k + |pat|] == pat;
    assert OccursAt(a + b, pat, |a| + k);
  }

  /** An occurrence in `a + b` starting at or after `|a|` is an occurrence in `b`. */
  lemma ContainsFromSuffix(a: string, b: string, pat: string, k: int)
    requires |a| <= k
    requires OccursAt(a + b, pat, k)
    ensures Contains(b, pat)
  {
    assert b[k - |a|..k - |a| + |pat|] == (a + b)[k..k + |pat|];
    assert OccursAt(b, pat, k - |a|);
  }

  /** A delimited match at the very start of `sep + a + sep + z` is the item `a`. */
  lemma StartMatch(a: string, z: string, t: string, sep: char)
    requires sep !in a && sep !in t
    requires OccursAt([sep] + a + [sep] + z, [sep] + t + [sep], 0)
    ensures t == a
  {
    var w := [sep] + a + [sep] + z;
    var p := [sep] + t + [sep];
    assert w[0..|p|] == p;
    assert w[1..|t| + 1] == t;
    assert w[1..|a| + 1] == a;
    assert forall j :: 1 <= j <= |a| ==> w[j] == a[j - 1];
    assert forall j :: 1 <= j <= |t| ==> w[j] == t[j - 1];
    assert w[|t| + 1] == p[|t| + 1] == sep;
    assert w[|a| + 1] == sep;
  }

  /** A delimited match inside `sep + a + z` other than at the start begins after `a`. */
  lemma InteriorStart(a: string, z: string, t: string, sep: char, k: int)
    requires sep !in a
    requires 0 < k && OccursAt([sep] + a + z, [sep] + t + [sep], k)
    ensures |a| < k
  {
    var w := [sep] + a + z;
    var p := [sep] + t + [sep];
    assert w[k] == w[k..k + |p|][0] == p[0] == sep;
    assert forall j :: 1 <= j <= |a| ==> w[j] == a[j - 1];
  }

  /**
   * `sep + t + sep` occurs in `sep + list + sep` exactly when `t` is one of the
   * `sep`-separated items of `list` (for a `t` that holds no separator).
   */
  lemma {:induction false} DelimitedContains(list: string, t: string, sep: char)
    requires sep !in t
    ensures Contains([sep] + list + [sep], [sep] + t + [sep]) <==> t in Split(list, sep)
    decreases |list|
  {
    var w := [sep] + list + [sep];
    var p := [sep] + t + [sep];
    var i := IndexOf(list, sep);
    if i == -1 {
      assert Split(list, sep) == [list];
      if t == list {
        assert OccursAt(w, p, 0);
      }
      if Contains(w, p) {
        var k :| 0 <= k <= |w| - |p| && OccursAt(w, p, k);
        assert w == [sep] + list + [sep] + [];
        if 0 < k {
          InteriorStart(list, [sep], t, sep, k);
        } else {
          StartMatch(list, [], t, sep);
        }
      }
    } else {
      var a := list[..i];
      var rest := list[i + 1..];
      var wr := [sep] + rest + [sep];
      assert list == a + [sep] + rest;
      assert w == ([sep] + a) + wr;
      assert w == [sep] + a + [sep] + (rest + [sep]);
      assert Split(list, sep) == [a] + Split(rest, sep);
      DelimitedContains(rest, t, sep);
      if t == a {
        assert OccursAt(w, p, 0);
      } else if t in Split(rest, sep) {
        ContainsInSuffix([sep] + a, wr, p);
      }
      if Contains(w, p) {
        var k :| 0 <= k <= |w| - |p| && OccursAt(w, p, k);
        if 0 < k {
          InteriorStart(a, wr, t, sep, k);
          ContainsFromSuffix([sep] + a, wr, p, k);
        } else {
          StartMatch(a, rest + [sep], t, sep);
        }
      }
    }
  }
}
