/** Ways of taking sequences apart. */
module Sequences {

  function ButLast<T>(s: seq<T>): seq<T>
    requires s != []
  {
    s[..|s| - 1]
  }

  function Last<T>(s: seq<T>): T
    requires s != []
  {
    s[|s| - 1]
  }

  lemma Unsnoc<T>(s: seq<T>)
    requires s != []
    ensures s == s[..|s| - 1] + [s[|s| - 1]]
  {
  }

  lemma Unsnoc2<T>(a: seq<T>, b: seq<T>)
    requires b != []
    ensures a + b == (a + b[..|b| - 1]) + [b[|b| - 1]]
  {
  }

  lemma Unsnoc3<T>(a: seq<T>, b: seq<T>, c: seq<T>)
    requires c != []
    ensures a + b + c == (a + b + c[..|c| - 1]) + [c[|c| - 1]]
  {
  }

  lemma Snoc<T>(s: seq<T>, x: T)
    ensures (s + [x])[..|s|] == s && (s + [x])[|s|] == x && |s + [x]| == |s| + 1
  {
  }

  lemma ConcatNothing<T>(a: seq<T>)
    ensures a + [] == a && [] + a == a
  {
  }

  lemma Associate<T>(a: seq<T>, b: seq<T>, c: seq<T>)
    ensures a + b + c == a + (b + c)
  {
  }

  lemma SplitAt<T>(s: seq<T>, n: nat)
    requires n <= |s|
    ensures s == s[..n] + s[n..]
  {
  }

  lemma SliceOfFirst<T>(a: seq<T>, b: seq<T>, i: nat, n: nat)
    requires i + n <= |a|
    ensures (a + b)[i..i + n] == a[i..i + n]
  {
  }

  lemma SliceOfSecond<T>(a: seq<T>, b: seq<T>, i: nat, n: nat)
    requires i + n <= |b|
    ensures (a + b)[|a| + i..|a| + i + n] == b[i..i + n]
  {
  }

  lemma CancelPrefix<T>(a: seq<T>, b: seq<T>, c: seq<T>)
    requires a + b == a + c
    ensures b == c
  {
    assert (a + b)[|a|..] == b && (a + c)[|a|..] == c;
  }

  lemma SliceOfMiddle<T>(a: seq<T>, w: seq<T>, b: seq<T>, i: nat, j: nat)
    requires i <= j <= |w|
    ensures (a + w + b)[|a| + i..|a| + j] == w[i..j]
  {
    SliceOfFirst(a + w, b, |a| + i, j - i);
    SliceOfSecond(a, w, i, j - i);
  }

  lemma PrefixUpTo<T>(a: seq<T>, w: seq<T>, b: seq<T>, i: nat)
    requires i <= |w|
    ensures (a + w + b)[..|a| + i] == a + w[..i]
  {
  }

  /** A sequence cut before and after two of its elements. */
  lemma CutAtTwo<T>(a: seq<T>, x: T, b: seq<T>, y: T, c: seq<T>, s: seq<T>)
    requires s == a + [x] + b + [y] + c
    ensures |s| == |a| + |b| + |c| + 2 && s[|a|] == x && s[|a| + 1 + |b|] == y
    ensures s[..|a|] == a && s[|a| + 1..|a| + 1 + |b|] == b && s[|a| + 1 + |b| + 1..] == c
    ensures s == (a + [x]) + b + ([y] + c) && s == (a + [x] + b + [y]) + c + []
  {
  }
}
