/** Small facts about slicing and concatenating sequences, stated once for every element type. */
module Seqs {

  /** Dropping the last element of `a + b` drops it from `b`. */
  lemma AppendDropLast<T>(a: seq<T>, b: seq<T>)
    requires |b| > 0
    ensures (a + b)[..|a + b| - 1] == a + b[..|b| - 1]
    ensures (a + b)[|a + b| - 1] == b[|b| - 1]
  {
  }

  /** The first `i + 1` elements are the first `i` and then element `i`. */
  lemma TakeStep<T>(s: seq<T>, i: nat)
    requires i < |s|
    ensures s[..i + 1][..i] == s[..i]
    ensures s[..i + 1][i] == s[i]
    ensures |s[..i + 1]| == i + 1
  {
  }

  lemma TakeAll<T>(s: seq<T>)
    ensures s[..|s|] == s
  {
  }

  lemma DropDrop<T>(s: seq<T>, a: nat, b: nat)
    requires a + b <= |s|
    ensures s[a..][b..] == s[a + b..]
  {
  }

  lemma DropTake<T>(s: seq<T>, a: nat, m: nat)
    requires a + m <= |s|
    ensures s[a..][..m] == s[a..a + m]
  {
  }

  /** Cutting a sequence at three points and putting the four pieces back together gives it back. */
  lemma Split4<T>(s: seq<T>, a: nat, b: nat, c: nat)
    requires a + b + c <= |s|
    ensures s == s[..a] + s[a..a + b] + s[a + b..a + b + c] + s[a + b + c..]
  {
    assert s[..a + b] == s[..a] + s[a..a + b];
    assert s[..a + b + c] == s[..a + b] + s[a + b..a + b + c];
    assert s == s[..a + b + c] + s[a + b + c..];
  }

  /** Replacing the first and third of four pieces by equal ones. */
  lemma Concat4Eq<T>(s: seq<T>, a: seq<T>, b: seq<T>, c: seq<T>, e: seq<T>, a2: seq<T>, c2: seq<T>)
    requires s == a + b + c + e && a == a2 && c == c2
    ensures s == a2 + b + c2 + e
  {
  }
}
