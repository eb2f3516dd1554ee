// Removing and inserting one element of a sequence.
module Seqs {
  function Drop<T>(s: seq<T>, i: nat): seq<T>
    requires i < |s|
  {
    s[..i] + s[i + 1..]
  }

  lemma DropElements<T>(s: seq<T>, i: nat)
    requires i < |s|
    ensures |Drop(s, i)| == |s| - 1
    ensures forall j {:trigger Drop(s, i)[j]} :: 0 <= j < |s| - 1 ==> Drop(s, i)[j] == s[if j < i then j else j + 1]
  {
  }

  lemma DropMultiset<T>(s: seq<T>, i: nat)
    requires i < |s|
    ensures multiset(Drop(s, i)) + multiset{s[i]} == multiset(s)
  {
    assert s == s[..i] + [s[i]] + s[i + 1..];
  }

  function Insert<T>(s: seq<T>, i: nat, x: T): seq<T>
    requires i <= |s|
  {
    s[..i] + [x] + s[i..]
  }

  lemma InsertElements<T>(s: seq<T>, i: nat, x: T)
    requires i <= |s|
    ensures |Insert(s, i, x)| == |s| + 1
    ensures forall j {:trigger Insert(s, i, x)[j]} :: 0 <= j < |s| + 1 ==>
      Insert(s, i, x)[j] == if j < i then s[j] else if j == i then x else s[j - 1]
  {
  }

  /** `s` without the elements from `i` up to `j`. */
  function Cut<T>(s: seq<T>, i: nat, j: nat): seq<T>
    requires i <= j <= |s|
  {
    s[..i] + s[j..]
  }

  lemma CutOneMore<T>(s: seq<T>, i: nat, j: nat)
    requires i <= j < |s|
    ensures |Cut(s, i, j)| == |s| - (j - i) && Cut(s, i, j)[i] == s[j]
    ensures j + 1 < |s| ==> Cut(s, i, j)[i + 1] == s[j + 1]
    ensures Drop(Cut(s, i, j), i) == Cut(s, i, j + 1)
  {
  }

  lemma CutNothing<T>(s: seq<T>, i: nat)
    requires i <= |s|
    ensures Cut(s, i, i) == s
  {
  }

  /** `s` with `t` in front of position `p`. */
  function Splice<T>(s: seq<T>, p: nat, t: seq<T>): seq<T>
    requires p <= |s|
  {
    s[..p] + t + s[p..]
  }

  lemma SpliceOneMore<T>(s: seq<T>, p: nat, t: seq<T>, x: T)
    requires p <= |s|
    ensures |Splice(s, p, t)| == |s| + |t|
    ensures Insert(Splice(s, p, t), p + |t|, x) == Splice(s, p, t + [x])
  {
  }

  lemma SpliceAt<T>(s: seq<T>, p: nat, t: seq<T>, k: nat)
    requires p <= |s| && k < |s|
    ensures |Splice(s, p, t)| == |s| + |t|
    ensures Splice(s, p, t)[if k < p then k else k + |t|] == s[k]
  {
  }

  lemma SpliceNothing<T>(s: seq<T>, p: nat)
    requires p <= |s|
    ensures Splice(s, p, []) == s
  {
  }

  lemma CutEnd<T>(s: seq<T>, i: nat, j: nat)
    requires i <= j <= |s|
    ensures |Cut(s, i, j)| == |s| - (j - i)
    ensures Cut(s, i, j)[..i] == s[..i]
    ensures j == |s| ==> Cut(s, i, j) == s[..i]
  {
  }

  lemma SpliceEnd<T>(s: seq<T>, p: nat, t: seq<T>)
    requires p <= |s|
    ensures |Splice(s, p, t)| == |s| + |t|
    ensures Splice(s, p, t)[..p] == s[..p]
    ensures p == |s| ==> Splice(s, p, t) == s + t
  {
  }

  /** `s` with its first `k` elements taken from `t`. */
  function Overwrite<T>(s: seq<T>, t: seq<T>, k: nat): seq<T>
    requires k <= |s| && k <= |t|
  {
    t[..k] + s[k..]
  }

  lemma OverwriteNothing<T>(s: seq<T>, t: seq<T>)
    ensures Overwrite(s, t, 0) == s
  {
  }

  lemma OverwriteOneMore<T>(s: seq<T>, t: seq<T>, k: nat)
    requires k < |s| && k < |t|
    ensures |Overwrite(s, t, k)| == |s|
    ensures Overwrite(s, t, k)[k := t[k]] == Overwrite(s, t, k + 1)
  {
  }
}
