/** Slices of a concatenation. */
module Sequences {

  lemma SliceOfPrefix<T>(x: seq<T>, y: seq<T>, i: nat, j: nat)
    requires i <= j <= |x|
    ensures (x + y)[i..j] == x[i..j]
  {
  }

  lemma Associate<T>(x: seq<T>, y: seq<T>, z: seq<T>)
    ensures (x + y) + z == x + (y + z)
  {
  }

  lemma SplitAt<T>(s: seq<T>, i: nat)
    requires i <= |s|
    ensures s[..i] + s[i..] == s
  {
  }

  lemma SliceOfSuffix<T>(x: seq<T>, y: seq<T>, i: nat, j: nat)
    requires i <= j <= |y|
    ensures (x + y)[|x| + i..|x| + j] == y[i..j]
  {
  }

  lemma SliceOfSlice<T>(all: seq<T>, at: nat, end: nat, i: nat, j: nat)
    requires at <= end <= |all| && i <= j <= end - at
    ensures all[at..end][i..j] == all[at + i..at + j]
  {
    var x, y := all[at..end][i..j], all[at + i..at + j];
    forall k | 0 <= k < j - i ensures x[k] == y[k] {
      assert x[k] == all[at..end][i + k];
    }
  }

  lemma SliceInside<T>(x: seq<T>, y: seq<T>, z: seq<T>)
    requires x + y <= z
    ensures z[|x|..|x| + |y|] == y
  {
    var rest := z[|x| + |y|..];
    assert z == (x + y) + rest;
    SliceOfPrefix(x + y, rest, |x|, |x| + |y|);
    SliceOfEnd(x, y);
  }

  lemma SliceOfEnd<T>(x: seq<T>, y: seq<T>)
    ensures (x + y)[|x|..|x| + |y|] == y
  {
  }
}
