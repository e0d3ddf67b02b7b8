/** Generic facts about sequence slicing and concatenation. Proved once here,
    over an arbitrary element type, they are cheap to use where the context
    is large. */
module Sequences {

  /** Dropping the first element of a concatenation drops it from the left part. */
  lemma TailOfConcat<T>(a: seq<T>, b: seq<T>)
    requires |a| > 0
    ensures (a + b)[0] == a[0]
    ensures (a + b)[1..] == a[1..] + b
  {
  }

  /** Dropping the last element of a concatenation drops it from the right part. */
  lemma InitOfConcat<T>(a: seq<T>, b: seq<T>)
    requires |b| > 0
    ensures (a + b)[|a + b| - 1] == b[|b| - 1]
    ensures (a + b)[..|a + b| - 1] == a + b[..|b| - 1]
  {
  }

  /** A non-empty sequence is its front followed by its last element. */
  lemma SplitLast<T>(a: seq<T>)
    requires |a| > 0
    ensures a == a[..|a| - 1] + [a[|a| - 1]]
  {
  }

  /** A prefix of a suffix is a slice. */
  lemma PrefixOfSuffix<T>(s: seq<T>, i: nat, n: nat)
    requires i + n <= |s|
    ensures s[i..][..n] == s[i..i + n]
  {
  }

  /** The empty sequence is a unit of concatenation. */
  lemma ConcatEmpty<T>(a: seq<T>)
    ensures a + [] == a && [] + a == a
  {
  }

  /** Building a three-element sequence by prepending to the empty one. */
  lemma ConsThree<T>(x: T, y: T, z: T)
    ensures [z] + [] == [z] && [y] + [z] == [y, z] && [x] + [y, z] == [x, y, z]
  {
  }

  /** Indexing past a prepended element indexes the rest. */
  lemma IndexOfCons<T>(h: T, t: seq<T>, k: nat)
    requires 0 < k <= |t|
    ensures ([h] + t)[k] == t[k - 1]
  {
  }

  /** A concatenation starts with its left part and continues with its right part. */
  lemma SplitConcat<T>(a: seq<T>, b: seq<T>)
    ensures forall i :: 0 <= i < |a| ==> (a + b)[i] == a[i]
    ensures (a + b)[|a|..] == b
  {
  }
}
