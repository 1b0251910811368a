/** Small facts about sequences that the scanning proofs cite by name. */
module Seqs {
  /** The prefix of a sequence's full length is the sequence. */
  lemma TakeAll<T>(s: seq<T>)
    ensures s[..|s|] == s
  {
  }

  /** A nonempty sequence is its initial part followed by its last element. */
  lemma SplitLast<T>(s: seq<T>)
    requires s != []
    ensures s == s[..|s| - 1] + [s[|s| - 1]]
  {
  }

  /** Dropping an appended element gives the sequence back. */
  lemma SnocInit<T>(s: seq<T>, x: T)
    ensures (s + [x])[..|s|] == s
  {
  }

  /** Appending one element is associative with concatenation. */
  lemma AppendSnoc<T>(a: seq<T>, b: seq<T>, x: T)
    ensures a + (b + [x]) == (a + b) + [x]
  {
  }

  /** A prefix of a prefix. */
  lemma TakeOfTake<T>(s: seq<T>, j: int)
    requires 0 <= j < |s|
    ensures s[..j + 1][..j] == s[..j]
  {
  }

  /** A sequence is its prefix of length `i` followed by the rest. */
  lemma TakeDrop<T>(s: seq<T>, i: int)
    requires 0 <= i <= |s|
    ensures s == s[..i] + s[i..]
  {
  }

  /** A nonempty prefix is the shorter prefix followed by one element. */
  lemma TakeSnoc<T>(s: seq<T>, i: int)
    requires 0 < i <= |s|
    ensures s[..i] == s[..i - 1] + [s[i - 1]]
  {
  }
}
