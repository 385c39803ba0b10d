/**
 * Small facts about sequences of any element type, used by the inductive
 * proofs of the other modules.
 */
module Seqs {
  /** A non-empty sequence is its head in front of its tail. */
  lemma Recons<T>(s: seq<T>)
    requires |s| > 0
    ensures s == [s[0]] + s[1..]
  {
  }

  /** A non-empty sequence is its front followed by its last entry. */
  lemma ButLast<T>(s: seq<T>)
    requires |s| > 0
    ensures s == s[..|s| - 1] + [s[|s| - 1]]
  {
  }

  /** Head and tail of a concatenation with a non-empty left part. */
  lemma TailOfConcat<T>(xs: seq<T>, ys: seq<T>)
    requires |xs| > 0
    ensures (xs + ys)[0] == xs[0] && (xs + ys)[1..] == xs[1..] + ys
  {
  }

  lemma Assoc<T>(a: seq<T>, b: seq<T>, c: seq<T>)
    ensures a + (b + c) == (a + b) + c
  {
  }
}
