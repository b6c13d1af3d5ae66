/** Generic facts about sequence concatenation, stated once so that proofs about strings and byte strings can cite them. */
module Seqs {

  lemma ConcatAssoc<T>(a: seq<T>, b: seq<T>, c: seq<T>)
    ensures (a + b) + c == a + (b + c)
  {
  }

  lemma ConcatEmpty<T>(a: seq<T>)
    ensures a + [] == a && [] + a == a
  {
  }

  lemma ConsParts<T>(x: T, xs: seq<T>)
    ensures ([x] + xs)[0] == x && ([x] + xs)[1..] == xs
  {
  }

  /** A short sequence is the display of its elements. */
  lemma Elements<T>(s: seq<T>)
    requires |s| <= 3
    ensures |s| == 1 ==> s == [s[0]]
    ensures |s| == 2 ==> s == [s[0], s[1]]
    ensures |s| == 3 ==> s == [s[0], s[1], s[2]]
  {
  }

  /** A sequence of at least three elements is its first three followed by the rest. */
  lemma SplitThree<T>(s: seq<T>)
    requires |s| >= 3
    ensures s == [s[0], s[1], s[2]] + s[3..]
  {
  }
}
