/** Order-preserving subsequences, the shape of every JavaScript `filter`. */
module Sequences {

  /** `xs` is `ys` with some elements dropped and the rest kept in order. */
  predicate Subsequence<T(==)>(xs: seq<T>, ys: seq<T>)
    decreases |ys|
  {
    if xs == [] then true
    else if ys == [] then false
    else (xs[0] == ys[0] && Subsequence(xs[1..], ys[1..])) || Subsequence(xs, ys[1..])
  }

  /** A subsequence holds nothing its source does not. */
  lemma {:induction false} SubsequenceMembers<T>(xs: seq<T>, ys: seq<T>, x: T)
    requires Subsequence(xs, ys) && x in xs
    ensures x in ys
    decreases |ys|
  {
    if xs[0] == ys[0] && Subsequence(xs[1..], ys[1..]) {
      if x != xs[0] {
        SubsequenceMembers(xs[1..], ys[1..], x);
      }
    } else {
      SubsequenceMembers(xs, ys[1..], x);
    }
  }

  /** A subsequence is no longer than its source. */
  lemma {:induction false} SubsequenceLength<T>(xs: seq<T>, ys: seq<T>)
    requires Subsequence(xs, ys)
    ensures |xs| <= |ys|
    decreases |ys|
  {
    if xs != [] {
      if xs[0] == ys[0] && Subsequence(xs[1..], ys[1..]) {
        SubsequenceLength(xs[1..], ys[1..]);
      } else {
        SubsequenceLength(xs, ys[1..]);
      }
    }
  }
}
