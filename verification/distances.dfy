/** Distance matrices and the length of a walk through them, shared by the
    decoder, the TSP post-processing and the instance reader. */
module Distances {
  import opened Pairs

  /** A size x size matrix. */
  predicate SquareMatrix(m: seq<seq<int>>, size: nat) {
    |m| == size && forall i :: 0 <= i < size ==> |m[i]| == size
  }

  /** Every entry of `walk` is a row index of `dist`. */
  predicate InMatrix(dist: seq<seq<int>>, walk: seq<int>) {
    forall i :: 0 <= i < |walk| ==> 0 <= walk[i] < |dist|
  }

  predicate Symmetric(m: seq<seq<int>>)
    requires SquareMatrix(m, |m|)
  {
    forall i, j :: 0 <= i < |m| && 0 <= j < |m| ==> m[i][j] == m[j][i]
  }

  /** Sum of the edge lengths along `walk`. */
  function TourLength(dist: seq<seq<int>>, walk: seq<int>): int
    requires SquareMatrix(dist, |dist|) && InMatrix(dist, walk)
  {
    if |walk| < 2 then 0
    else TourLength(dist, walk[..|walk| - 1]) + dist[walk[|walk| - 2]][walk[|walk| - 1]]
  }

  /** The length of a walk grows edge by edge from its front too. */
  lemma {:induction false} TourLengthCons(dist: seq<seq<int>>, walk: seq<int>)
    requires SquareMatrix(dist, |dist|) && InMatrix(dist, walk)
    requires |walk| >= 2
    ensures TourLength(dist, walk) == dist[walk[0]][walk[1]] + TourLength(dist, walk[1..])
    decreases |walk|
  {
    if |walk| > 2 {
      var front := walk[..|walk| - 1];
      TourLengthCons(dist, front);
      assert front[1..] == walk[1..][..|walk[1..]| - 1];
    } else {
      assert walk[1..][..1] == walk[1..];
    }
  }

  /** On a symmetric matrix a walk and its reversal have the same length. */
  lemma {:induction false} TourLengthReverse(dist: seq<seq<int>>, walk: seq<int>)
    requires SquareMatrix(dist, |dist|) && Symmetric(dist) && InMatrix(dist, walk)
    ensures InMatrix(dist, Reverse(walk))
    ensures TourLength(dist, Reverse(walk)) == TourLength(dist, walk)
    decreases |walk|
  {
    if |walk| >= 2 {
      var tail := walk[1..];
      TourLengthReverse(dist, tail);
      var r := Reverse(walk);
      assert r == Reverse(tail) + [walk[0]];
      assert r[..|r| - 1] == Reverse(tail);
      TourLengthCons(dist, walk);
    }
  }
}
