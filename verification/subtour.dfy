/** The subtour search run on every integer solution of the TSP model
    (`Subtourelim::findsubtour`, src/tsp_solver.h) together with the lazy
    cuts built from it and the post-processing of the optimal tour in
    `TSPSolver::solve`. The LP solution is a matrix of reals; an edge is
    used when its value exceeds 0.5. */
module Subtour {
  import opened Wrappers
  import opened Pairs
  import opened Distances

  // ---------------------------------------------------------------------
  // Nodes, marks and counting
  // ---------------------------------------------------------------------

  predicate Distinct(s: seq<int>) {
    forall i, j :: 0 <= i < j < |s| ==> s[i] != s[j]
  }

  predicate Nodes(s: seq<int>, n: nat) {
    forall i :: 0 <= i < |s| ==> 0 <= s[i] < n
  }

  /** The `seen` flags mark exactly the nodes written to `tour[..upTo]`,
      and those are distinct nodes. */
  predicate Marks(seen: seq<bool>, tour: seq<int>, upTo: nat, n: nat)
    requires |seen| == n && upTo <= |tour|
  {
    && Distinct(tour[..upTo])
    && Nodes(tour[..upTo], n)
    && forall v :: 0 <= v < n ==> (seen[v] <==> v in tour[..upTo])
  }

  predicate SquareReal(sol: seq<seq<real>>, n: nat) {
    |sol| == n && forall i :: 0 <= i < n ==> |sol[i]| == n
  }

  /** The solution uses the edge a-b. */
  predicate Used(sol: seq<seq<real>>, a: int, b: int)
    requires 0 <= a < |sol| && 0 <= b < |sol[a]|
  {
    sol[a][b] > 0.5
  }

  lemma {:induction false} DistinctCard(s: seq<int>)
    requires Distinct(s)
    ensures |set x | x in s| == |s|
    decreases |s|
  {
    if s != [] {
      var front := s[..|s| - 1];
      DistinctCard(front);
      assert (set x | x in s) == (set x | x in front) + {s[|s| - 1]};
      assert s[|s| - 1] !in front;
    }
  }

  /** The nodes 0..n-1 as a set. */
  lemma AllNodes(n: nat)
    ensures Distinct(Range(0, n))
    ensures forall v :: v in Range(0, n) <==> 0 <= v < n
  {
    forall v | 0 <= v < n
      ensures v in Range(0, n)
    {
      assert Range(0, n)[v] == v;
    }
  }

  /** Pigeonhole: distinct nodes number at most n, and exactly n when they
      cover every node. */
  lemma NodeCount(s: seq<int>, n: nat)
    requires Distinct(s) && Nodes(s, n)
    ensures |s| <= n
    ensures (forall v :: 0 <= v < n ==> v in s) ==> |s| == n
    ensures |s| == n ==> forall v :: 0 <= v < n ==> v in s
  {
    var a := set x | x in s;
    var r := set x | x in Range(0, n);
    DistinctCard(s);
    AllNodes(n);
    DistinctCard(Range(0, n));
    assert a <= r;
    assert r == a + (r - a);
    if forall v :: 0 <= v < n ==> v in s {
      assert a == r;
    }
    if |s| == n {
      assert r - a == {};
      forall v | 0 <= v < n
        ensures v in s
      {
        assert v in r;
      }
    }
  }

  /** A node that is not yet marked leaves room for one more. */
  lemma RoomForOne(seen: seq<bool>, tour: seq<int>, upTo: nat, n: nat, node: int)
    requires |seen| == n && upTo <= |tour|
    requires Marks(seen, tour, upTo, n)
    requires 0 <= node < n && !seen[node]
    ensures upTo < n
  {
    var p := tour[..upTo] + [node];
    assert Distinct(p);
    NodeCount(p, n);
  }

  /** Writing an unmarked node at position upTo and marking it. */
  lemma MarkOne(seen: seq<bool>, tour: seq<int>, upTo: nat, n: nat, node: int)
    requires |seen| == n && upTo < |tour|
    requires Marks(seen, tour, upTo, n)
    requires 0 <= node < n && !seen[node]
    ensures tour[upTo := node][..upTo + 1] == tour[..upTo] + [node]
    ensures Marks(seen[node := true], tour[upTo := node], upTo + 1, n)
  {
    var t := tour[upTo := node];
    assert t[..upTo + 1] == tour[..upTo] + [node];
    assert t[..upTo] == tour[..upTo];
  }

  // ---------------------------------------------------------------------
  // The search
  // ---------------------------------------------------------------------

  /** Lines 44-47: the lowest unmarked node, or n when all are marked. */
  method FirstUnseen(seen: seq<bool>) returns (node: nat)
    ensures node <= |seen|
    ensures node < |seen| ==> !seen[node]
    ensures forall v :: 0 <= v < node ==> seen[v]
  {
    node := 0;
    while node < |seen| && seen[node]
      invariant node <= |seen|
      invariant forall v :: 0 <= v < node ==> seen[v]
    {
      node := node + 1;
    }
  }

  /** Lines 52-57: the lowest unmarked node joined to `node`, or n. */
  method NextUnseen(sol: seq<seq<real>>, seen: seq<bool>, node: nat) returns (i: nat)
    requires SquareReal(sol, |seen|) && node < |seen|
    ensures i <= |seen|
    ensures i < |seen| ==> Used(sol, node, i) && !seen[i]
    ensures forall v :: 0 <= v < i ==> !(Used(sol, node, v) && !seen[v])
  {
    i := 0;
    while i < |seen| && !(sol[node][i] > 0.5 && !seen[i])
      invariant i <= |seen|
      invariant forall v :: 0 <= v < i ==> !(Used(sol, node, v) && !seen[v])
    {
      i := i + 1;
    }
  }

  /** Lines 49-67: walk from `node` along used edges to unmarked nodes,
      writing the walk from position `start`, until no unmarked neighbour
      is left. The source's bound `len < n` always holds: every step
      marks a new node. */
  method WalkComponent(n: nat, sol: seq<seq<real>>, seen: seq<bool>, tour: seq<int>,
                       start: nat, node: nat)
    returns (marked: seq<bool>, written: seq<int>, len: nat)
    requires SquareReal(sol, n) && |seen| == n && |tour| == n && start <= n
    requires Marks(seen, tour, start, n)
    requires node < n && !seen[node]
    ensures |marked| == n && |written| == n
    ensures 1 <= len && start + len <= n
    ensures Marks(marked, written, start + len, n)
    ensures written[..start] == tour[..start] && written[start] == node
    ensures Walk(sol, written[..start + len], start, len, n)
  {
    marked, written, len := seen, tour, 0;
    var current: nat := node;
    RoomForOne(marked, written, start, n, current);
    while true
      invariant Walking(sol, tour, marked, written, start, len, node, current, n)
      decreases n - start - len
    {
      var marked', written' := marked[current := true], written[start + len := current];
      var i := NextUnseen(sol, marked', current);
      if i == n {
        Stop(sol, tour, marked, written, start, len, node, current, n);
        marked, written, len := marked', written', len + 1;
        break;
      }
      Advance(sol, tour, marked, written, start, len, node, current, n, i);
      marked, written, current, len := marked', written', i, len + 1;
    }
  }

  /** The state of the walk before `current` is written at position
      start + len: the walk so far follows the least unwritten neighbours,
      and `current` is the least one of the last node written. */
  predicate Walking(sol: seq<seq<real>>, tour: seq<int>, marked: seq<bool>, written: seq<int>,
                    start: nat, len: nat, node: nat, current: nat, n: nat)
  {
    && SquareReal(sol, n) && |tour| == n
    && |marked| == n && |written| == n && start + len < n && current < n
    && !marked[current] && Marks(marked, written, start + len, n)
    && written[..start] == tour[..start]
    && (len > 0 ==> written[start] == node)
    && (len == 0 ==> current == node)
    && (forall k :: start <= k < start + len - 1 ==> Follows(sol, written, k, n))
    && (len > 0 ==> Least(sol, written, start + len - 1, current, n))
  }

  /** The walk writes `current` and goes on to `i`, the least unmarked
      node joined to it. */
  lemma Advance(sol: seq<seq<real>>, tour: seq<int>, marked: seq<bool>, written: seq<int>,
                start: nat, len: nat, node: nat, current: nat, n: nat, i: nat)
    requires Walking(sol, tour, marked, written, start, len, node, current, n)
    requires i < n && Used(sol, current, i) && !marked[current := true][i]
    requires forall v :: 0 <= v < i ==> !(Used(sol, current, v) && !marked[current := true][v])
    ensures Walking(sol, tour, marked[current := true], written[start + len := current],
                    start, len + 1, node, i, n)
  {
    WriteStep(sol, tour, marked, written, start, len, node, current, n);
    var marked', written' := marked[current := true], written[start + len := current];
    WalkGoesOn(sol, marked', written', start + len, n, i);
    RoomForOne(marked', written', start + len + 1, n, i);
  }

  /** The walk writes `current` and stops: no unmarked node is joined to
      it. */
  lemma Stop(sol: seq<seq<real>>, tour: seq<int>, marked: seq<bool>, written: seq<int>,
             start: nat, len: nat, node: nat, current: nat, n: nat)
    requires Walking(sol, tour, marked, written, start, len, node, current, n)
    requires forall v :: 0 <= v < n ==> !(Used(sol, current, v) && !marked[current := true][v])
    ensures var marked', written' := marked[current := true], written[start + len := current];
      && Marks(marked', written', start + len + 1, n)
      && written'[..start] == tour[..start] && written'[start] == node
      && Walk(sol, written'[..start + len + 1], start, len + 1, n)
  {
    WriteStep(sol, tour, marked, written, start, len, node, current, n);
    var marked', written' := marked[current := true], written[start + len := current];
    WalkStops(sol, marked', written', start + len, n);
    WalkPrefix(sol, written', start, len + 1, n);
  }

  /** One step of the walk: writing `current` at position start + len and
      marking it keeps the walk's invariants one position further on. */
  lemma WriteStep(sol: seq<seq<real>>, tour: seq<int>, marked: seq<bool>, written: seq<int>,
                  start: nat, len: nat, node: nat, current: nat, n: nat)
    requires SquareReal(sol, n) && |tour| == n
    requires |marked| == n && |written| == n && start + len < n && current < n
    requires !marked[current] && Marks(marked, written, start + len, n)
    requires written[..start] == tour[..start]
    requires len > 0 ==> written[start] == node
    requires len == 0 ==> current == node
    requires forall k :: start <= k < start + len - 1 ==> Follows(sol, written, k, n)
    requires len > 0 ==> Least(sol, written, start + len - 1, current, n)
    ensures var w := written[start + len := current];
      && Marks(marked[current := true], w, start + len + 1, n)
      && w[..start] == tour[..start]
      && w[start] == node
      && (forall k :: start <= k < start + len ==> Follows(sol, w, k, n))
  {
    MarkOne(marked, written, start + len, n, current);
    var w := written[start + len := current];
    assert forall k :: 0 <= k < start + len ==> w[k] == written[k];
    assert w[..start] == written[..start];
    forall k | start <= k < start + len
      ensures Follows(sol, w, k, n)
    {
      assert w[..k + 1] == written[..k + 1];
      if k < start + len - 1 {
        assert Follows(sol, written, k, n);
      } else {
        assert Least(sol, written, k, current, n);
      }
    }
  }

  /** The walk goes on to `i`, the least unmarked node joined to the node
      just written at position k. */
  lemma WalkGoesOn(sol: seq<seq<real>>, marked: seq<bool>, written: seq<int>, k: nat, n: nat, i: nat)
    requires SquareReal(sol, n) && |marked| == n && |written| == n && k < n
    requires Marks(marked, written, k + 1, n)
    requires i < n && Used(sol, written[k], i) && !marked[i]
    requires forall v :: 0 <= v < i ==> !(Used(sol, written[k], v) && !marked[v])
    ensures Least(sol, written, k, i, n)
  {
  }

  /** The walk read in the prefix written so far. */
  lemma WalkPrefix(sol: seq<seq<real>>, written: seq<int>, start: nat, len: nat, n: nat)
    requires SquareReal(sol, n) && |written| == n && 1 <= len && start + len <= n
    requires Nodes(written[..start + len], n)
    requires forall k :: start <= k < start + len - 1 ==> Follows(sol, written, k, n)
    requires Closed(sol, written, start + len, n)
    ensures Walk(sol, written[..start + len], start, len, n)
  {
    var w := written[..start + len];
    forall k | start <= k < start + len - 1
      ensures Follows(sol, w, k, n)
    {
      assert w[..k + 1] == written[..k + 1];
      assert Follows(sol, written, k, n);
    }
    assert w[..start + len] == written[..start + len];
  }

  /** A walk of the search goes along used edges. */
  lemma WalkUsed(sol: seq<seq<real>>, written: seq<int>, start: nat, len: nat, n: nat)
    requires SquareReal(sol, n) && |written| == n && start + len <= n
    requires Nodes(written[..start + len], n)
    requires Walk(sol, written[..start + len], start, len, n)
    ensures forall k :: start <= k < start + len - 1 ==> Used(sol, written[k], written[k + 1])
  {
    var w := written[..start + len];
    forall k | start <= k < start + len - 1
      ensures Used(sol, written[k], written[k + 1])
    {
      assert Follows(sol, w, k, n);
    }
  }

  /** The walk stops at position k: every node joined to it is marked. */
  lemma WalkStops(sol: seq<seq<real>>, marked: seq<bool>, written: seq<int>, k: nat, n: nat)
    requires SquareReal(sol, n) && |marked| == n && |written| == n && k < n
    requires Marks(marked, written, k + 1, n)
    requires forall v :: 0 <= v < n ==> !(Used(sol, written[k], v) && !marked[v])
    ensures Closed(sol, written, k + 1, n)
  {
  }

  /** Sum of component lengths. */
  function Sum(s: seq<nat>): nat {
    if s == [] then 0 else Sum(s[..|s| - 1]) + s[|s| - 1]
  }

  lemma SumSnoc(s: seq<nat>, x: nat)
    ensures Sum(s + [x]) == Sum(s) + x
  {
    assert (s + [x])[..|s|] == s;
  }

  // ---------------------------------------------------------------------
  // The components the search writes
  // ---------------------------------------------------------------------

  /** `node` is the least node joined to `w[k]` and not in `w[..k + 1]`
      (lines 52-57), as far as the nodes below it go. */
  predicate Least(sol: seq<seq<real>>, w: seq<int>, k: nat, node: int, n: nat)
    requires SquareReal(sol, n) && k < |w| && 0 <= w[k] < n
  {
    && 0 <= node < n && Used(sol, w[k], node)
    && forall v :: 0 <= v < node && Used(sol, w[k], v) ==> v in w[..k + 1]
  }

  /** The walk steps from `w[k]` to the least node joined to it that is
      not yet written. */
  predicate Follows(sol: seq<seq<real>>, w: seq<int>, k: nat, n: nat)
    requires SquareReal(sol, n) && k + 1 < |w| && 0 <= w[k] < n
  {
    Least(sol, w, k, w[k + 1], n)
  }

  /** The walk ending at position e - 1 stops there: every node joined to
      `w[e - 1]` is already in `w[..e]` (line 58). */
  predicate Closed(sol: seq<seq<real>>, w: seq<int>, e: nat, n: nat)
    requires SquareReal(sol, n) && 1 <= e <= |w| && 0 <= w[e - 1] < n
  {
    forall v :: 0 <= v < n && Used(sol, w[e - 1], v) ==> v in w[..e]
  }

  /** The walk starting at position s starts at the least node not in
      `w[..s]` (lines 44-47). */
  predicate Opens(w: seq<int>, s: nat)
    requires s < |w|
  {
    forall v :: 0 <= v < w[s] ==> v in w[..s]
  }

  /** Positions s..s+len-1 of `w` are one walk along used edges: every
      step goes to the least unwritten neighbour and the walk stops where
      no unwritten neighbour is left. */
  predicate Walk(sol: seq<seq<real>>, w: seq<int>, s: nat, len: nat, n: nat)
    requires SquareReal(sol, n) && Nodes(w, n)
  {
    && 1 <= len && s + len <= |w|
    && (forall k :: s <= k < s + len - 1 ==> Follows(sol, w, k, n))
    && Closed(sol, w, s + len, n)
  }

  /** Positions s..s+len-1 of `w` are one walk of the search, opened at
      the least unwritten node. */
  predicate Segment(sol: seq<seq<real>>, w: seq<int>, s: nat, len: nat, n: nat)
    requires SquareReal(sol, n) && Nodes(w, n)
  {
    s < |w| && Opens(w, s) && Walk(sol, w, s, len, n)
  }

  /** `w` is the concatenation of walks of the search with lengths `lens`:
      segment j, read in the prefix of `w` that ends with it, opens at the
      least node missing from the earlier segments, follows the least
      unwritten neighbours and stops where none is left. */
  predicate Components(sol: seq<seq<real>>, w: seq<int>, lens: seq<nat>, n: nat)
    requires SquareReal(sol, n) && Nodes(w, n)
    decreases |lens|
  {
    if lens == [] then w == []
    else
      var s := |w| - lens[|lens| - 1];
      && 0 <= s
      && Components(sol, w[..s], lens[..|lens| - 1], n)
      && Segment(sol, w, s, lens[|lens| - 1], n)
  }

  /** Components found so far have lengths `lens` and fill `tour[..start]`;
      the best is the first of least length and is a walk along used edges. */
  predicate BestSoFar(sol: seq<seq<real>>, tour: seq<int>, lens: seq<nat>, start: nat,
                      b: nat, bestlen: int, bestind: int, n: nat)
    requires SquareReal(sol, n) && |tour| == n && start <= n && Nodes(tour[..start], n)
  {
    && Sum(lens) == start
    && (forall j :: 0 <= j < |lens| ==> lens[j] >= 1)
    && (lens == [] ==> bestlen == n + 1)
    && (lens != [] ==>
          && b < |lens| && bestlen == lens[b] && bestind == Sum(lens[..b])
          && bestind + bestlen <= start
          && (forall j :: 0 <= j < |lens| ==> bestlen <= lens[j])
          && (forall j :: 0 <= j < b ==> lens[j] > bestlen)
          && (forall k :: bestind <= k < bestind + bestlen - 1 ==>
                Used(sol, tour[..start][k], tour[..start][k + 1])))
  }

  /** Recording one more component of length len starting at `start`. */
  lemma RecordComponent(sol: seq<seq<real>>, tour: seq<int>, written: seq<int>, lens: seq<nat>,
                        start: nat, len: nat, b: nat, bestlen: int, bestind: int, n: nat)
    requires SquareReal(sol, n) && |tour| == n && |written| == n && start + len <= n && len >= 1
    requires Nodes(tour[..start], n) && Nodes(written[..start + len], n)
    requires written[..start] == tour[..start]
    requires BestSoFar(sol, tour, lens, start, b, bestlen, bestind, n)
    requires forall k :: start <= k < start + len - 1 ==> Used(sol, written[k], written[k + 1])
    ensures len < bestlen ==>
      BestSoFar(sol, written, lens + [len], start + len, |lens|, len, start, n)
    ensures len >= bestlen ==>
      BestSoFar(sol, written, lens + [len], start + len, b, bestlen, bestind, n)
  {
    SumSnoc(lens, len);
    var lens' := lens + [len];
    assert lens'[..|lens|] == lens;
    var t := written[..start + len];
    assert forall k :: 0 <= k < start ==> t[k] == tour[..start][k];
    if len >= bestlen {
      assert lens != [];
      assert lens'[..b] == lens[..b];
    }
  }

  /** Before the search nothing is marked. */
  lemma NoMarks(n: nat, tour: seq<int>)
    requires |tour| == n
    ensures Marks(seq(n, _ => false), tour, 0, n)
  {
  }

  /** With nothing written, nothing is marked. */
  lemma StartUnmarked(seen: seq<bool>, tour: seq<int>, n: nat)
    requires |seen| == n && |tour| == n
    requires Marks(seen, tour, 0, n)
    ensures forall v :: 0 <= v < n ==> !seen[v]
  {
  }

  /** Lines 37-68: the components, one after another, until every node is
      written; `bestlen` and `bestind` are the length and position of the
      first shortest one. */
  method Search(n: nat, sol: seq<seq<real>>)
    returns (walk: seq<int>, bestlen: nat, bestind: nat, ghost lens: seq<nat>, ghost b: nat)
    requires n >= 1 && SquareReal(sol, n)
    ensures |walk| == n && Marks(seq(n, _ => true), walk, n, n)
    ensures walk[0] == 0
    ensures BestSoFar(sol, walk, lens, n, b, bestlen, bestind, n)
    ensures Components(sol, walk, lens, n)
  {
    var seen := seq(n, _ => false);
    walk := seq(n, _ => 0);
    NoMarks(n, walk);
    var start := 0;
    bestlen, bestind := n + 1, 0;
    lens, b := [], 0;
    while start < n
      invariant Searching(sol, seen, walk, start, lens, b, bestlen, bestind, n)
      decreases n - start
    {
      var node := FirstUnseen(seen);
      if node == n {
        NodeCount(walk[..start], n);
        break;
      }
      seen, walk, start, bestlen, bestind, lens, b := SearchStep(n, sol, seen, walk, start, node, bestlen, bestind, lens, b);
    }
    AllMarked(seen, walk, n);
    assert walk[..n] == walk;
  }

  /** The state of the search after the components `lens` have been
      written to `walk[..start]` and marked in `seen`: the first shortest
      one is component `b`, at `bestind`, of length `bestlen`. */
  predicate Searching(sol: seq<seq<real>>, seen: seq<bool>, walk: seq<int>, start: nat,
                      lens: seq<nat>, b: nat, bestlen: int, bestind: int, n: nat)
  {
    && SquareReal(sol, n) && |seen| == n && |walk| == n && start <= n
    && Marks(seen, walk, start, n)
    && (start > 0 ==> walk[0] == 0)
    && BestSoFar(sol, walk, lens, start, b, bestlen, bestind, n)
    && Components(sol, walk[..start], lens, n)
  }

  /** One round of the search: the component through the first unseen
      node is written at `start` and recorded if it is the shortest yet. */
  method SearchStep(n: nat, sol: seq<seq<real>>, seen: seq<bool>, walk: seq<int>, start: nat, node: nat,
                    bestlen: nat, bestind: nat, ghost lens: seq<nat>, ghost b: nat)
    returns (seen': seq<bool>, walk': seq<int>, start': nat, bestlen': nat, bestind': nat,
             ghost lens': seq<nat>, ghost b': nat)
    requires Searching(sol, seen, walk, start, lens, b, bestlen, bestind, n)
    requires node < n && !seen[node] && forall v :: 0 <= v < node ==> seen[v]
    ensures start < start'
    ensures Searching(sol, seen', walk', start', lens', b', bestlen', bestind', n)
  {
    if start == 0 {
      StartUnmarked(seen, walk, n);
      assert !seen[0];
    }
    var marked, written, l := WalkComponent(n, sol, seen, walk, start, node);
    if start > 0 {
      assert written[0] == written[..start][0] == walk[..start][0];
    }
    WalkUsed(sol, written, start, l, n);
    RecordComponent(sol, walk, written, lens, start, l, b, bestlen, bestind, n);
    WalkRecorded(sol, seen, walk, written, lens, start, l, node, n);
    bestlen', bestind', b' := bestlen, bestind, b;
    if l < bestlen {
      bestlen', bestind', b' := l, start, |lens|;
    }
    lens' := lens + [l];
    seen', walk', start' := marked, written, start + l;
  }

  /** The prefix written after one round of the search is made of the
      earlier segments and the new walk, which opens at the least unmarked
      node. */
  lemma WalkRecorded(sol: seq<seq<real>>, seen: seq<bool>, walk: seq<int>, written: seq<int>,
                     lens: seq<nat>, start: nat, l: nat, node: nat, n: nat)
    requires SquareReal(sol, n) && |seen| == n && |walk| == n && |written| == n
    requires 1 <= l && start + l <= n
    requires Marks(seen, walk, start, n)
    requires Components(sol, walk[..start], lens, n)
    requires written[..start] == walk[..start] && node < n && written[start] == node
    requires forall v :: 0 <= v < node ==> seen[v]
    requires Nodes(written[..start + l], n)
    requires Walk(sol, written[..start + l], start, l, n)
    ensures Components(sol, written[..start + l], lens + [l], n)
  {
    var w := written[..start + l];
    var lens' := lens + [l];
    assert w[..start] == walk[..start];
    assert lens'[..|lens|] == lens;
    assert Opens(w, start);
  }

  /** Once all n positions are written every node is marked. */
  lemma AllMarked(seen: seq<bool>, walk: seq<int>, n: nat)
    requires |seen| == n && |walk| == n
    requires Marks(seen, walk, n, n)
    ensures seen == seq(n, _ => true)
    ensures Marks(seq(n, _ => true), walk, n, n)
  {
    assert walk[..n] == walk;
    NodeCount(walk, n);
  }

  /** `findsubtour` (lines 27-76), for n >= 1 nodes. `walk` is the array
      as the search leaves it: all components, in the order found, with
      lengths `lens`; component `b` is the one copied to the front. */
  method FindSubtour(n: nat, sol: seq<seq<real>>)
    returns (len: nat, tour: seq<int>, ghost walk: seq<int>, ghost lens: seq<nat>, ghost b: nat)
    requires n >= 1 && SquareReal(sol, n)
    ensures |tour| == n && |walk| == n
    ensures Distinct(walk) && Nodes(walk, n) && forall v :: 0 <= v < n ==> v in walk
    ensures walk[0] == 0
    ensures Sum(lens) == n && forall j :: 0 <= j < |lens| ==> lens[j] >= 1
    ensures 1 <= len <= n
    ensures b < |lens| && len == lens[b]
    ensures forall j :: 0 <= j < |lens| ==> len <= lens[j]
    ensures forall j :: 0 <= j < b ==> lens[j] > len
    ensures Sum(lens[..b]) + len <= n
    ensures tour[..len] == walk[Sum(lens[..b])..Sum(lens[..b]) + len]
    ensures tour[len..] == walk[len..]
    ensures Distinct(tour[..len]) && Nodes(tour[..len], n)
    ensures forall k :: 0 <= k < len - 1 ==> Used(sol, tour[k], tour[k + 1])
    ensures Components(sol, walk, lens, n)
    ensures walk == Walked(sol, n, n)
  {
    var found, bestlen, bestind;
    found, bestlen, bestind, lens, b := Search(n, sol);
    assert found[..n] == found;
    walk := found;
    len := bestlen;
    tour := CopyShortest(n, sol, found, lens, b, bestlen, bestind);
    ComponentsWalked(sol, walk, lens, n);
  }

  /** Lines 70-73: the first shortest component copied to the front of
      the array the search filled. */
  method CopyShortest(n: nat, sol: seq<seq<real>>, found: seq<int>, ghost lens: seq<nat>, ghost b: nat,
                      bestlen: nat, bestind: nat)
    returns (tour: seq<int>)
    requires n >= 1 && SquareReal(sol, n)
    requires |found| == n && Marks(seq(n, _ => true), found, n, n)
    requires BestSoFar(sol, found, lens, n, b, bestlen, bestind, n)
    ensures |tour| == n
    ensures bestind == Sum(lens[..b]) && bestind + bestlen <= n
    ensures tour[..bestlen] == found[bestind..bestind + bestlen]
    ensures tour[bestlen..] == found[bestlen..]
    ensures Distinct(tour[..bestlen]) && Nodes(tour[..bestlen], n)
    ensures forall k :: 0 <= k < bestlen - 1 ==> Used(sol, tour[k], tour[k + 1])
  {
    assert found[..n] == found;
    tour := CopyBest(found, bestind, bestlen);
    DistinctSlice(found, bestind, bestind + bestlen);
    forall k | 0 <= k < bestlen
      ensures tour[k] == found[bestind + k] && 0 <= tour[k] < n
    {
      assert tour[k] == tour[..bestlen][k];
    }
    forall k | 0 <= k < bestlen - 1
      ensures Used(sol, tour[k], tour[k + 1])
    {
      assert Used(sol, found[..n][bestind + k], found[..n][bestind + k + 1]);
    }
  }

  // ---------------------------------------------------------------------
  // The search as a function of the solution
  // ---------------------------------------------------------------------

  /** The least node from v on that is not in `p`, or n when there is
      none. */
  function LeastAbsent(p: seq<int>, v: nat, n: nat): (r: nat)
    requires v <= n
    ensures v <= r <= n
    ensures r < n ==> r !in p
    ensures forall u :: v <= u < r ==> u in p
    decreases n - v
  {
    if v == n then n else if v !in p then v else LeastAbsent(p, v + 1, n)
  }

  /** The least node from v on that is joined to `a` and not in `p`, or n
      when there is none. */
  function LeastNeighbour(sol: seq<seq<real>>, p: seq<int>, a: int, v: nat, n: nat): (r: nat)
    requires SquareReal(sol, n) && 0 <= a < n && v <= n
    ensures v <= r <= n
    ensures r < n ==> Used(sol, a, r) && r !in p
    ensures forall u :: v <= u < r ==> !(Used(sol, a, u) && u !in p)
    decreases n - v
  {
    if v == n then n
    else if Used(sol, a, v) && v !in p then v
    else LeastNeighbour(sol, p, a, v + 1, n)
  }

  /** The node the search writes after the nodes `p`: the least unwritten
      neighbour of the last one, or, when there is none, the least
      unwritten node, which opens the next component. */
  function NextNode(sol: seq<seq<real>>, p: seq<int>, n: nat): nat
    requires SquareReal(sol, n) && Nodes(p, n)
  {
    if p == [] then LeastAbsent(p, 0, n)
    else
      var m := LeastNeighbour(sol, p, p[|p| - 1], 0, n);
      if m < n then m else LeastAbsent(p, 0, n)
  }

  /** While fewer than n nodes are written, the next one is a new node. */
  lemma NextNodeFresh(sol: seq<seq<real>>, p: seq<int>, n: nat)
    requires SquareReal(sol, n) && Nodes(p, n) && Distinct(p) && |p| < n
    ensures NextNode(sol, p, n) < n && NextNode(sol, p, n) !in p
  {
    if LeastAbsent(p, 0, n) == n {
      NodeCount(p, n);
    }
  }

  /** The first k nodes the search writes, independently of how it marks
      them. */
  function Walked(sol: seq<seq<real>>, n: nat, k: nat): (r: seq<int>)
    requires SquareReal(sol, n) && k <= n
    ensures |r| == k && Distinct(r) && Nodes(r, n)
  {
    if k == 0 then []
    else
      var p := Walked(sol, n, k - 1);
      NextNodeFresh(sol, p, n);
      p + [NextNode(sol, p, n)]
  }

  /** The least node absent from `p` is the one whose smaller nodes are
      all in `p`. */
  lemma LeastAbsentIs(p: seq<int>, x: int, n: nat)
    requires 0 <= x < n && x !in p
    requires forall v :: 0 <= v < x ==> v in p
    ensures LeastAbsent(p, 0, n) == x
  {
  }

  /** A component opens at the node the search writes next. */
  lemma OpensNext(sol: seq<seq<real>>, w: seq<int>, s: nat, n: nat)
    requires SquareReal(sol, n) && Nodes(w, n) && Distinct(w) && s < |w|
    requires Opens(w, s)
    requires s > 0 ==> Closed(sol, w[..s], s, n)
    ensures w[s] == NextNode(sol, w[..s], n)
  {
    var p := w[..s];
    assert w[s] !in p;
    LeastAbsentIs(p, w[s], n);
    if s > 0 {
      assert p[..s] == p;
    }
  }

  /** A step of a component goes to the node the search writes next. */
  lemma FollowsNext(sol: seq<seq<real>>, w: seq<int>, k: nat, n: nat)
    requires SquareReal(sol, n) && Nodes(w, n) && Distinct(w) && 0 < k < |w|
    requires Follows(sol, w, k - 1, n)
    ensures w[k] == NextNode(sol, w[..k], n)
  {
    var p := w[..k];
    assert w[k] !in p && p[|p| - 1] == w[k - 1];
  }

  /** The last component of a nonempty walk is closed. */
  lemma LastClosed(sol: seq<seq<real>>, w: seq<int>, lens: seq<nat>, n: nat)
    requires SquareReal(sol, n) && Nodes(w, n) && |w| > 0
    requires Components(sol, w, lens, n)
    ensures Closed(sol, w, |w|, n)
  {
  }

  /** Every node of a walk made of components is the node the search
      writes after the ones before it. */
  lemma {:induction false} ComponentsNext(sol: seq<seq<real>>, w: seq<int>, lens: seq<nat>, n: nat)
    requires SquareReal(sol, n) && Nodes(w, n) && Distinct(w)
    requires Components(sol, w, lens, n)
    ensures forall k {:trigger NextNode(sol, w[..k], n)} :: 0 <= k < |w| ==> w[k] == NextNode(sol, w[..k], n)
    decreases |lens|
  {
    if lens != [] {
      var l := lens[|lens| - 1];
      var s := |w| - l;
      var front := w[..s];
      assert Distinct(front) && Nodes(front, n);
      ComponentsNext(sol, front, lens[..|lens| - 1], n);
      forall k | 0 <= k < |w|
        ensures w[k] == NextNode(sol, w[..k], n)
      {
        if k < s {
          assert front[..k] == w[..k] && front[k] == w[k];
        } else if k == s {
          if s > 0 {
            LastClosed(sol, front, lens[..|lens| - 1], n);
          }
          OpensNext(sol, w, s, n);
        } else {
          assert Follows(sol, w, k - 1, n);
          FollowsNext(sol, w, k, n);
        }
      }
    }
  }

  /** A sequence of distinct nodes whose every node is the one the search
      writes next is the walk of the search. */
  lemma {:induction false} NextIsWalked(sol: seq<seq<real>>, w: seq<int>, n: nat)
    requires SquareReal(sol, n) && Nodes(w, n) && |w| <= n
    requires forall k {:trigger NextNode(sol, w[..k], n)} :: 0 <= k < |w| ==> w[k] == NextNode(sol, w[..k], n)
    ensures w == Walked(sol, n, |w|)
    decreases |w|
  {
    if w != [] {
      var m := |w| - 1;
      var front := w[..m];
      forall k | 0 <= k < m
        ensures front[k] == NextNode(sol, front[..k], n)
      {
        assert front[..k] == w[..k];
      }
      NextIsWalked(sol, front, n);
      assert w[m] == NextNode(sol, front, n);
      WalkedStep(sol, n, |w|);
      FrontAndLast(w);
    }
  }

  /** A nonempty sequence is its front followed by its last element. */
  lemma FrontAndLast(w: seq<int>)
    requires w != []
    ensures w == w[..|w| - 1] + [w[|w| - 1]]
  {
  }

  /** The walk of k nodes is the walk of k - 1 nodes and the next one. */
  lemma WalkedStep(sol: seq<seq<real>>, n: nat, k: nat)
    requires SquareReal(sol, n) && 1 <= k <= n
    ensures Walked(sol, n, k) == Walked(sol, n, k - 1) + [NextNode(sol, Walked(sol, n, k - 1), n)]
  {
  }

  /** A walk made of components is the walk of the search: the solution
      alone decides every node of it. */
  lemma ComponentsWalked(sol: seq<seq<real>>, w: seq<int>, lens: seq<nat>, n: nat)
    requires SquareReal(sol, n) && Nodes(w, n) && Distinct(w) && |w| <= n
    requires Components(sol, w, lens, n)
    ensures w == Walked(sol, n, |w|)
  {
    ComponentsNext(sol, w, lens, n);
    NextIsWalked(sol, w, n);
  }

  /** Inside a walk the search goes on: the node at k has an unwritten
      neighbour. */
  lemma InsideOpen(sol: seq<seq<real>>, w: seq<int>, k: nat, s: nat, n: nat)
    requires SquareReal(sol, n) && Nodes(w, n) && Distinct(w)
    requires s <= k < |w| - 1
    requires Walk(sol, w, s, |w| - s, n)
    ensures !Closed(sol, w[..k + 1], k + 1, n)
  {
    assert Follows(sol, w, k, n);
    assert w[k + 1] !in w[..k + 1];
    assert w[..k + 1][k] == w[k] && w[..k + 1][..k + 1] == w[..k + 1];
  }

  /** A component that ends at s1 - 1 cannot end inside a walk that runs
      from s2 to the end: its last node would have an unwritten
      neighbour. */
  lemma LastSplit(sol: seq<seq<real>>, w: seq<int>, lens: seq<nat>, s1: nat, s2: nat, n: nat)
    requires SquareReal(sol, n) && Nodes(w, n) && Distinct(w)
    requires 0 < s1 < |w| && s2 < |w|
    requires Components(sol, w[..s1], lens, n)
    requires Walk(sol, w, s2, |w| - s2, n)
    ensures s1 <= s2
  {
    if s2 < s1 {
      InsideOpen(sol, w, s1 - 1, s2, n);
      assert false;
    }
  }

  /** The walk splits into components in one way only. */
  lemma {:induction false} ComponentsUnique(sol: seq<seq<real>>, w: seq<int>, lens1: seq<nat>,
                                            lens2: seq<nat>, n: nat)
    requires SquareReal(sol, n) && Nodes(w, n) && Distinct(w)
    requires Components(sol, w, lens1, n) && Components(sol, w, lens2, n)
    ensures lens1 == lens2
    decreases |lens1|
  {
    if w != [] {
      var front1, front2 := lens1[..|lens1| - 1], lens2[..|lens2| - 1];
      var s1, s2 := |w| - lens1[|lens1| - 1], |w| - lens2[|lens2| - 1];
      if s1 > 0 {
        LastSplit(sol, w, front1, s1, s2, n);
      }
      if s2 > 0 {
        LastSplit(sol, w, front2, s2, s1, n);
      }
      assert Distinct(w[..s1]) && Nodes(w[..s1], n);
      ComponentsUnique(sol, w[..s1], front1, front2, n);
      assert lens1 == front1 + [lens1[|lens1| - 1]];
      assert lens2 == front2 + [lens2[|lens2| - 1]];
    }
  }

  lemma DistinctSlice(s: seq<int>, i: nat, j: nat)
    requires i <= j <= |s| && Distinct(s)
    ensures Distinct(s[i..j])
  {
    assert forall a :: 0 <= a < j - i ==> s[i..j][a] == s[i + a];
  }

  /** Lines 70-72: copy the best component to the front, in place. */
  method CopyBest(walk: seq<int>, from: nat, len: nat) returns (tour: seq<int>)
    requires from + len <= |walk|
    ensures |tour| == |walk|
    ensures tour[..len] == walk[from..from + len]
    ensures tour[len..] == walk[len..]
  {
    tour := walk;
    for i := 0 to len
      invariant |tour| == |walk|
      invariant tour[..i] == walk[from..from + i]
      invariant tour[i..] == walk[i..]
    {
      assert tour[from + i] == tour[i..][from] == walk[i..][from] == walk[from + i];
      var prev := tour;
      tour := tour[i := tour[from + i]];
      assert tour[..i + 1] == prev[..i] + [walk[from + i]];
      assert walk[from..from + i + 1] == walk[from..from + i] + [walk[from + i]];
      assert tour[i + 1..] == prev[i + 1..];
    }
  }

  // ---------------------------------------------------------------------
  // Lazy cuts (lines 95-106)
  // ---------------------------------------------------------------------

  /** The edge variables added to the running expression at outer step i:
      tour[i] with every later node of the subtour. */
  function Row(tour: seq<int>, len: nat, i: nat): (r: seq<Pair>)
    requires i < len <= |tour|
    ensures |r| == len - 1 - i
  {
    seq(len - 1 - i, k requires 0 <= k < len - 1 - i => (tour[i], tour[i + 1 + k]))
  }

  /** The expression after outer step i: rows 0..i, never reset. */
  function Accumulated(tour: seq<int>, len: nat, i: nat): seq<Pair>
    requires i < len <= |tour|
  {
    if i == 0 then Row(tour, len, 0) else Accumulated(tour, len, i - 1) + Row(tour, len, i)
  }

  /** A lazy constraint: the sum of the listed edge variables is at most rhs. */
  datatype Cut = Cut(edges: seq<Pair>, rhs: int)

  /** The inner loop of lines 99-101: add the variables of row i. */
  method AddRow(expr: seq<Pair>, tour: seq<int>, len: nat, i: nat) returns (r: seq<Pair>)
    requires i < len <= |tour|
    ensures r == expr + Row(tour, len, i)
  {
    r := expr;
    for j := i + 1 to len
      invariant r == expr + Row(tour, len, i)[..j - i - 1]
    {
      TakeSnoc(Row(tour, len, i), j - i - 1);
      r := r + [(tour[i], tour[j])];
    }
    assert Row(tour, len, i)[..len - 1 - i] == Row(tour, len, i);
  }

  /** The callback's cut loop: one `addLazy` per outer step, each on the
      expression accumulated so far, and none when the tour is complete. */
  method LazyCuts(tour: seq<int>, len: nat, n: nat) returns (cuts: seq<Cut>)
    requires len <= |tour| && len <= n
    ensures len == n ==> cuts == []
    ensures len < n ==> |cuts| == len
    ensures len < n ==> forall i :: 0 <= i < len ==>
      cuts[i] == Cut(Accumulated(tour, len, i), len - 1)
  {
    if len < n {
      cuts := CutLoop(tour, len);
    } else {
      cuts := [];
    }
  }

  /** Lines 91-105, on an integer solution: the search, then the lazy
      cuts of the shortest component it found. No cut is added exactly
      when the walk of the search is a single component of all n nodes. */
  method Callback(n: nat, sol: seq<seq<real>>)
    returns (cuts: seq<Cut>, ghost walk: seq<int>, ghost lens: seq<nat>)
    requires n >= 1 && SquareReal(sol, n)
    ensures walk == Walked(sol, n, n) && Nodes(walk, n)
    ensures Components(sol, walk, lens, n)
    ensures cuts == [] <==> lens == [n]
    ensures cuts == [] <==> Chain(sol, Walked(sol, n, n), n)
    ensures cuts != [] ==> |cuts| in lens && forall j :: 0 <= j < |lens| ==> |cuts| <= lens[j]
  {
    var len, tour; ghost var b;
    len, tour, walk, lens, b := FindSubtour(n, sol);
    cuts := LazyCuts(tour, len, n);
    SingleComponent(lens, b, n);
    OneChain(sol, walk, lens, n);
  }

  /** The walk never stops before its end: every node but the last is
      followed by its least used neighbour not yet walked. */
  predicate Chain(sol: seq<seq<real>>, w: seq<int>, n: nat)
    requires SquareReal(sol, n) && Nodes(w, n)
  {
    forall k :: 0 <= k < |w| - 1 ==> Follows(sol, w, k, n)
  }

  /** The search finds a single component exactly when its walk is one
      chain through all the nodes. */
  lemma OneChain(sol: seq<seq<real>>, w: seq<int>, lens: seq<nat>, n: nat)
    requires SquareReal(sol, n) && Nodes(w, n) && Distinct(w) && 1 <= |w| == n
    requires Components(sol, w, lens, n)
    ensures lens == [n] <==> Chain(sol, w, n)
  {
    if lens == [n] {
      assert Segment(sol, w, 0, n, n);
    }
    if Chain(sol, w, n) {
      ChainSingle(sol, w, lens, n);
      assert w[..0] == [];
    }
  }

  /** A walk that is one chain holds a single component. */
  lemma ChainSingle(sol: seq<seq<real>>, w: seq<int>, lens: seq<nat>, n: nat)
    requires SquareReal(sol, n) && Nodes(w, n) && Distinct(w) && 1 <= |w|
    requires Components(sol, w, lens, n) && Chain(sol, w, n)
    ensures |lens| == 1
  {
    if |lens| != 1 {
      var s := LastOpening(sol, w, lens, n);
      ChainOpen(sol, w, s - 1, n);
      assert false;
    }
  }

  /** With more than one component, the last one opens after a component
      that closed. */
  lemma LastOpening(sol: seq<seq<real>>, w: seq<int>, lens: seq<nat>, n: nat) returns (s: nat)
    requires SquareReal(sol, n) && Nodes(w, n) && 1 <= |w|
    requires Components(sol, w, lens, n) && |lens| != 1
    ensures 1 <= s < |w| && Closed(sol, w[..s], s, n)
  {
    s := |w| - lens[|lens| - 1];
    var front := w[..s];
    var last := lens[..|lens| - 1][|lens| - 2];
    assert Segment(sol, front, |front| - last, last, n);
  }

  /** Inside a chain no prefix is closed: the next node is an unwalked
      neighbour. */
  lemma ChainOpen(sol: seq<seq<real>>, w: seq<int>, k: nat, n: nat)
    requires SquareReal(sol, n) && Nodes(w, n) && Distinct(w)
    requires k < |w| - 1 && Chain(sol, w, n)
    ensures !Closed(sol, w[..k + 1], k + 1, n)
  {
    assert Follows(sol, w, k, n);
    assert w[k + 1] !in w[..k + 1];
    assert w[..k + 1][k] == w[k] && w[..k + 1][..k + 1] == w[..k + 1];
  }

  /** The shortest of components whose lengths sum to n has n nodes
      exactly when it is the only one. */
  lemma SingleComponent(lens: seq<nat>, b: nat, n: nat)
    requires n >= 1 && Sum(lens) == n && b < |lens|
    requires forall j :: 0 <= j < |lens| ==> lens[b] <= lens[j]
    ensures lens[b] == n <==> lens == [n]
  {
    if lens[b] == n {
      SumAtLeast(lens, n);
      assert |lens| == 1;
      assert lens == [] + [lens[0]];
    }
  }

  /** Components of at least m nodes each sum to at least m per
      component. */
  lemma {:induction false} SumAtLeast(s: seq<nat>, m: nat)
    requires forall j :: 0 <= j < |s| ==> m <= s[j]
    ensures |s| * m <= Sum(s)
  {
    if s != [] {
      SumAtLeast(s[..|s| - 1], m);
    }
  }

  /** The outer loop of lines 98-104: cut i is posted on rows 0..i. */
  method CutLoop(tour: seq<int>, len: nat) returns (cuts: seq<Cut>)
    requires len <= |tour|
    ensures |cuts| == len
    ensures forall i :: 0 <= i < len ==> cuts[i] == Cut(Accumulated(tour, len, i), len - 1)
  {
    cuts := [];
    var expr: seq<Pair> := [];
    for i := 0 to len
      invariant CutsSoFar(cuts, expr, tour, len, i)
    {
      cuts, expr := CutStep(cuts, expr, tour, len, i);
    }
  }

  /** After `i` outer steps: one cut per step, on the rows added so far. */
  predicate CutsSoFar(cuts: seq<Cut>, expr: seq<Pair>, tour: seq<int>, len: nat, i: nat)
    requires i <= len <= |tour|
  {
    && |cuts| == i
    && expr == (if i == 0 then [] else Accumulated(tour, len, i - 1))
    && forall c :: 0 <= c < i ==> cuts[c] == Cut(Accumulated(tour, len, c), len - 1)
  }

  /** One outer step of the cut loop: add row i, then post the cut. */
  method CutStep(cuts: seq<Cut>, expr: seq<Pair>, tour: seq<int>, len: nat, i: nat)
    returns (cuts': seq<Cut>, expr': seq<Pair>)
    requires i < len <= |tour|
    requires CutsSoFar(cuts, expr, tour, len, i)
    ensures CutsSoFar(cuts', expr', tour, len, i + 1)
  {
    expr' := AddRow(expr, tour, len, i);
    AccumulatedStep(tour, len, i, expr');
    cuts' := AppendCut(cuts, Cut(expr', len - 1));
  }

  lemma AccumulatedStep(tour: seq<int>, len: nat, i: nat, expr: seq<Pair>)
    requires i < len <= |tour|
    requires expr == (if i == 0 then [] else Accumulated(tour, len, i - 1)) + Row(tour, len, i)
    ensures expr == Accumulated(tour, len, i)
  {
    if i == 0 {
      assert [] + Row(tour, len, 0) == Row(tour, len, 0);
    }
  }

  function AppendCut(cuts: seq<Cut>, c: Cut): (r: seq<Cut>)
    ensures |r| == |cuts| + 1 && r[|cuts|] == c
    ensures forall k :: 0 <= k < |cuts| ==> r[k] == cuts[k]
  {
    cuts + [c]
  }

  lemma {:induction false} AccumulatedEdges(tour: seq<int>, len: nat, i: nat)
    requires i < len <= |tour|
    ensures forall a, c :: 0 <= a <= i && a < c < len ==> (tour[a], tour[c]) in Accumulated(tour, len, i)
  {
    forall a, c | 0 <= a <= i && a < c < len
      ensures (tour[a], tour[c]) in Accumulated(tour, len, i)
    {
      AccumulatedRow(tour, len, i, a);
      assert Row(tour, len, a)[c - a - 1] == (tour[a], tour[c]);
    }
  }

  lemma {:induction false} AccumulatedRow(tour: seq<int>, len: nat, i: nat, a: nat)
    requires a <= i < len <= |tour|
    ensures forall e :: e in Row(tour, len, a) ==> e in Accumulated(tour, len, i)
    decreases i
  {
    if i > a {
      AccumulatedRow(tour, len, i - 1, a);
    }
  }

  // ---------------------------------------------------------------------
  // The optimal tour (lines 193-210)
  // ---------------------------------------------------------------------

  /** Lines 199-209: orient the tour so that tour[1] <= tour[len - 1],
      abort unless it covers all n nodes, and return its cost with the
      tour closed at its first node. */
  method FinishTour(n: nat, tour: seq<int>, len: nat, dist: seq<seq<int>>)
    returns (r: Result<(int, seq<int>), string>)
    requires n >= 2 && |tour| == n && 1 <= len <= n
    requires Nodes(tour, n) && SquareMatrix(dist, n)
    ensures r.Failure? <==> len != n
    ensures r.Success? ==>
      var (cost, closed) := r.value;
      && |closed| == n + 1 && closed[0] == closed[n] == tour[0]
      && closed[1] <= closed[n - 1]
      && multiset(closed[..n]) == multiset(tour)
      && InMatrix(dist, closed)
      && cost == TourLength(dist, closed)
      && (closed == tour + [tour[0]] || closed == Reverse(tour + [tour[0]]))
    ensures r.Success? && Symmetric(dist) ==> r.value.0 == TourLength(dist, tour + [tour[0]])
  {
    var t := tour;
    if t[1] > t[len - 1] {
      t := t[..1] + Reverse(t[1..len]) + t[len..];
    }
    if len != n {
      return Failure("assertion len == n failed");
    }
    Orientation(tour, t, n);
    var cost, closed := CycleCost(dist, t, n);
    if Symmetric(dist) {
      OrientationCost(dist, tour, closed, n);
    }
    r := Success((cost, closed));
  }

  /** On a symmetric matrix the orientation chosen does not change the
      cost: the closed tour costs the same in either direction. */
  lemma OrientationCost(dist: seq<seq<int>>, tour: seq<int>, closed: seq<int>, n: nat)
    requires n >= 1 && |tour| == n && Nodes(tour, n) && SquareMatrix(dist, n) && Symmetric(dist)
    requires closed == tour + [tour[0]] || closed == Reverse(tour + [tour[0]])
    ensures TourLength(dist, closed) == TourLength(dist, tour + [tour[0]])
  {
    ClosedInMatrix(dist, tour, n);
    if closed != tour + [tour[0]] {
      TourLengthReverse(dist, tour + [tour[0]]);
    }
  }

  /** Lines 203-208: walk the tour once round, adding the edge from each
      node to its successor modulo the tour length. */
  method CycleCost(dist: seq<seq<int>>, t: seq<int>, n: nat) returns (cost: int, closed: seq<int>)
    requires n >= 1 && |t| == n && Nodes(t, n) && SquareMatrix(dist, n)
    ensures closed == t + [t[0]]
    ensures InMatrix(dist, closed) && cost == TourLength(dist, closed)
  {
    ghost var full := t + [t[0]];
    ClosedInMatrix(dist, t, n);
    cost := 0;
    closed := [];
    for i := 0 to n
      invariant closed == t[..i]
      invariant cost == TourLength(dist, full[..i + 1])
    {
      CostStep(dist, full, i);
      NextIndex(i, n);
      assert full[i] == t[i] && full[i + 1] == t[(i + 1) % n];
      TakeSnoc(t, i);
      closed := closed + [t[i]];
      cost := cost + dist[t[i]][t[(i + 1) % n]];
    }
    assert t[..n] == t;
    assert full[..n + 1] == full;
    closed := closed + [t[0]];
  }

  /** The successor index wraps to 0 only at the end of the tour. */
  lemma NextIndex(i: nat, n: nat)
    requires i < n
    ensures (i + 1) % n == if i + 1 < n then i + 1 else 0
  {
  }

  lemma ClosedInMatrix(dist: seq<seq<int>>, t: seq<int>, n: nat)
    requires n >= 1 && |t| == n && Nodes(t, n) && SquareMatrix(dist, n)
    ensures InMatrix(dist, t + [t[0]])
  {
    var full := t + [t[0]];
    forall i | 0 <= i < |full|
      ensures 0 <= full[i] < |dist|
    {
      if i < n { assert full[i] == t[i]; }
    }
  }

  /** A prefix of a walk one node longer costs one more edge. */
  lemma CostStep(dist: seq<seq<int>>, w: seq<int>, i: nat)
    requires SquareMatrix(dist, |dist|) && InMatrix(dist, w) && i + 1 < |w|
    ensures InMatrix(dist, w[..i + 1]) && InMatrix(dist, w[..i + 2])
    ensures TourLength(dist, w[..i + 2]) == TourLength(dist, w[..i + 1]) + dist[w[i]][w[i + 1]]
  {
    assert w[..i + 2][..i + 1] == w[..i + 1];
  }

  /** Reversing everything after the first node of a tour is the same as
      reversing the closed tour. */
  lemma ReverseRest(tour: seq<int>, n: nat)
    requires n >= 2 && |tour| == n
    ensures var t := tour[..1] + Reverse(tour[1..n]) + tour[n..];
      t + [t[0]] == Reverse(tour + [tour[0]])
  {
    var x, rest := tour[0], tour[1..n];
    var t := tour[..1] + Reverse(rest) + tour[n..];
    assert tour[n..] == [] && tour[..1] == [x];
    assert t == [x] + Reverse(rest);
    assert t[0] == x;
    ReverseSnoc(tour, x);
    assert tour[1..] == rest;
    assert Reverse(tour) == Reverse(rest) + [x];
    assert t + [t[0]] == [x] + (Reverse(rest) + [x]);
  }

  /** The orientation step keeps the nodes and either leaves the closed
      tour alone or reverses it. */
  lemma Orientation(tour: seq<int>, t: seq<int>, n: nat)
    requires n >= 2 && |tour| == n
    requires t == (if tour[1] > tour[n - 1] then tour[..1] + Reverse(tour[1..n]) + tour[n..] else tour)
    ensures |t| == n && t[0] == tour[0] && t[1] <= t[n - 1]
    ensures multiset(t) == multiset(tour)
    ensures t + [t[0]] == tour + [tour[0]] || t + [t[0]] == Reverse(tour + [tour[0]])
  {
    if tour[1] > tour[n - 1] {
      ReverseRest(tour, n);
      ReverseMultiset(tour[1..n]);
      assert tour[n..] == [];
      assert tour == tour[..1] + tour[1..n];
      assert t[1] == tour[n - 1] && t[n - 1] == tour[1];
    }
  }
}
