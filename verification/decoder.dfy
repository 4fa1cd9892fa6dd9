/** The random-key decoder of the double TSP with pickup, delivery and a
    bounded reloading depth (`Decoder::decode`, src/brkga.cpp).

    A chromosome is cut into 2n + 1 groups of keys. Sorting group 0 gives
    the pickup order of the n items. Sorting pickup group k (1 <= k <= n)
    gives a reordering of the newly picked item and the top min(k, l + 1) - 1
    items of the single stack. Sorting delivery group k gives a reordering
    of the top min(n - k + 1, l + 1) items before the top one is delivered.
    Keys are only compared, so they are modelled as integers; each group's
    labels are its positions (1-based for group 0). */
module Decoder {
  import opened Pairs
  import opened Distances

  // ---------------------------------------------------------------------
  // Group sizes and the chromosome size
  // ---------------------------------------------------------------------

  /** Keys read by pickup step k: the new item plus up to l relocated ones. */
  function PickupGroupSize(k: nat, l: nat): nat {
    Min(k, l + 1)
  }

  /** Keys read by delivery step k, when n - k + 1 items are still loaded. */
  function DeliveryGroupSize(n: nat, k: nat, l: nat): nat
    requires k <= n + 1
  {
    Min(n - k + 1, l + 1)
  }

  /** Sum of the pickup group sizes of steps 1..k. */
  function PickupKeys(k: nat, l: nat): nat {
    if k == 0 then 0 else PickupKeys(k - 1, l) + PickupGroupSize(k, l)
  }

  /** Sum of the delivery group sizes of steps 1..k. */
  function DeliveryKeys(n: nat, k: nat, l: nat): nat
    requires k <= n
  {
    if k == 0 then 0 else DeliveryKeys(n, k - 1, l) + DeliveryGroupSize(n, k, l)
  }

  /** Number of keys the decoder reads: n for the pickup order, then every
      pickup group, then every delivery group. */
  function ChromosomeSize(n: nat, l: nat): nat {
    n + PickupKeys(n, l) + DeliveryKeys(n, n, l)
  }

  /** The keys of a list of groups, in reading order. */
  function KeysOf(groups: seq<seq<Pair>>): seq<int> {
    if groups == [] then []
    else KeysOf(groups[..|groups| - 1]) + Firsts(groups[|groups| - 1])
  }

  /** Index of the first key of pickup group k (1 <= k <= n + 1). */
  function PickupOffset(n: nat, k: nat, l: nat): nat
    requires 1 <= k
  {
    n + PickupKeys(k - 1, l)
  }

  /** Index of the first key of delivery group k (1 <= k <= n + 1). */
  function DeliveryOffset(n: nat, k: nat, l: nat): nat
    requires 1 <= k <= n + 1
  {
    n + PickupKeys(n, l) + DeliveryKeys(n, k - 1, l)
  }

  /** The group of `size` keys starting at `offset`; its i-th pair is
      (key, first + i). */
  function Group(keys: seq<int>, offset: nat, size: nat, first: int): (g: seq<Pair>)
    requires offset + size <= |keys|
    ensures |g| == size
  {
    seq(size, i requires 0 <= i < size => (keys[offset + i], first + i))
  }

  lemma GroupContents(keys: seq<int>, offset: nat, size: nat, first: int)
    requires offset + size <= |keys|
    ensures Firsts(Group(keys, offset, size, first)) == keys[offset..offset + size]
    ensures Seconds(Group(keys, offset, size, first)) == Range(first, first + size)
  {
  }

  /** Pickup group k starts after the pickup order and groups 1..k-1, and
      ends inside the pickup part of the chromosome. */
  lemma PickupBound(n: nat, l: nat, k: nat)
    requires 1 <= k <= n + 1
    ensures PickupOffset(n, k, l) <= n + PickupKeys(n, l)
    ensures k <= n ==> PickupOffset(n, k, l) + PickupGroupSize(k, l) <= n + PickupKeys(n, l)
  {
    PickupKeysMonotone(n, l);
    assert k <= n ==> PickupKeys(k, l) == PickupKeys(k - 1, l) + PickupGroupSize(k, l);
  }

  /** Delivery group k ends inside the chromosome. */
  lemma DeliveryBound(n: nat, l: nat, k: nat)
    requires 1 <= k <= n + 1
    ensures DeliveryOffset(n, k, l) <= ChromosomeSize(n, l)
    ensures k <= n ==> DeliveryOffset(n, k, l) + DeliveryGroupSize(n, k, l) <= ChromosomeSize(n, l)
  {
    DeliveryKeysMonotone(n, n, l);
    assert k <= n ==> DeliveryKeys(n, k, l) == DeliveryKeys(n, k - 1, l) + DeliveryGroupSize(n, k, l);
  }

  /** The labelled keys of pickup step k. */
  function PickupGroup(keys: seq<int>, n: nat, l: nat, k: nat): (g: seq<Pair>)
    requires |keys| >= ChromosomeSize(n, l) && 1 <= k <= n
    ensures |g| == PickupGroupSize(k, l)
  {
    PickupBound(n, l, k);
    Group(keys, PickupOffset(n, k, l), PickupGroupSize(k, l), 0)
  }

  /** The labelled keys of delivery step k. */
  function DeliveryGroup(keys: seq<int>, n: nat, l: nat, k: nat): (g: seq<Pair>)
    requires |keys| >= ChromosomeSize(n, l) && 1 <= k <= n
    ensures |g| == DeliveryGroupSize(n, k, l)
  {
    DeliveryBound(n, l, k);
    Group(keys, DeliveryOffset(n, k, l), DeliveryGroupSize(n, k, l), 0)
  }

  /** Groups 1..n are the pickup groups read from `keys`. */
  predicate PickupGroupsRead(groups: seq<seq<Pair>>, keys: seq<int>, n: nat, l: nat)
    requires |keys| >= ChromosomeSize(n, l) && |groups| > n
  {
    forall k :: 1 <= k <= n ==> groups[k] == PickupGroup(keys, n, l, k)
  }

  /** Groups n+1..2n are the delivery groups read from `keys`. */
  predicate DeliveryGroupsRead(groups: seq<seq<Pair>>, keys: seq<int>, n: nat, l: nat)
    requires |keys| >= ChromosomeSize(n, l) && |groups| > 2 * n
  {
    forall k :: 1 <= k <= n ==> groups[n + k] == DeliveryGroup(keys, n, l, k)
  }

  /** The groups built by lines 20-42 of src/brkga.cpp from `keys`. */
  predicate WellGrouped(groups: seq<seq<Pair>>, keys: seq<int>, n: nat, l: nat)
    requires |keys| >= ChromosomeSize(n, l)
  {
    && |groups| == 2 * n + 1
    && groups[0] == Group(keys, 0, n, 1)
    && PickupGroupsRead(groups, keys, n, l)
    && DeliveryGroupsRead(groups, keys, n, l)
  }

  lemma KeysOfAppend(groups: seq<seq<Pair>>, g: seq<Pair>)
    ensures KeysOf(groups + [g]) == KeysOf(groups) + Firsts(g)
  {
    assert (groups + [g])[..|groups|] == groups;
  }

  lemma FirstsSnoc(g: seq<Pair>, p: Pair)
    ensures Firsts(g + [p]) == Firsts(g) + [p.0]
  {
  }

  lemma {:induction false} PickupKeysMonotone(k: nat, l: nat)
    ensures forall j :: 0 <= j <= k ==> PickupKeys(j, l) <= PickupKeys(k, l)
  {
    if k > 0 {
      PickupKeysMonotone(k - 1, l);
    }
  }

  lemma {:induction false} DeliveryKeysMonotone(n: nat, k: nat, l: nat)
    requires k <= n
    ensures forall j :: 0 <= j <= k ==> DeliveryKeys(n, j, l) <= DeliveryKeys(n, k, l)
  {
    if k > 0 {
      DeliveryKeysMonotone(n, k - 1, l);
    }
  }

  /** One inner loop of lines 23-41 of src/brkga.cpp: `size` consecutive
      keys from `offset`, labelled first, first + 1, ... */
  method ReadGroup(keys: seq<int>, offset: nat, size: nat, first: int) returns (g: seq<Pair>)
    requires offset + size <= |keys|
    ensures g == Group(keys, offset, size, first)
  {
    g := [];
    for i := 0 to size
      invariant g == Group(keys, offset, i, first)
    {
      g := g + [(keys[offset + i], first + i)];
    }
  }

  /** Appending a group read at `id` extends the keys read so far. */
  lemma AppendGroup(groups: seq<seq<Pair>>, g: seq<Pair>, keys: seq<int>, id: nat, size: nat)
    requires id + size <= |keys|
    requires KeysOf(groups) == keys[..id]
    requires Firsts(g) == keys[id..id + size]
    ensures KeysOf(groups + [g]) == keys[..id + size]
  {
    KeysOfAppend(groups, g);
    TakeConcat(keys, id, id + size);
  }

  /** Lines 20-42 of src/brkga.cpp: cut the chromosome into labelled groups.
      The groups use exactly the first ChromosomeSize(n, l) keys, each once
      and in order. */
  method BuildGroups(keys: seq<int>, n: nat, l: nat) returns (groups: seq<seq<Pair>>)
    requires |keys| >= ChromosomeSize(n, l)
    ensures WellGrouped(groups, keys, n, l)
    ensures KeysOf(groups) == keys[..ChromosomeSize(n, l)]
  {
    var g := ReadGroup(keys, 0, n, 1);
    GroupContents(keys, 0, n, 1);
    AppendGroup([], g, keys, 0, n);
    groups := AddPickupGroups(keys, n, l, [g]);
    groups := AddDeliveryGroups(keys, n, l, groups);
  }

  /** Groups 1..k-1 are the first pickup groups read from `keys`, and they
      use the keys up to the offset of pickup group k. */
  predicate PickupPrefix(groups: seq<seq<Pair>>, keys: seq<int>, n: nat, l: nat, k: nat)
    requires |keys| >= ChromosomeSize(n, l) && 1 <= k <= n + 1
  {
    PickupBound(n, l, k);
    && |groups| == k
    && KeysOf(groups) == keys[..PickupOffset(n, k, l)]
    && forall j :: 1 <= j < k ==> groups[j] == PickupGroup(keys, n, l, j)
  }

  /** Reading pickup group k extends the prefix by one group. */
  lemma ExtendPickupPrefix(groups: seq<seq<Pair>>, g: seq<Pair>, keys: seq<int>, n: nat, l: nat, k: nat)
    requires |keys| >= ChromosomeSize(n, l) && 1 <= k <= n
    requires PickupPrefix(groups, keys, n, l, k)
    requires g == PickupGroup(keys, n, l, k)
    ensures PickupPrefix(groups + [g], keys, n, l, k + 1)
  {
    var id := PickupOffset(n, k, l);
    PickupBound(n, l, k);
    GroupContents(keys, id, PickupGroupSize(k, l), 0);
    AppendGroup(groups, g, keys, id, PickupGroupSize(k, l));
    PickupGroupsExtend(groups, g, keys, n, l, k);
  }

  lemma PickupGroupsExtend(groups: seq<seq<Pair>>, g: seq<Pair>, keys: seq<int>, n: nat, l: nat, k: nat)
    requires |keys| >= ChromosomeSize(n, l) && 1 <= k <= n && |groups| == k
    requires forall j :: 1 <= j < k ==> groups[j] == PickupGroup(keys, n, l, j)
    requires g == PickupGroup(keys, n, l, k)
    ensures forall j :: 1 <= j < k + 1 ==> (groups + [g])[j] == PickupGroup(keys, n, l, j)
  {
    var next := groups + [g];
    forall j | 1 <= j < k + 1
      ensures next[j] == PickupGroup(keys, n, l, j)
    {
      if j < k {
        assert next[j] == groups[j];
      } else {
        assert next[j] == g;
      }
    }
  }

  /** Lines 28-34: the n pickup groups. */
  method AddPickupGroups(keys: seq<int>, n: nat, l: nat, order: seq<seq<Pair>>)
    returns (groups: seq<seq<Pair>>)
    requires |keys| >= ChromosomeSize(n, l)
    requires |order| == 1 && KeysOf(order) == keys[..n]
    ensures |groups| == n + 1 && groups[0] == order[0]
    ensures KeysOf(groups) == keys[..n + PickupKeys(n, l)]
    ensures PickupGroupsRead(groups, keys, n, l)
  {
    groups := order;
    var id := n;
    for k := 1 to n + 1
      invariant PickupPrefix(groups, keys, n, l, k) && groups[0] == order[0]
      invariant id == PickupOffset(n, k, l)
    {
      PickupBound(n, l, k);
      var size := Min(k, l + 1);
      var g := ReadGroup(keys, id, size, 0);
      ExtendPickupPrefix(groups, g, keys, n, l, k);
      groups := groups + [g];
      id := id + size;
    }
  }

  /** Groups n+1..n+k-1 are the first delivery groups read from `keys`,
      after the pickup groups, and they use the keys up to the offset of
      delivery group k. */
  predicate DeliveryPrefix(groups: seq<seq<Pair>>, keys: seq<int>, n: nat, l: nat, k: nat)
    requires |keys| >= ChromosomeSize(n, l) && 1 <= k <= n + 1
  {
    DeliveryBound(n, l, k);
    && |groups| == n + k
    && KeysOf(groups) == keys[..DeliveryOffset(n, k, l)]
    && forall j :: 1 <= j < k ==> groups[n + j] == DeliveryGroup(keys, n, l, j)
  }

  /** Reading delivery group k extends the prefix by one group. */
  lemma ExtendDeliveryPrefix(groups: seq<seq<Pair>>, g: seq<Pair>, keys: seq<int>, n: nat, l: nat, k: nat)
    requires |keys| >= ChromosomeSize(n, l) && 1 <= k <= n
    requires DeliveryPrefix(groups, keys, n, l, k)
    requires g == DeliveryGroup(keys, n, l, k)
    ensures DeliveryPrefix(groups + [g], keys, n, l, k + 1)
    ensures (groups + [g])[..n + 1] == groups[..n + 1]
  {
    var id := DeliveryOffset(n, k, l);
    DeliveryBound(n, l, k);
    GroupContents(keys, id, DeliveryGroupSize(n, k, l), 0);
    AppendGroup(groups, g, keys, id, DeliveryGroupSize(n, k, l));
    var next := groups + [g];
    forall j | 1 <= j < k + 1
      ensures next[n + j] == DeliveryGroup(keys, n, l, j)
    {
      if j < k {
        assert next[n + j] == groups[n + j];
      } else {
        assert next[n + j] == g;
      }
    }
  }

  /** Lines 36-42: the n delivery groups. */
  method AddDeliveryGroups(keys: seq<int>, n: nat, l: nat, front: seq<seq<Pair>>)
    returns (groups: seq<seq<Pair>>)
    requires |keys| >= ChromosomeSize(n, l)
    requires |front| == n + 1 && KeysOf(front) == keys[..n + PickupKeys(n, l)]
    requires front[0] == Group(keys, 0, n, 1)
    requires PickupGroupsRead(front, keys, n, l)
    ensures WellGrouped(groups, keys, n, l)
    ensures KeysOf(groups) == keys[..ChromosomeSize(n, l)]
  {
    groups := front;
    var id := n + PickupKeys(n, l);
    for k := 1 to n + 1
      invariant DeliveryPrefix(groups, keys, n, l, k) && groups[..n + 1] == front
      invariant id == DeliveryOffset(n, k, l)
    {
      DeliveryBound(n, l, k);
      var size := Min(n - k + 1, l + 1);
      var g := ReadGroup(keys, id, size, 0);
      ExtendDeliveryPrefix(groups, g, keys, n, l, k);
      groups := groups + [g];
      id := id + size;
    }
    DeliveryComplete(front, groups, keys, n, l);
  }

  /** With all n delivery groups read behind the pickup part, the groups
      are complete. */
  lemma DeliveryComplete(front: seq<seq<Pair>>, groups: seq<seq<Pair>>, keys: seq<int>, n: nat, l: nat)
    requires |keys| >= ChromosomeSize(n, l)
    requires |front| == n + 1 && front[0] == Group(keys, 0, n, 1)
    requires PickupGroupsRead(front, keys, n, l)
    requires DeliveryPrefix(groups, keys, n, l, n + 1) && groups[..n + 1] == front
    ensures WellGrouped(groups, keys, n, l)
    ensures KeysOf(groups) == keys[..ChromosomeSize(n, l)]
  {
    assert forall j :: 0 <= j <= n ==> groups[j] == groups[..n + 1][j];
  }

  /** The labels of a group in the order its sorted keys put them. */
  function SortedLabels(g: seq<Pair>): (r: seq<int>)
    ensures |r| == |g|
    ensures multiset(r) == multiset(Seconds(g))
  {
    Seconds(Sort(g))
  }

  /** After sorting, group 0 lists the items 1..n and every step group
      lists the positions 0..size-1, each once (lines 20-46). */
  lemma SortedGroupLabels(keys: seq<int>, n: nat, l: nat, k: nat)
    requires |keys| >= ChromosomeSize(n, l) && 1 <= k <= n
    ensures IsPermutationOf(SortedLabels(Group(keys, 0, n, 1)), 1, n + 1)
    ensures IsPermutationOf(SortedLabels(PickupGroup(keys, n, l, k)), 0, PickupGroupSize(k, l))
    ensures IsPermutationOf(SortedLabels(DeliveryGroup(keys, n, l, k)), 0, DeliveryGroupSize(n, k, l))
  {
    SortedGroup(keys, 0, n, 1);
    PickupBound(n, l, k);
    SortedGroup(keys, PickupOffset(n, k, l), PickupGroupSize(k, l), 0);
    DeliveryBound(n, l, k);
    SortedGroup(keys, DeliveryOffset(n, k, l), DeliveryGroupSize(n, k, l), 0);
  }

  /** Sorting a group permutes its labels first, ..., first + size - 1. */
  lemma SortedGroup(keys: seq<int>, offset: nat, size: nat, first: int)
    requires offset + size <= |keys|
    ensures |SortedLabels(Group(keys, offset, size, first))| == size
    ensures IsPermutationOf(SortedLabels(Group(keys, offset, size, first)), first, first + size)
  {
    GroupContents(keys, offset, size, first);
  }

  // ---------------------------------------------------------------------
  // Relocations of one step
  // ---------------------------------------------------------------------

  /** The labels are already in identity order: nothing moves. */
  predicate IsIdentity(labels: seq<int>) {
    forall i :: 0 <= i < |labels| ==> labels[i] == i
  }

  function RelocationsFrom(labels: seq<int>, i: nat): nat
    requires i <= |labels|
    decreases |labels| - i
  {
    if i == |labels| then 0
    else if labels[i] != i then |labels| - i - 1
    else RelocationsFrom(labels, i + 1)
  }

  /** Relocations charged for one step (lines 70-75 and 94-99 of
      src/brkga.cpp): every item above the first out-of-place label is
      taken off and put back. */
  function Relocations(labels: seq<int>): (r: nat)
    ensures labels != [] ==> r < |labels|
    ensures IsIdentity(labels) ==> r == 0
    ensures !IsIdentity(labels) ==>
      exists i :: 0 <= i < |labels| && labels[i] != i && IsIdentity(labels[..i])
                  && r == |labels| - i - 1
  {
    RelocationsFromSpec(labels, 0);
    RelocationsFrom(labels, 0)
  }

  lemma {:induction false} RelocationsFromSpec(labels: seq<int>, i: nat)
    requires i <= |labels|
    requires IsIdentity(labels[..i])
    ensures labels != [] ==> RelocationsFrom(labels, i) < |labels|
    ensures IsIdentity(labels) ==> RelocationsFrom(labels, i) == 0
    ensures !IsIdentity(labels) ==>
      exists j :: i <= j < |labels| && labels[j] != j && IsIdentity(labels[..j])
                  && RelocationsFrom(labels, i) == |labels| - j - 1
    decreases |labels| - i
  {
    if i == |labels| {
      assert labels[..i] == labels;
    } else if labels[i] != i {
    } else {
      assert labels[..i + 1] == labels[..i] + [labels[i]];
      RelocationsFromSpec(labels, i + 1);
    }
  }

  /** For a reordering of 0..m-1 the step is free exactly when nothing is
      out of place. */
  lemma {:induction false} RelocationsZeroIff(labels: seq<int>)
    requires IsPermutationOf(labels, 0, |labels|)
    ensures Relocations(labels) == 0 <==> IsIdentity(labels)
  {
    var m := |labels|;
    if !IsIdentity(labels) {
      var r := Relocations(labels);
      var i :| 0 <= i < m && labels[i] != i && IsIdentity(labels[..i]) && r == m - i - 1;
      if i == m - 1 {
        LastLabelForced(labels);
        assert false;
      }
    }
  }

  /** When the first m - 1 labels of a reordering of 0..m-1 are in place, so
      is the last one. */
  lemma LastLabelForced(labels: seq<int>)
    requires labels != []
    requires IsPermutationOf(labels, 0, |labels|)
    requires IsIdentity(labels[..|labels| - 1])
    ensures labels[|labels| - 1] == |labels| - 1
  {
    var m := |labels|;
    var front := labels[..m - 1];
    assert front == Range(0, m - 1);
    assert labels == front + [labels[m - 1]];
    assert Range(0, m) == Range(0, m - 1) + [m - 1];
    assert multiset(labels) == multiset(Range(0, m - 1)) + multiset{labels[m - 1]};
    assert multiset(Range(0, m)) == multiset(Range(0, m - 1)) + multiset{m - 1};
    assert m - 1 !in Range(0, m - 1);
    assert multiset(Range(0, m - 1))[m - 1] == 0;
    assert multiset(labels)[m - 1] == 1;
  }

  // ---------------------------------------------------------------------
  // One pickup step and one delivery step on the stack
  // ---------------------------------------------------------------------

  /** The top c items of the stack, topmost first (the order of the pops). */
  function Popped(stack: seq<int>, c: nat): (r: seq<int>)
    requires c <= |stack|
    ensures |r| == c
  {
    seq(c, i requires 0 <= i < c => stack[|stack| - 1 - i])
  }

  lemma PoppedMultiset(stack: seq<int>, c: nat)
    requires c <= |stack|
    ensures multiset(stack[..|stack| - c]) + multiset(Popped(stack, c)) == multiset(stack)
  {
    var top := stack[|stack| - c..];
    assert Popped(stack, c) == Reverse(top);
    ReverseMultiset(top);
    SplitAt(stack, |stack| - c);
  }

  /** The items of a step's pairs after `sort(vt.rbegin(), vt.rend())`,
      i.e. by descending label, in the order they are pushed back. */
  function Reordered(vt: seq<Pair>): (r: seq<int>)
    ensures |r| == |vt|
    ensures multiset(r) == multiset(Seconds(vt))
  {
    SecondsReverse(Sort(vt));
    Seconds(Reverse(Sort(vt)))
  }

  function Zip(labels: seq<int>, items: seq<int>): (r: seq<Pair>)
    requires |labels| == |items|
    ensures |r| == |labels|
    ensures Seconds(r) == items
  {
    seq(|labels|, i requires 0 <= i < |labels| => (labels[i], items[i]))
  }

  /** Pops c items, pairs the `moved` items with the labels and pushes them
      back by descending label (lines 62-80 and 87-104 of src/brkga.cpp). */
  function Rearrange(stack: seq<int>, c: nat, labels: seq<int>, moved: seq<int>): (r: seq<int>)
    requires c <= |stack|
    requires |labels| == |moved|
    ensures |r| == |stack| - c + |moved|
    ensures multiset(r) == multiset(stack[..|stack| - c]) + multiset(moved)
    ensures r[..|stack| - c] == stack[..|stack| - c]
  {
    var rest := stack[..|stack| - c];
    var pushed := Reordered(Zip(labels, moved));
    PrefixOfAppend(rest, pushed);
    rest + pushed
  }

  lemma PrefixOfAppend(a: seq<int>, b: seq<int>)
    ensures (a + b)[..|a|] == a
  {
  }

  /** Popping the top of a non-empty stack. */
  lemma PopLast(s: seq<int>, k: nat)
    requires k < |s|
    ensures multiset(s[..|s| - 1]) + multiset{s[|s| - 1]} == multiset(s)
    ensures s[..|s| - 1][..k] == s[..k]
  {
    assert s == s[..|s| - 1] + [s[|s| - 1]];
  }

  datatype Step = Step(stack: seq<int>, relocations: nat)

  /** Pickup step (lines 62-80): pair label 0 with the new item and labels
      1.. with the popped items, then push them back by descending label. */
  function PickupStep(stack: seq<int>, labels: seq<int>, item: int): (r: Step)
    requires 1 <= |labels| <= |stack| + 1
    ensures |r.stack| == |stack| + 1
    ensures multiset(r.stack) == multiset(stack) + multiset{item}
    ensures r.stack[..|stack| - (|labels| - 1)] == stack[..|stack| - (|labels| - 1)]
    ensures r.relocations == Relocations(labels)
  {
    var c := |labels| - 1;
    PoppedMultiset(stack, c);
    Step(Rearrange(stack, c, labels, [item] + Popped(stack, c)), Relocations(labels))
  }

  datatype Delivery = Delivery(stack: seq<int>, delivered: int, relocations: nat)

  /** Delivery step (lines 87-108): pop one item per label, push them back
      by descending label, then deliver the item on top. */
  function DeliveryStep(stack: seq<int>, labels: seq<int>): (r: Delivery)
    requires 1 <= |labels| <= |stack|
    ensures |r.stack| == |stack| - 1
    ensures multiset(r.stack) + multiset{r.delivered} == multiset(stack)
    ensures r.stack[..|stack| - |labels|] == stack[..|stack| - |labels|]
    ensures r.relocations == Relocations(labels)
  {
    var c := |labels|;
    PoppedMultiset(stack, c);
    var full := Rearrange(stack, c, labels, Popped(stack, c));
    TakeTop(stack, c, Popped(stack, c), full);
    Delivery(full[..|full| - 1], full[|full| - 1], Relocations(labels))
  }

  /** Taking the top off the rearranged stack leaves the untouched bottom
      in place and every other item either left or taken. */
  lemma TakeTop(stack: seq<int>, c: nat, moved: seq<int>, full: seq<int>)
    requires 1 <= c <= |stack|
    requires multiset(stack[..|stack| - c]) + multiset(moved) == multiset(stack)
    requires multiset(full) == multiset(stack[..|stack| - c]) + multiset(moved)
    requires |full| == |stack| && full[..|stack| - c] == stack[..|stack| - c]
    ensures multiset(full[..|full| - 1]) + multiset{full[|full| - 1]} == multiset(stack)
    ensures full[..|full| - 1][..|stack| - c] == stack[..|stack| - c]
  {
    PopLast(full, |stack| - c);
  }

  /** With a single label the step moves nothing. */
  lemma SingleLabelSteps(stack: seq<int>, lab: int, item: int)
    ensures PickupStep(stack, [lab], item) == Step(stack + [item], Relocations([lab]))
    ensures |stack| >= 1 ==>
      DeliveryStep(stack, [lab]) ==
        Delivery(stack[..|stack| - 1], stack[|stack| - 1], Relocations([lab]))
  {
    SinglePickupStep(stack, lab, item);
    if |stack| >= 1 {
      SingleDeliveryStep(stack, lab);
    }
  }

  lemma SinglePickupStep(stack: seq<int>, lab: int, item: int)
    ensures PickupStep(stack, [lab], item).stack == stack + [item]
  {
    var moved := [item] + Popped(stack, 0);
    assert moved == [item];
    ReorderedSingle(lab, item);
    assert Zip([lab], moved) == [(lab, item)];
    assert stack[..|stack| - 0] == stack;
  }

  lemma SingleDeliveryStep(stack: seq<int>, lab: int)
    requires |stack| >= 1
    ensures DeliveryStep(stack, [lab]).stack == stack[..|stack| - 1]
    ensures DeliveryStep(stack, [lab]).delivered == stack[|stack| - 1]
  {
    var top := Popped(stack, 1);
    assert top == [stack[|stack| - 1]];
    ReorderedSingle(lab, stack[|stack| - 1]);
    assert Zip([lab], top) == [(lab, stack[|stack| - 1])];
    var full := Rearrange(stack, 1, [lab], top);
    assert full == stack[..|stack| - 1] + [stack[|stack| - 1]];
    assert full[..|full| - 1] == stack[..|stack| - 1];
  }

  /** A single pair is pushed back as it is. */
  lemma ReorderedSingle(lab: int, item: int)
    ensures Reordered([(lab, item)]) == [item]
  {
    var vt := [(lab, item)];
    assert Sort(vt) == vt;
    assert Reverse(vt) == vt;
    assert Seconds(vt) == [item];
  }

  // ---------------------------------------------------------------------
  // The whole decoding
  // ---------------------------------------------------------------------

  /** C++'s conversion of a double to int: truncation toward zero. */
  function Truncate(x: real): (r: int)
    ensures 0.0 <= x ==> r as real <= x < r as real + 1.0
    ensures x < 0.0 ==> r as real - 1.0 < x <= r as real
  {
    if x >= 0.0 then x.Floor else -((-x).Floor)
  }

  /** Line 120: alpha times the distance plus beta times the cost of all
      relocations, converted to int. */
  function TotalCost(alpha: real, beta: real, h: int, distance: int, relocations: nat): int {
    Truncate(alpha * distance as real + beta * h as real * relocations as real)
  }

  datatype Decoding = Decoding(
    pickupTour: seq<int>,
    deliveryTour: seq<int>,
    relocations: nat,
    distance: int,
    cost: int)

  /** A closed tour from the depot 0 through each of the items 1..n once. */
  predicate DepotTour(tour: seq<int>, n: nat) {
    && |tour| == n + 2
    && tour[0] == 0 && tour[n + 1] == 0
    && IsPermutationOf(tour[1..n + 1], 1, n + 1)
  }

  lemma ItemsInRange(s: seq<int>, n: nat)
    requires multiset(s) <= multiset(Range(1, n + 1))
    ensures forall i :: 0 <= i < |s| ==> 1 <= s[i] <= n
  {
    forall i | 0 <= i < |s|
      ensures 1 <= s[i] <= n
    {
      assert s[i] in multiset(s);
      InRange(s[i], 1, n + 1);
    }
  }

  /** Pickup step k on the group read for it: the new stack and the
      relocations charged. */
  method LoadOne(stack: seq<int>, g: seq<Pair>, item: int) returns (next: seq<int>, moved: nat)
    requires 1 <= |g| <= |stack| + 1
    ensures |next| == |stack| + 1
    ensures multiset(next) == multiset(stack) + multiset{item}
    ensures moved < |g|
    ensures |g| == 1 ==> moved == 0 && next == stack + [item]
    ensures next == PickupStep(stack, SortedLabels(g), item).stack
    ensures moved == PickupStep(stack, SortedLabels(g), item).relocations
  {
    var labels := SortedLabels(g);
    var step := PickupStep(stack, labels, item);
    if |g| == 1 {
      assert labels == [labels[0]];
      SingleLabelSteps(stack, labels[0], item);
    }
    next, moved := step.stack, step.relocations;
  }

  /** Pickup step k + 1 reads min(k + 1, l + 1) keys. */
  predicate PickupSized(groups: seq<seq<Pair>>, l: nat) {
    forall k :: 0 <= k < |groups| ==> |groups[k]| == Min(k + 1, l + 1)
  }

  /** Delivery step k + 1, with m - k items still loaded, reads
      min(m - k, l + 1) keys. */
  predicate DeliverySized(groups: seq<seq<Pair>>, m: nat, l: nat) {
    forall k :: 0 <= k < |groups| ==> |groups[k]| == Min(m - k, l + 1)
  }

  /** The sizes of the pickup and delivery groups, as the steps read them. */
  lemma GroupSizes(groups: seq<seq<Pair>>, keys: seq<int>, n: nat, l: nat,
                   pickups: seq<seq<Pair>>, deliveries: seq<seq<Pair>>)
    requires |keys| >= ChromosomeSize(n, l)
    requires WellGrouped(groups, keys, n, l)
    requires pickups == groups[1..n + 1] && deliveries == groups[n + 1..]
    ensures |pickups| == n && |deliveries| == n
    ensures PickupSized(pickups, l) && DeliverySized(deliveries, n, l)
  {
    forall k | 0 <= k < n
      ensures |pickups[k]| == Min(k + 1, l + 1)
      ensures |deliveries[k]| == Min(n - k, l + 1)
    {
      assert pickups[k] == PickupGroup(keys, n, l, k + 1);
      assert deliveries[k] == DeliveryGroup(keys, n, l, k + 1);
    }
  }

  /** The stack and the relocations charged after some pickup steps. */
  datatype Load = Load(stack: seq<int>, relocations: nat)

  /** The stack and the relocations after the first k pickup steps: each
      step applies `PickupStep` to the stack left by the previous one, with
      the sorted labels of its group (lines 58-81). */
  function Loaded(groups: seq<seq<Pair>>, items: seq<int>, l: nat, k: nat): (r: Load)
    requires k <= |groups| && k <= |items|
    requires PickupSized(groups, l)
    ensures |r.stack| == k
  {
    if k == 0 then Load([], 0)
    else
      var prev := Loaded(groups, items, l, k - 1);
      assert |groups[k - 1]| == Min(k, l + 1);
      Pickup(prev, groups[k - 1], items[k - 1])
  }

  /** One pickup step on the stack and the relocations charged so far. */
  function Pickup(s: Load, g: seq<Pair>, item: int): (r: Load)
    requires 1 <= |g| <= |s.stack| + 1
    ensures multiset(r.stack) == multiset(s.stack) + multiset{item}
    ensures r.relocations < s.relocations + |g|
    ensures |g| == 1 ==> r == Load(s.stack + [item], s.relocations)
  {
    SinglePickup(s.stack, g, item);
    var step := PickupStep(s.stack, SortedLabels(g), item);
    Load(step.stack, s.relocations + step.relocations)
  }

  /** A pickup whose group holds only the new item puts it on top and
      relocates nothing. */
  lemma SinglePickup(stack: seq<int>, g: seq<Pair>, item: int)
    requires 1 <= |g| <= |stack| + 1
    ensures |g| == 1 ==> PickupStep(stack, SortedLabels(g), item) == Step(stack + [item], 0)
  {
    if |g| == 1 {
      var labels := SortedLabels(g);
      assert labels == [labels[0]];
      SingleLabelSteps(stack, labels[0], item);
    }
  }

  /** Lines 58-81: the n pickup steps, loading the items in pickup order. */
  method LoadItems(groups: seq<seq<Pair>>, items: seq<int>, n: nat, l: nat)
    returns (stack: seq<int>, relocations: nat)
    requires |groups| == n && |items| == n
    requires PickupSized(groups, l)
    ensures |stack| == n
    ensures multiset(stack) == multiset(items)
    ensures relocations <= n * l
    ensures l == 0 ==> relocations == 0 && stack == items
    ensures Loaded(groups, items, l, n) == Load(stack, relocations)
  {
    stack := [];
    relocations := 0;
    for k := 0 to n
      invariant Loaded(groups, items, l, k) == Load(stack, relocations)
    {
      LoadedNext(groups, items, l, k + 1);
      stack, relocations := LoadNext(stack, relocations, groups[k], items[k]);
    }
    LoadedAll(groups, items, l);
  }

  /** The fold over all n pickup steps loads every item, relocates at most
      n * l of them, and with l = 0 stacks them in loading order. */
  lemma LoadedAll(groups: seq<seq<Pair>>, items: seq<int>, l: nat)
    requires |groups| == |items|
    requires PickupSized(groups, l)
    ensures multiset(Loaded(groups, items, l, |items|).stack) == multiset(items)
    ensures Loaded(groups, items, l, |items|).relocations <= |items| * l
    ensures l == 0 ==> Loaded(groups, items, l, |items|) == Load(items, 0)
  {
    var n := |items|;
    LoadedItems(groups, items, l, n);
    LoadedBound(groups, items, l, n);
    if l == 0 {
      LoadedInOrder(groups, items, n);
    }
    assert items[..n] == items;
  }

  /** One pickup step of the loop is the step `Pickup` of the fold. */
  method LoadNext(stack: seq<int>, relocations: nat, g: seq<Pair>, item: int)
    returns (stack': seq<int>, relocations': nat)
    requires 1 <= |g| <= |stack| + 1
    ensures Load(stack', relocations') == Pickup(Load(stack, relocations), g, item)
  {
    var next, moved := LoadOne(stack, g, item);
    stack', relocations' := next, relocations + moved;
    PickupIs(Load(stack, relocations), g, item, next, moved);
  }

  /** The fold's step is the pickup step's new stack and relocations. */
  lemma PickupIs(s: Load, g: seq<Pair>, item: int, next: seq<int>, moved: nat)
    requires 1 <= |g| <= |s.stack| + 1
    requires next == PickupStep(s.stack, SortedLabels(g), item).stack
    requires moved == PickupStep(s.stack, SortedLabels(g), item).relocations
    ensures Pickup(s, g, item) == Load(next, s.relocations + moved)
  {
  }

  /** Step k of the fold, from the state after k - 1 steps. */
  lemma LoadedNext(groups: seq<seq<Pair>>, items: seq<int>, l: nat, k: nat)
    requires 1 <= k <= |groups| && k <= |items|
    requires PickupSized(groups, l)
    ensures |groups[k - 1]| == Min(k, l + 1)
    ensures Loaded(groups, items, l, k) == Pickup(Loaded(groups, items, l, k - 1), groups[k - 1], items[k - 1])
  {
  }

  /** After k pickup steps the stack holds the first k items. */
  lemma {:induction false} LoadedItems(groups: seq<seq<Pair>>, items: seq<int>, l: nat, k: nat)
    requires k <= |groups| && k <= |items|
    requires PickupSized(groups, l)
    ensures multiset(Loaded(groups, items, l, k).stack) == multiset(items[..k])
  {
    if k > 0 {
      LoadedItems(groups, items, l, k - 1);
      assert |groups[k - 1]| == Min(k, l + 1);
      TakeSnoc(items, k - 1);
    }
  }

  /** After k pickup steps at most k * l items were relocated. */
  lemma {:induction false} LoadedBound(groups: seq<seq<Pair>>, items: seq<int>, l: nat, k: nat)
    requires k <= |groups| && k <= |items|
    requires PickupSized(groups, l)
    ensures Loaded(groups, items, l, k).relocations <= k * l
  {
    if k > 0 {
      LoadedBound(groups, items, l, k - 1);
      LoadedStep(groups, items, l, k);
      BoundStep(Loaded(groups, items, l, k - 1).relocations, Loaded(groups, items, l, k).relocations, k, l);
    }
  }

  /** Pickup step k relocates at most l items. */
  lemma LoadedStep(groups: seq<seq<Pair>>, items: seq<int>, l: nat, k: nat)
    requires 1 <= k <= |groups| && k <= |items|
    requires PickupSized(groups, l)
    ensures Loaded(groups, items, l, k).relocations <= Loaded(groups, items, l, k - 1).relocations + l
  {
    LoadedNext(groups, items, l, k);
  }

  /** With l = 0 the pickup steps relocate nothing and stack the items in
      loading order. */
  lemma {:induction false} LoadedInOrder(groups: seq<seq<Pair>>, items: seq<int>, k: nat)
    requires k <= |groups| && k <= |items|
    requires PickupSized(groups, 0)
    ensures Loaded(groups, items, 0, k) == Load(items[..k], 0)
  {
    if k > 0 {
      LoadedInOrder(groups, items, k - 1);
      assert |groups[k - 1]| == Min(k, 1);
      TakeSnoc(items, k - 1);
    }
  }

  /** Adding at most l relocations to a total of at most (k - 1) * l
      keeps it within k * l. */
  lemma BoundStep(prev: nat, next: nat, k: nat, l: nat)
    requires 1 <= k
    requires prev <= (k - 1) * l
    requires next <= prev + l
    ensures next <= k * l
  {
    assert (k - 1) * l + l == k * l;
  }

  /** Delivery step k on the group read for it: the remaining stack, the
      delivered item and the relocations charged. */
  method UnloadOne(stack: seq<int>, g: seq<Pair>) returns (rest: seq<int>, item: int, moved: nat)
    requires 1 <= |g| <= |stack|
    ensures |rest| == |stack| - 1
    ensures multiset(rest) + multiset{item} == multiset(stack)
    ensures moved < |g|
    ensures |g| == 1 ==> moved == 0 && rest == stack[..|stack| - 1] && item == stack[|stack| - 1]
    ensures rest == DeliveryStep(stack, SortedLabels(g)).stack
    ensures item == DeliveryStep(stack, SortedLabels(g)).delivered
    ensures moved == DeliveryStep(stack, SortedLabels(g)).relocations
  {
    var labels := SortedLabels(g);
    var step := DeliveryStep(stack, labels);
    if |g| == 1 {
      assert labels == [labels[0]];
      SingleLabelSteps(stack, labels[0], 0);
    }
    rest, item, moved := step.stack, step.delivered, step.relocations;
  }

  /** The stack left, the items delivered so far and the relocations after
      the first k delivery steps: each step applies `DeliveryStep` to the
      stack left by the previous one, with the sorted labels of its group
      (lines 83-110). */
  function Unloaded(groups: seq<seq<Pair>>, loaded: seq<int>, l: nat, k: nat): (r: Phase)
    requires k <= |groups| && k <= |loaded|
    requires DeliverySized(groups, |loaded|, l)
    ensures |r.stack| == |loaded| - k && |r.delivered| == k
  {
    if k == 0 then Phase(loaded, [], 0)
    else
      var prev := Unloaded(groups, loaded, l, k - 1);
      assert |groups[k - 1]| == Min(|loaded| - (k - 1), l + 1);
      Deliver(prev, DeliveryStep(prev.stack, SortedLabels(groups[k - 1])))
  }

  /** A state of the delivery phase: the stack left, the items delivered so
      far and the relocations charged so far. */
  datatype Phase = Phase(stack: seq<int>, delivered: seq<int>, relocations: nat)

  /** The outcome `d` of one delivery step applied to a state of the
      delivery phase: the stack it leaves, its item delivered after the
      earlier ones, its relocations charged on top. */
  function Deliver(p: Phase, d: Delivery): (r: Phase)
    ensures |r.delivered| == |p.delivered| + 1
  {
    Phase(d.stack, p.delivered + [d.delivered], p.relocations + d.relocations)
  }

  /** A delivery step that moves one item off the stack moves it to the
      delivered items. */
  lemma DeliverItems(p: Phase, d: Delivery)
    requires multiset(d.stack) + multiset{d.delivered} == multiset(p.stack)
    ensures multiset(Deliver(p, d).stack) + multiset(Deliver(p, d).delivered)
            == multiset(p.stack) + multiset(p.delivered)
  {
    DeliverCount(p.stack, p.delivered, d.stack, d.delivered);
  }

  /** A delivery step whose group holds one key takes the top item off
      and relocates nothing. */
  lemma DeliverSingle(p: Phase, g: seq<Pair>)
    requires 1 == |g| <= |p.stack|
    ensures Deliver(p, DeliveryStep(p.stack, SortedLabels(g))) == TakeTopOff(p)
  {
    SingleDelivery(p.stack, g);
  }

  /** Moving the top item from the stack to the delivered items keeps
      every item on one side or the other. */
  lemma DeliverCount(stack: seq<int>, delivered: seq<int>, rest: seq<int>, item: int)
    requires multiset(rest) + multiset{item} == multiset(stack)
    ensures multiset(rest) + multiset(delivered + [item]) == multiset(stack) + multiset(delivered)
  {
  }

  /** A delivery whose group holds only the top item takes it off and
      relocates nothing. */
  lemma SingleDelivery(stack: seq<int>, g: seq<Pair>)
    requires 1 <= |g| <= |stack|
    ensures |g| == 1 ==>
      DeliveryStep(stack, SortedLabels(g)) == Delivery(stack[..|stack| - 1], stack[|stack| - 1], 0)
  {
    if |g| == 1 {
      var labels := SortedLabels(g);
      assert labels == [labels[0]];
      SingleLabelSteps(stack, labels[0], 0);
    }
  }

  /** Step k of the fold, from the state after k - 1 steps. */
  lemma UnloadedNext(groups: seq<seq<Pair>>, loaded: seq<int>, l: nat, k: nat)
    requires 1 <= k <= |groups| && k <= |loaded|
    requires DeliverySized(groups, |loaded|, l)
    ensures |groups[k - 1]| == Min(|loaded| - (k - 1), l + 1)
    ensures var prev := Unloaded(groups, loaded, l, k - 1);
      Unloaded(groups, loaded, l, k) == Deliver(prev, DeliveryStep(prev.stack, SortedLabels(groups[k - 1])))
  {
  }

  /** Lines 83-110: the n delivery steps, unloading the whole stack. */
  method UnloadItems(groups: seq<seq<Pair>>, loaded: seq<int>, n: nat, l: nat)
    returns (delivered: seq<int>, relocations: nat)
    requires |groups| == n && |loaded| == n
    requires DeliverySized(groups, n, l)
    ensures |delivered| == n
    ensures multiset(delivered) == multiset(loaded)
    ensures relocations <= n * l
    ensures l == 0 ==> relocations == 0 && delivered == Reverse(loaded)
    ensures Unloaded(groups, loaded, l, n) == Phase([], delivered, relocations)
  {
    var p := UnloadSteps(groups, loaded, n, l);
    UnloadedAll(groups, loaded, l);
    delivered, relocations := p.delivered, p.relocations;
  }

  /** The loop of lines 83-110: step k applies `UnloadOne` to the stack
      the previous steps left. */
  method UnloadSteps(groups: seq<seq<Pair>>, loaded: seq<int>, n: nat, l: nat) returns (p: Phase)
    requires |groups| == n && |loaded| == n
    requires DeliverySized(groups, n, l)
    ensures p == Unloaded(groups, loaded, l, n)
  {
    p := Phase(loaded, [], 0);
    for k := 0 to n
      invariant p == Unloaded(groups, loaded, l, k)
    {
      p := UnloadAt(groups, loaded, l, k, p);
    }
  }

  /** One pass of the loop takes the fold from k steps to k + 1. */
  method UnloadAt(groups: seq<seq<Pair>>, loaded: seq<int>, l: nat, k: nat, p: Phase) returns (p': Phase)
    requires k < |groups| && k < |loaded|
    requires DeliverySized(groups, |loaded|, l)
    requires p == Unloaded(groups, loaded, l, k)
    ensures p' == Unloaded(groups, loaded, l, k + 1)
  {
    UnloadedNext(groups, loaded, l, k + 1);
    p' := UnloadNext(p, groups[k]);
  }

  /** One delivery step of the loop is the step `Deliver` of the fold. */
  method UnloadNext(p: Phase, g: seq<Pair>) returns (p': Phase)
    requires 1 <= |g| <= |p.stack|
    ensures p' == Deliver(p, DeliveryStep(p.stack, SortedLabels(g)))
  {
    var rest, item, moved := UnloadOne(p.stack, g);
    p' := Phase(rest, p.delivered + [item], p.relocations + moved);
    DeliverOutcome(p, DeliveryStep(p.stack, SortedLabels(g)), rest, item, moved);
  }

  /** The fold's step is the delivery step's stack, item and relocations. */
  lemma DeliverOutcome(p: Phase, d: Delivery, rest: seq<int>, item: int, moved: nat)
    requires rest == d.stack && item == d.delivered && moved == d.relocations
    ensures Deliver(p, d) == Phase(rest, p.delivered + [item], p.relocations + moved)
  {
  }

  /** The fold over all n delivery steps empties the stack, delivers every
      item, relocates at most n * l of them, and with l = 0 delivers them
      in the reverse of the loading order. */
  lemma UnloadedAll(groups: seq<seq<Pair>>, loaded: seq<int>, l: nat)
    requires |groups| == |loaded|
    requires DeliverySized(groups, |loaded|, l)
    ensures Unloaded(groups, loaded, l, |loaded|).stack == []
    ensures multiset(Unloaded(groups, loaded, l, |loaded|).delivered) == multiset(loaded)
    ensures Unloaded(groups, loaded, l, |loaded|).relocations <= |loaded| * l
    ensures l == 0 ==> Unloaded(groups, loaded, l, |loaded|) == Phase([], Reverse(loaded), 0)
  {
    var n := |loaded|;
    UnloadedItems(groups, loaded, l, n);
    UnloadedBound(groups, loaded, l, n);
    if l == 0 {
      UnloadedInOrder(groups, loaded, n);
      assert loaded[..0] == [] && loaded[0..] == loaded;
    }
  }

  /** After k delivery steps every loaded item is on the stack or
      delivered. */
  lemma {:induction false} UnloadedItems(groups: seq<seq<Pair>>, loaded: seq<int>, l: nat, k: nat)
    requires k <= |groups| && k <= |loaded|
    requires DeliverySized(groups, |loaded|, l)
    ensures multiset(Unloaded(groups, loaded, l, k).stack) + multiset(Unloaded(groups, loaded, l, k).delivered)
            == multiset(loaded)
  {
    if k > 0 {
      UnloadedItems(groups, loaded, l, k - 1);
      UnloadedNext(groups, loaded, l, k);
      var prev := Unloaded(groups, loaded, l, k - 1);
      DeliverItems(prev, DeliveryStep(prev.stack, SortedLabels(groups[k - 1])));
    }
  }

  /** After k delivery steps at most k * l items were relocated. */
  lemma {:induction false} UnloadedBound(groups: seq<seq<Pair>>, loaded: seq<int>, l: nat, k: nat)
    requires k <= |groups| && k <= |loaded|
    requires DeliverySized(groups, |loaded|, l)
    ensures Unloaded(groups, loaded, l, k).relocations <= k * l
  {
    if k > 0 {
      UnloadedBound(groups, loaded, l, k - 1);
      UnloadedStep(groups, loaded, l, k);
      BoundStep(Unloaded(groups, loaded, l, k - 1).relocations, Unloaded(groups, loaded, l, k).relocations, k, l);
    }
  }

  /** Delivery step k relocates at most l items. */
  lemma UnloadedStep(groups: seq<seq<Pair>>, loaded: seq<int>, l: nat, k: nat)
    requires 1 <= k <= |groups| && k <= |loaded|
    requires DeliverySized(groups, |loaded|, l)
    ensures Unloaded(groups, loaded, l, k).relocations <= Unloaded(groups, loaded, l, k - 1).relocations + l
  {
    UnloadedNext(groups, loaded, l, k);
  }

  /** With l = 0 the delivery steps relocate nothing: after k of them the
      stack holds the first m - k loaded items and the last k were
      delivered, top first. */
  lemma UnloadedInOrder(groups: seq<seq<Pair>>, loaded: seq<int>, k: nat)
    requires k <= |groups| && k <= |loaded|
    requires DeliverySized(groups, |loaded|, 0)
    ensures Unloaded(groups, loaded, 0, k)
            == Phase(loaded[..|loaded| - k], Reverse(loaded[|loaded| - k..]), 0)
  {
    UnloadedPopsOff(groups, loaded, k);
    PoppedOffInOrder(loaded, k);
  }

  /** Delivery without relocations: the top item goes from the stack to
      the delivered items. */
  function TakeTopOff(p: Phase): (r: Phase)
    requires p.stack != []
    ensures |r.stack| == |p.stack| - 1 && r.relocations == p.relocations
  {
    Phase(p.stack[..|p.stack| - 1], p.delivered + [p.stack[|p.stack| - 1]], p.relocations)
  }

  /** The state after taking the top off `loaded` k times. */
  function PoppedOff(loaded: seq<int>, k: nat): (r: Phase)
    requires k <= |loaded|
    ensures |r.stack| == |loaded| - k
  {
    if k == 0 then Phase(loaded, [], 0) else TakeTopOff(PoppedOff(loaded, k - 1))
  }

  /** With l = 0 the k delivery steps take the top off the stack k times. */
  lemma {:induction false} UnloadedPopsOff(groups: seq<seq<Pair>>, loaded: seq<int>, k: nat)
    requires k <= |groups| && k <= |loaded|
    requires DeliverySized(groups, |loaded|, 0)
    ensures Unloaded(groups, loaded, 0, k) == PoppedOff(loaded, k)
  {
    if k > 0 {
      UnloadedPopsOff(groups, loaded, k - 1);
      UnloadedSingle(groups, loaded, k);
    }
  }

  /** With l = 0 delivery step k takes the top off the stack. */
  lemma UnloadedSingle(groups: seq<seq<Pair>>, loaded: seq<int>, k: nat)
    requires 1 <= k <= |groups| && k <= |loaded|
    requires DeliverySized(groups, |loaded|, 0)
    ensures Unloaded(groups, loaded, 0, k) == TakeTopOff(Unloaded(groups, loaded, 0, k - 1))
  {
    UnloadedNext(groups, loaded, 0, k);
    DeliverSingle(Unloaded(groups, loaded, 0, k - 1), groups[k - 1]);
  }

  /** Taking the top off k times leaves the first m - k items of `loaded`
      and delivers the last k, top first. */
  lemma {:induction false} PoppedOffInOrder(loaded: seq<int>, k: nat)
    requires k <= |loaded|
    ensures PoppedOff(loaded, k) == Phase(loaded[..|loaded| - k], Reverse(loaded[|loaded| - k..]), 0)
  {
    var m := |loaded|;
    if k == 0 {
      assert loaded[..m] == loaded;
    } else {
      PoppedOffInOrder(loaded, k - 1);
      var p := PoppedOff(loaded, k - 1);
      UnloadTop(p.stack, p.delivered, loaded, m - k);
    }
  }

  /** Taking the top off a stack that holds a loading order's prefix extends
      the reversed suffix of that order. */
  lemma UnloadTop(stack: seq<int>, delivered: seq<int>, loaded: seq<int>, m: nat)
    requires m < |loaded|
    requires stack == loaded[..m + 1]
    requires delivered == Reverse(loaded[m + 1..])
    ensures stack[..|stack| - 1] == loaded[..m]
    ensures delivered + [stack[|stack| - 1]] == Reverse(loaded[m..])
  {
    assert loaded[m..][1..] == loaded[m + 1..];
  }

  /** Lines 112-118 for one tour: the sum of its edge lengths. */
  method MeasureTour(dist: seq<seq<int>>, tour: seq<int>, n: nat) returns (length: int)
    requires SquareMatrix(dist, n + 1)
    requires forall i :: 0 <= i < |tour| ==> 0 <= tour[i] <= n
    ensures length == TourLength(dist, tour)
  {
    length := 0;
    if tour == [] {
      return;
    }
    for i := 1 to |tour|
      invariant length == TourLength(dist, tour[..i])
    {
      assert tour[..i + 1][..i] == tour[..i];
      length := length + dist[tour[i - 1]][tour[i]];
    }
    assert tour[..|tour|] == tour;
  }

  /** The tour 0, stops..., 0 visits only depot and items. */
  lemma DepotTourOf(tour: seq<int>, stops: seq<int>, n: nat)
    requires |stops| == n && IsPermutationOf(stops, 1, n + 1)
    requires tour == [0] + stops + [0]
    ensures DepotTour(tour, n)
    ensures tour[1..n + 1] == stops
    ensures forall i :: 0 <= i < n + 2 ==> 0 <= tour[i] <= n
  {
    assert tour[1..n + 1] == stops;
    ItemsInRange(stops, n);
  }

  lemma TwoPhases(a: nat, b: nat, n: nat, l: nat)
    requires a <= n * l && b <= n * l
    ensures a + b <= 2 * n * l
  {
  }

  /** Groups 1..n and n+1..2n of the built groups are the pickup and the
      delivery groups the keys define. */
  lemma StepGroups(groups: seq<seq<Pair>>, keys: seq<int>, n: nat, l: nat,
                   pickups: seq<seq<Pair>>, deliveries: seq<seq<Pair>>)
    requires |keys| >= ChromosomeSize(n, l)
    requires WellGrouped(groups, keys, n, l)
    requires pickups == groups[1..n + 1] && deliveries == groups[n + 1..]
    ensures pickups == PickupGroups(keys, n, l)
    ensures deliveries == DeliveryGroups(keys, n, l)
  {
    forall k | 0 <= k < n
      ensures pickups[k] == PickupGroups(keys, n, l)[k]
      ensures deliveries[k] == DeliveryGroups(keys, n, l)[k]
    {
      assert pickups[k] == groups[k + 1];
      assert deliveries[k] == groups[n + (k + 1)];
    }
  }

  /** Lines 15-110: both tours and the relocations they need. */
  method PlanTours(keys: seq<int>, n: nat, l: nat)
    returns (pickupTour: seq<int>, deliveryTour: seq<int>, relocations: nat)
    requires |keys| >= ChromosomeSize(n, l)
    ensures DepotTour(pickupTour, n) && DepotTour(deliveryTour, n)
    ensures pickupTour[1..n + 1] == SortedLabels(Group(keys, 0, n, 1))
    ensures relocations <= 2 * n * l
    ensures forall i :: 0 <= i < n + 2 ==> 0 <= pickupTour[i] <= n
    ensures forall i :: 0 <= i < n + 2 ==> 0 <= deliveryTour[i] <= n
    ensures l == 0 ==> relocations == 0
    ensures l == 0 ==> deliveryTour[1..n + 1] == Reverse(pickupTour[1..n + 1])
    ensures deliveryTour == [0] + Relocated(keys, n, l, pickupTour[1..n + 1]).0 + [0]
    ensures relocations == Relocated(keys, n, l, pickupTour[1..n + 1]).1
  {
    pickupTour := PickupTour(keys, n);
    deliveryTour, relocations := DeliveryTour(keys, n, l, pickupTour[1..n + 1]);
  }

  /** Lines 15-28: the pickup tour visits the items in the order of their
      sorted keys. */
  method PickupTour(keys: seq<int>, n: nat) returns (tour: seq<int>)
    requires n <= |keys|
    ensures DepotTour(tour, n)
    ensures tour[1..n + 1] == SortedLabels(Group(keys, 0, n, 1))
    ensures forall i :: 0 <= i < n + 2 ==> 0 <= tour[i] <= n
  {
    var items := SortedLabels(Group(keys, 0, n, 1));
    tour := [0] + items + [0];
    PickupOrder(keys, n, items, tour);
  }

  lemma PickupOrder(keys: seq<int>, n: nat, items: seq<int>, tour: seq<int>)
    requires n <= |keys|
    requires items == SortedLabels(Group(keys, 0, n, 1)) && tour == [0] + items + [0]
    ensures DepotTour(tour, n) && tour[1..n + 1] == items
    ensures forall i :: 0 <= i < n + 2 ==> 0 <= tour[i] <= n
  {
    SortedGroup(keys, 0, n, 1);
    DepotTourOf(tour, items, n);
  }

  /** Lines 20-110 from the pickup order on: the delivery tour and the
      relocations of both phases. */
  method DeliveryTour(keys: seq<int>, n: nat, l: nat, items: seq<int>)
    returns (tour: seq<int>, relocations: nat)
    requires |keys| >= ChromosomeSize(n, l)
    requires |items| == n && IsPermutationOf(items, 1, n + 1)
    ensures DepotTour(tour, n)
    ensures forall i :: 0 <= i < n + 2 ==> 0 <= tour[i] <= n
    ensures relocations <= 2 * n * l
    ensures l == 0 ==> relocations == 0 && tour[1..n + 1] == Reverse(items)
    ensures tour == [0] + Relocated(keys, n, l, items).0 + [0]
    ensures relocations == Relocated(keys, n, l, items).1
  {
    var delivered;
    delivered, relocations := Relocate(keys, n, l, items);
    tour := [0] + delivered + [0];
    DepotTourOf(tour, delivered, n);
  }

  /** The pickup groups 1..n read from the keys, in step order. */
  function PickupGroups(keys: seq<int>, n: nat, l: nat): (r: seq<seq<Pair>>)
    requires |keys| >= ChromosomeSize(n, l)
    ensures |r| == n
    ensures PickupSized(r, l)
  {
    seq(n, k requires 0 <= k < n => PickupGroup(keys, n, l, k + 1))
  }

  /** The delivery groups 1..n read from the keys, in step order. */
  function DeliveryGroups(keys: seq<int>, n: nat, l: nat): (r: seq<seq<Pair>>)
    requires |keys| >= ChromosomeSize(n, l)
    ensures |r| == n
    ensures DeliverySized(r, n, l)
  {
    seq(n, k requires 0 <= k < n => DeliveryGroup(keys, n, l, k + 1))
  }

  /** The delivery order and the relocations of both phases, step by step:
      the items loaded by the n pickup steps of `Loaded`, then unloaded by
      the n delivery steps of `Unloaded`, each on the groups the keys
      define. */
  function Relocated(keys: seq<int>, n: nat, l: nat, items: seq<int>): (r: (seq<int>, nat))
    requires |keys| >= ChromosomeSize(n, l) && |items| == n
    ensures |r.0| == n
  {
    var loaded := Loaded(PickupGroups(keys, n, l), items, l, n);
    var unloaded := Unloaded(DeliveryGroups(keys, n, l), loaded.stack, l, n);
    (unloaded.delivered, loaded.relocations + unloaded.relocations)
  }

  /** Lines 20-110 after the pickup order: the groups read from the keys,
      the items stacked in pickup order, then unloaded in delivery order,
      with the relocations of both phases. */
  method Relocate(keys: seq<int>, n: nat, l: nat, items: seq<int>)
    returns (delivered: seq<int>, relocations: nat)
    requires |keys| >= ChromosomeSize(n, l)
    requires |items| == n && IsPermutationOf(items, 1, n + 1)
    ensures |delivered| == n && IsPermutationOf(delivered, 1, n + 1)
    ensures relocations <= 2 * n * l
    ensures l == 0 ==> relocations == 0 && delivered == Reverse(items)
    ensures delivered == Relocated(keys, n, l, items).0
    ensures relocations == Relocated(keys, n, l, items).1
  {
    var groups := BuildGroups(keys, n, l);
    var pickups, deliveries := groups[1..n + 1], groups[n + 1..];
    GroupSizes(groups, keys, n, l, pickups, deliveries);
    StepGroups(groups, keys, n, l, pickups, deliveries);
    var stack, pickupRelocations := LoadItems(pickups, items, n, l);
    var deliveryRelocations;
    delivered, deliveryRelocations := UnloadItems(deliveries, stack, n, l);
    relocations := pickupRelocations + deliveryRelocations;
    TwoPhases(pickupRelocations, deliveryRelocations, n, l);
  }

  /** `Decoder::decode` without its solution-file branch. */
  method Decode(keys: seq<int>, n: nat, l: nat, h: int, alpha: real, beta: real,
                pickupDistance: seq<seq<int>>, deliveryDistance: seq<seq<int>>)
    returns (d: Decoding)
    requires |keys| >= ChromosomeSize(n, l)
    requires SquareMatrix(pickupDistance, n + 1)
    requires SquareMatrix(deliveryDistance, n + 1)
    ensures DepotTour(d.pickupTour, n)
    ensures DepotTour(d.deliveryTour, n)
    ensures d.pickupTour[1..n + 1] == SortedLabels(Group(keys, 0, n, 1))
    ensures d.relocations <= 2 * n * l
    ensures forall i :: 0 <= i < n + 2 ==> 0 <= d.pickupTour[i] <= n
    ensures forall i :: 0 <= i < n + 2 ==> 0 <= d.deliveryTour[i] <= n
    ensures d.distance == TourLength(pickupDistance, d.pickupTour)
                          + TourLength(deliveryDistance, d.deliveryTour)
    ensures d.cost == TotalCost(alpha, beta, h, d.distance, d.relocations)
    ensures l == 0 ==> d.relocations == 0
    ensures l == 0 ==> d.deliveryTour[1..n + 1] == Reverse(d.pickupTour[1..n + 1])
    ensures d.deliveryTour == [0] + Relocated(keys, n, l, d.pickupTour[1..n + 1]).0 + [0]
    ensures d.relocations == Relocated(keys, n, l, d.pickupTour[1..n + 1]).1
  {
    var pickupTour, deliveryTour, relocations := PlanTours(keys, n, l);
    var pickupLength := MeasureTour(pickupDistance, pickupTour, n);
    var deliveryLength := MeasureTour(deliveryDistance, deliveryTour, n);
    var distance := pickupLength + deliveryLength;
    var cost := TotalCost(alpha, beta, h, distance, relocations);
    d := Decoding(pickupTour, deliveryTour, relocations, distance, cost);
  }
}
