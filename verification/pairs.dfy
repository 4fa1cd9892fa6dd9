/** Pairs of integers under the lexicographic order that `std::pair`'s
    `operator<` defines, and the ascending sort `std::sort` / `list::sort`
    produce under that order. Because the order is total, the sorted
    arrangement of a multiset is unique, so one insertion sort stands for
    every sort the source performs on pairs. */
module Pairs {

  type Pair = (int, int)

  /** `a < b` for `std::pair`: first components, then second ones. */
  predicate Less(a: Pair, b: Pair) {
    a.0 < b.0 || (a.0 == b.0 && a.1 < b.1)
  }

  predicate LessEq(a: Pair, b: Pair) {
    Less(a, b) || a == b
  }

  predicate Sorted(s: seq<Pair>) {
    forall i, j :: 0 <= i < j < |s| ==> LessEq(s[i], s[j])
  }

  function Firsts(s: seq<Pair>): (r: seq<int>)
    ensures |r| == |s|
    ensures forall i :: 0 <= i < |s| ==> r[i] == s[i].0
  {
    if s == [] then [] else [s[0].0] + Firsts(s[1..])
  }

  function Seconds(s: seq<Pair>): (r: seq<int>)
    ensures |r| == |s|
    ensures forall i :: 0 <= i < |s| ==> r[i] == s[i].1
  {
    if s == [] then [] else [s[0].1] + Seconds(s[1..])
  }

  function Reverse<T>(s: seq<T>): (r: seq<T>)
    ensures |r| == |s|
    ensures forall i :: 0 <= i < |s| ==> r[i] == s[|s| - 1 - i]
  {
    if s == [] then [] else Reverse(s[1..]) + [s[0]]
  }

  /** Reversing moves a last element to the front. */
  lemma {:induction false} ReverseSnoc<T>(s: seq<T>, x: T)
    ensures Reverse(s + [x]) == [x] + Reverse(s)
    decreases |s|
  {
    if s != [] {
      ReverseSnoc(s[1..], x);
      assert (s + [x])[1..] == s[1..] + [x];
    } else {
      assert Reverse([x]) == Reverse([x][1..]) + [x];
    }
  }

  lemma {:induction false} ReverseMultiset<T>(s: seq<T>)
    ensures multiset(Reverse(s)) == multiset(s)
  {
    if s != [] {
      ReverseMultiset(s[1..]);
      assert s == [s[0]] + s[1..];
    }
  }

  lemma SecondsAppend(a: seq<Pair>, b: seq<Pair>)
    ensures Seconds(a + b) == Seconds(a) + Seconds(b)
  {
    var l, r := Seconds(a + b), Seconds(a) + Seconds(b);
    forall i | 0 <= i < |a + b|
      ensures l[i] == r[i]
    {
      if i < |a| {
        assert (a + b)[i] == a[i];
      } else {
        assert (a + b)[i] == b[i - |a|];
      }
    }
  }

  lemma SecondsReverse(s: seq<Pair>)
    ensures Seconds(Reverse(s)) == Reverse(Seconds(s))
    ensures multiset(Seconds(Reverse(s))) == multiset(Seconds(s))
  {
    ReverseMultiset(Seconds(s));
  }

  /** The step of insertion sort that puts a smaller head in front of an
      already sorted insertion result keeps the whole sorted. */
  lemma ConsSorted(h: Pair, s: seq<Pair>, x: Pair, t: seq<Pair>)
    requires Sorted([h] + s)
    requires Less(h, x)
    requires Sorted(t)
    requires multiset(t) == multiset(s) + multiset{x}
    ensures Sorted([h] + t)
  {
    forall k | 0 <= k < |t|
      ensures LessEq(h, t[k])
    {
      assert t[k] in multiset(t);
      if t[k] != x {
        assert t[k] in multiset(s);
        var j :| 0 <= j < |s| && s[j] == t[k];
        assert ([h] + s)[0] == h && ([h] + s)[j + 1] == s[j];
      }
    }
    var r := [h] + t;
    forall i, j | 0 <= i < j < |r|
      ensures LessEq(r[i], r[j])
    {
      if i > 0 {
        assert r[i] == t[i - 1] && r[j] == t[j - 1];
      }
    }
  }

  /** A head that is not above the first element of a sorted sequence keeps
      it sorted. */
  lemma HeadSorted(x: Pair, s: seq<Pair>)
    requires Sorted(s)
    requires s != [] ==> LessEq(x, s[0])
    ensures Sorted([x] + s)
  {
    var r := [x] + s;
    forall i, j | 0 <= i < j < |r|
      ensures LessEq(r[i], r[j])
    {
      if i == 0 {
        assert LessEq(s[0], s[j - 1]);
      } else {
        assert r[i] == s[i - 1] && r[j] == s[j - 1];
      }
    }
  }

  /** Inserts `x` in front of the first element it is not above. */
  function Insert(x: Pair, s: seq<Pair>): (r: seq<Pair>)
    ensures multiset(r) == multiset(s) + multiset{x}
    ensures multiset(Seconds(r)) == multiset(Seconds(s)) + multiset{x.1}
    ensures |r| == |s| + 1
  {
    if s == [] then [x]
    else if LessEq(x, s[0]) then
      SecondsAppend([x], s);
      [x] + s
    else
      var t := Insert(x, s[1..]);
      InsertBehindCounts(x, s, t);
      InsertBehindLabels(x, s, t);
      [s[0]] + t
  }

  /** Inserting into a sorted sequence keeps it sorted. */
  lemma {:induction false} InsertSorted(x: Pair, s: seq<Pair>)
    requires Sorted(s)
    ensures Sorted(Insert(x, s))
  {
    if s != [] {
      if LessEq(x, s[0]) {
        HeadSorted(x, s);
      } else {
        TailSorted(s);
        InsertSorted(x, s[1..]);
        InsertBehind(x, s, Insert(x, s[1..]));
      }
    }
  }

  /** A sorted sequence stays sorted without its head. */
  lemma TailSorted(s: seq<Pair>)
    requires Sorted(s) && s != []
    ensures Sorted(s[1..])
  {
    forall i, j | 0 <= i < j < |s| - 1
      ensures LessEq(s[1..][i], s[1..][j])
    {
      assert s[1..][i] == s[i + 1] && s[1..][j] == s[j + 1];
    }
  }

  /** Inserting behind the head of a sorted sequence whose head is below
      `x` keeps it sorted. */
  lemma InsertBehind(x: Pair, s: seq<Pair>, t: seq<Pair>)
    requires Sorted(s) && s != [] && !LessEq(x, s[0])
    requires Sorted(t)
    requires multiset(t) == multiset(s[1..]) + multiset{x}
    ensures Sorted([s[0]] + t)
  {
    assert s == [s[0]] + s[1..];
    ConsSorted(s[0], s[1..], x, t);
  }

  /** The head followed by what the insertion into the tail holds is what
      `s` and `x` hold together. */
  lemma InsertBehindCounts(x: Pair, s: seq<Pair>, t: seq<Pair>)
    requires s != []
    requires multiset(t) == multiset(s[1..]) + multiset{x}
    ensures multiset([s[0]] + t) == multiset(s) + multiset{x}
  {
    ConsMultiset(s);
  }

  /** The same for the labels. */
  lemma InsertBehindLabels(x: Pair, s: seq<Pair>, t: seq<Pair>)
    requires s != []
    requires multiset(Seconds(t)) == multiset(Seconds(s[1..])) + multiset{x.1}
    ensures multiset(Seconds([s[0]] + t)) == multiset(Seconds(s)) + multiset{x.1}
  {
    SecondsCons(s[0], t);
    SecondsHead(s);
  }

  lemma ConsMultiset<T>(s: seq<T>)
    requires s != []
    ensures multiset(s) == multiset{s[0]} + multiset(s[1..])
  {
    assert s == [s[0]] + s[1..];
  }

  lemma SecondsCons(h: Pair, u: seq<Pair>)
    ensures multiset(Seconds([h] + u)) == multiset{h.1} + multiset(Seconds(u))
  {
    SecondsAppend([h], u);
    assert Seconds([h]) == [h.1];
  }

  lemma SecondsHead(s: seq<Pair>)
    requires s != []
    ensures multiset(Seconds(s)) == multiset{s[0].1} + multiset(Seconds(s[1..]))
  {
    assert Seconds(s) == [s[0].1] + Seconds(s[1..]);
  }

  /** The ascending sort of `s`: the same pairs, and the same labels, in
      the order `SortSorted` states. */
  function Sort(s: seq<Pair>): (r: seq<Pair>)
    ensures multiset(r) == multiset(s)
    ensures multiset(Seconds(r)) == multiset(Seconds(s))
    ensures |r| == |s|
  {
    if s == [] then []
    else
      assert s == [s[0]] + s[1..];
      SecondsAppend([s[0]], s[1..]);
      Insert(s[0], Sort(s[1..]))
  }

  /** The result of `Sort` is sorted. */
  lemma {:induction false} SortSorted(s: seq<Pair>)
    ensures Sorted(Sort(s))
  {
    if s != [] {
      SortSorted(s[1..]);
      InsertSorted(s[0], Sort(s[1..]));
    }
  }

  lemma SplitAt<T>(s: seq<T>, k: nat)
    requires k <= |s|
    ensures s[..k] + s[k..] == s
  {
  }

  lemma TakeSnoc<T>(s: seq<T>, k: nat)
    requires k < |s|
    ensures s[..k + 1] == s[..k] + [s[k]]
  {
  }

  lemma TakeConcat<T>(s: seq<T>, a: nat, b: nat)
    requires a <= b <= |s|
    ensures s[..a] + s[a..b] == s[..b]
  {
  }

  function Min(a: int, b: int): int {
    if a < b then a else b
  }

  /** The integers `lo, lo + 1, ..., hi - 1`. */
  function Range(lo: int, hi: int): (r: seq<int>)
    requires lo <= hi
    ensures |r| == hi - lo
    ensures forall i :: 0 <= i < |r| ==> r[i] == lo + i
  {
    seq(hi - lo, i => lo + i)
  }

  /** `s` holds each of `lo, ..., hi - 1` exactly once. */
  predicate IsPermutationOf(s: seq<int>, lo: int, hi: int)
    requires lo <= hi
  {
    multiset(s) == multiset(Range(lo, hi))
  }

  lemma {:induction false} InRange(x: int, lo: int, hi: int)
    requires lo <= hi
    requires x in multiset(Range(lo, hi))
    ensures lo <= x < hi
  {
    var r := Range(lo, hi);
    assert x in r;
  }
}
