/** The Pareto archive of (distance, relocations) pairs kept by the
    bi-objective runs (`NonDominatedSet`, src/non_dominated_set.h). Both
    objectives are minimised; the archive is a list in insertion order. */
module NonDominatedSet {
  import opened Wrappers
  import opened Pairs

  /** a is at least as good as b in both objectives and better in one. */
  predicate Dominates(a: Pair, b: Pair) {
    a.0 <= b.0 && a.1 <= b.1 && a != b
  }

  /** `getRelation` (lines 20-41): 1 when a dominates b, -1 when b dominates
      a, 0 when they are equal or incomparable. The running verdict `val`
      of the source is threaded through both coordinates. */
  function Relation(a: Pair, b: Pair): (r: int)
    ensures r == 1 <==> Dominates(a, b)
    ensures r == -1 <==> Dominates(b, a)
    ensures r == 0 <==> !Dominates(a, b) && !Dominates(b, a)
  {
    var val := if a.0 < b.0 then 1 else if a.0 > b.0 then -1 else 0;
    if a.1 < b.1 then (if val == -1 then 0 else 1)
    else if a.1 > b.1 then (if val == 1 then 0 else -1)
    else val
  }

  /** The relation is antisymmetric and irreflexive. */
  lemma RelationAntisymmetric(a: Pair, b: Pair)
    ensures Relation(a, b) == -Relation(b, a)
    ensures Relation(a, a) == 0
  {
  }

  /** No member dominates another and no member occurs twice. */
  predicate MutuallyNonDominated(archive: seq<Pair>) {
    forall i, j :: 0 <= i < |archive| && 0 <= j < |archive| && i != j ==>
      archive[i] != archive[j] && !Dominates(archive[i], archive[j])
  }

  /** Some member equals s or dominates it: `add` keeps the archive. */
  predicate Rejects(archive: seq<Pair>, s: Pair) {
    exists i :: 0 <= i < |archive| && (archive[i] == s || Dominates(archive[i], s))
  }

  // ---------------------------------------------------------------------
  // `add` as written
  // ---------------------------------------------------------------------

  /** The loop of lines 47-61 with the iterator between `front` (already
      passed) and `rest`. After `it = allNDS.erase(it)` the loop's `++it`
      also steps over the element that followed the erased one; when the
      erased element was the last, that increment moves past `end()`, which
      is undefined behaviour and is modelled as None. */
  function ScanAsWritten(front: seq<Pair>, rest: seq<Pair>, s: Pair): (r: Option<seq<Pair>>)
    decreases |rest|
  {
    if rest == [] then Some(front + [s])
    else
      var rel := Relation(s, rest[0]);
      if rel == -1 || (rel == 0 && s == rest[0]) then Some(front + rest)
      else if rel == 1 then
        if |rest| == 1 then None
        else ScanAsWritten(front + [rest[1]], rest[2..], s)
      else ScanAsWritten(front + [rest[0]], rest[1..], s)
  }

  /** `NonDominatedSet::add` as written (lines 43-64). */
  function AddAsWritten(archive: seq<Pair>, s: Pair): Option<seq<Pair>> {
    ScanAsWritten([], archive, s)
  }

  /** What the scan as written always does: when no member rejects s it
      appends s at the end; the members it passed and every member
      incomparable with s survive. */
  lemma {:induction false} ScanAsWrittenShape(front: seq<Pair>, rest: seq<Pair>, s: Pair)
    ensures ScanAsWritten(front, rest, s).Some? ==>
      var r := ScanAsWritten(front, rest, s).value;
      && (!Rejects(rest, s) ==> r != [] && r[|r| - 1] == s)
      && (forall x :: x in front ==> x in r)
      && (forall x :: x in rest && x != s && Relation(s, x) == 0 ==> x in r)
    decreases |rest|
  {
    if rest != [] {
      var rel := Relation(s, rest[0]);
      if rel == -1 || (rel == 0 && s == rest[0]) {
      } else if rel == 1 {
        if |rest| > 1 {
          var front', rest' := front + [rest[1]], rest[2..];
          assert ScanAsWritten(front, rest, s) == ScanAsWritten(front', rest', s);
          ScanAsWrittenShape(front', rest', s);
          assert forall x :: x in front ==> x in front';
          assert forall x :: x in rest ==> x == rest[0] || x in front' || x in rest';
          RejectsSuffix(rest, 2, s);
        }
      } else {
        var front', rest' := front + [rest[0]], rest[1..];
        assert ScanAsWritten(front, rest, s) == ScanAsWritten(front', rest', s);
        ScanAsWrittenShape(front', rest', s);
        assert forall x :: x in front ==> x in front';
        assert forall x :: x in rest ==> x in front' || x in rest';
        RejectsSuffix(rest, 1, s);
      }
    }
  }

  /** A suffix that rejects s makes the whole list reject it. */
  lemma RejectsSuffix(archive: seq<Pair>, k: nat, s: Pair)
    requires k <= |archive|
    ensures Rejects(archive[k..], s) ==> Rejects(archive, s)
  {
    if Rejects(archive[k..], s) {
      var i :| 0 <= i < |archive[k..]| && (archive[k..][i] == s || Dominates(archive[k..][i], s));
      assert archive[k + i] == archive[k..][i];
    }
  }

  /** When no remaining member is dominated by s nothing is erased, so a
      rejecting member is reached and the list is returned unchanged. */
  lemma {:induction false} ScanAsWrittenRejects(front: seq<Pair>, rest: seq<Pair>, s: Pair)
    requires Rejects(rest, s)
    requires forall i :: 0 <= i < |rest| ==> !Dominates(s, rest[i])
    ensures ScanAsWritten(front, rest, s) == Some(front + rest)
    decreases |rest|
  {
    if rest[0] != s && !Dominates(rest[0], s) {
      var i :| 0 <= i < |rest| && (rest[i] == s || Dominates(rest[i], s));
      assert 0 <= i - 1 < |rest[1..]| && rest[1..][i - 1] == rest[i];
      ScanAsWrittenRejects(front + [rest[0]], rest[1..], s);
      assert front + [rest[0]] + rest[1..] == front + rest;
    }
  }

  /** In a mutually non-dominated archive a pair that is equal to or
      dominated by a member dominates no member. */
  lemma RejectedDominatesNothing(archive: seq<Pair>, s: Pair)
    requires MutuallyNonDominated(archive)
    requires Rejects(archive, s)
    ensures forall i :: 0 <= i < |archive| ==> !Dominates(s, archive[i])
  {
    var m :| 0 <= m < |archive| && (archive[m] == s || Dominates(archive[m], s));
    forall i | 0 <= i < |archive|
      ensures !Dominates(s, archive[i])
    {
      if Dominates(s, archive[i]) {
        assert false;
      }
    }
  }

  /** Lines 49-58: a pair equal to or dominated by a member of a mutually
      non-dominated archive leaves it unchanged. */
  lemma AddAsWrittenRejects(archive: seq<Pair>, s: Pair)
    requires MutuallyNonDominated(archive)
    requires Rejects(archive, s)
    ensures AddAsWritten(archive, s) == Some(archive)
  {
    RejectedDominatesNothing(archive, s);
    ScanAsWrittenRejects([], archive, s);
    assert [] + archive == archive;
  }

  /** Lines 53-63: members incomparable with s are never removed, and a
      pair no member rejects ends up last. */
  lemma AddAsWrittenKeeps(archive: seq<Pair>, s: Pair)
    requires AddAsWritten(archive, s).Some?
    ensures forall x :: x in archive && x != s && Relation(s, x) == 0 ==>
      x in AddAsWritten(archive, s).value
    ensures !Rejects(archive, s) ==>
      var r := AddAsWritten(archive, s).value;
      r != [] && r[|r| - 1] == s
  {
    ScanAsWrittenShape([], archive, s);
    assert [] + archive == archive;
  }

  /** Two consecutive dominated members: the second is skipped and stays,
      and the new pair, which dominates it, is appended. */
  lemma AddAsWrittenSkips()
    ensures MutuallyNonDominated([(2, 3), (3, 2), (0, 5)])
    ensures AddAsWritten([(2, 3), (3, 2), (0, 5)], (1, 1)) == Some([(3, 2), (0, 5), (1, 1)])
    ensures !MutuallyNonDominated([(3, 2), (0, 5), (1, 1)])
  {
    var archive := [(2, 3), (3, 2), (0, 5)];
    assert archive[2..] == [(0, 5)] && [(0, 5)][1..] == [];
    assert Relation((1, 1), (2, 3)) == 1 && Relation((1, 1), (0, 5)) == 0;
    assert [] + [archive[1]] == [(3, 2)] && [(3, 2)] + [(0, 5)] == [(3, 2), (0, 5)];
    assert AddAsWritten(archive, (1, 1)) == ScanAsWritten([(3, 2)], [(0, 5)], (1, 1));
    assert ScanAsWritten([(3, 2)], [(0, 5)], (1, 1)) == ScanAsWritten([(3, 2), (0, 5)], [], (1, 1));
    var r := [(3, 2), (0, 5), (1, 1)];
    assert [(3, 2), (0, 5)] + [(1, 1)] == r;
    assert r[2] != r[0] && Dominates(r[2], r[0]);
  }

  /** Erasing the last member increments past the end of the list. */
  lemma AddAsWrittenPastEnd()
    ensures MutuallyNonDominated([(1, 1)])
    ensures AddAsWritten([(1, 1)], (0, 0)) == None
  {
  }

  // ---------------------------------------------------------------------
  // `add` as intended
  // ---------------------------------------------------------------------

  /** The same loop with the iterator left on the element after an erased
      one, so that every member is compared with s. */
  function Scan(front: seq<Pair>, rest: seq<Pair>, s: Pair): seq<Pair>
    decreases |rest|
  {
    if rest == [] then front + [s]
    else
      var rel := Relation(s, rest[0]);
      if rel == -1 || (rel == 0 && s == rest[0]) then front + rest
      else if rel == 1 then Scan(front, rest[1..], s)
      else Scan(front + [rest[0]], rest[1..], s)
  }

  /** The members s does not dominate, in their order. */
  function Undominated(archive: seq<Pair>, s: Pair): (r: seq<Pair>)
    ensures forall x :: x in r <==> x in archive && !Dominates(s, x)
    ensures |r| <= |archive|
  {
    if archive == [] then []
    else if Dominates(s, archive[0]) then Undominated(archive[1..], s)
    else [archive[0]] + Undominated(archive[1..], s)
  }

  /** `add` with the erase fixed (lines 43-64). */
  function Add(archive: seq<Pair>, s: Pair): seq<Pair> {
    Scan([], archive, s)
  }

  /** The scan either stops at a rejecting member, leaving the list alone,
      or drops every member s dominates and appends s. */
  lemma {:induction false} ScanSpec(front: seq<Pair>, rest: seq<Pair>, s: Pair)
    requires forall i :: 0 <= i < |rest| ==> Rejects(rest, s) ==> !Dominates(s, rest[i])
    ensures Rejects(rest, s) ==> Scan(front, rest, s) == front + rest
    ensures !Rejects(rest, s) ==> Scan(front, rest, s) == front + Undominated(rest, s) + [s]
    decreases |rest|
  {
    if rest != [] {
      var rel := Relation(s, rest[0]);
      var tail := rest[1..];
      assert Rejects(tail, s) ==> Rejects(rest, s) by {
        if Rejects(tail, s) {
          var i :| 0 <= i < |tail| && (tail[i] == s || Dominates(tail[i], s));
          assert rest[i + 1] == tail[i];
        }
      }
      assert !(rest[0] == s || Dominates(rest[0], s)) ==> (Rejects(rest, s) ==> Rejects(tail, s)) by {
        if !(rest[0] == s || Dominates(rest[0], s)) && Rejects(rest, s) {
          var i :| 0 <= i < |rest| && (rest[i] == s || Dominates(rest[i], s));
          assert i != 0;
          assert tail[i - 1] == rest[i];
        }
      }
      if rel == -1 || (rel == 0 && s == rest[0]) {
        assert rest[0] == s || Dominates(rest[0], s);
        assert Rejects(rest, s);
      } else if rel == 1 {
        assert Dominates(s, rest[0]);
        assert !Rejects(rest, s);
        assert !Rejects(tail, s);
        ScanSpec(front, tail, s);
      } else {
        assert forall i :: 0 <= i < |tail| ==> tail[i] == rest[i + 1];
        ScanSpec(front + [rest[0]], tail, s);
        if Rejects(rest, s) {
          assert front + [rest[0]] + tail == front + rest;
        } else {
          assert front + [rest[0]] + Undominated(tail, s) + [s]
              == front + Undominated(rest, s) + [s];
        }
      }
    }
  }

  /** The intended `add` on a mutually non-dominated archive: a rejected
      pair leaves it unchanged; otherwise s replaces every member it
      dominates and is appended at the end. */
  lemma AddSpec(archive: seq<Pair>, s: Pair)
    requires MutuallyNonDominated(archive)
    ensures Rejects(archive, s) ==> Add(archive, s) == archive
    ensures !Rejects(archive, s) ==> Add(archive, s) == Undominated(archive, s) + [s]
  {
    if Rejects(archive, s) {
      RejectedDominatesNothing(archive, s);
    }
    ScanSpec([], archive, s);
    assert [] + archive == archive;
    assert [] + Undominated(archive, s) + [s] == Undominated(archive, s) + [s];
  }

  /** Undominated keeps the members' order, so it keeps distinct positions
      distinct. */
  lemma {:induction false} UndominatedSubsequence(archive: seq<Pair>, s: Pair)
    requires MutuallyNonDominated(archive)
    ensures MutuallyNonDominated(Undominated(archive, s))
  {
    if archive != [] {
      var tail := archive[1..];
      assert MutuallyNonDominated(tail) by {
        forall i, j | 0 <= i < |tail| && 0 <= j < |tail| && i != j
          ensures tail[i] != tail[j] && !Dominates(tail[i], tail[j])
        {
          assert tail[i] == archive[i + 1] && tail[j] == archive[j + 1];
        }
      }
      UndominatedSubsequence(tail, s);
      if !Dominates(s, archive[0]) {
        var u := Undominated(tail, s);
        var r := [archive[0]] + u;
        forall i, j | 0 <= i < |r| && 0 <= j < |r| && i != j
          ensures r[i] != r[j] && !Dominates(r[i], r[j])
        {
          if i == 0 {
            assert r[j] in u;
            HeadApart(archive, r[j]);
          } else if j == 0 {
            assert r[i] in u;
            HeadApart(archive, r[i]);
          } else {
            assert r[i] == u[i - 1] && r[j] == u[j - 1];
          }
        }
      }
    }
  }

  /** The head of a mutually non-dominated list is apart from the rest. */
  lemma HeadApart(archive: seq<Pair>, x: Pair)
    requires MutuallyNonDominated(archive) && archive != []
    requires x in archive[1..]
    ensures x != archive[0] && !Dominates(x, archive[0]) && !Dominates(archive[0], x)
  {
    var k :| 0 <= k < |archive[1..]| && archive[1..][k] == x;
    assert archive[k + 1] == x;
  }

  /** The intended `add` keeps the archive mutually non-dominated. */
  lemma AddPreserves(archive: seq<Pair>, s: Pair)
    requires MutuallyNonDominated(archive)
    ensures MutuallyNonDominated(Add(archive, s))
  {
    AddSpec(archive, s);
    if !Rejects(archive, s) {
      var u := Undominated(archive, s);
      UndominatedSubsequence(archive, s);
      var r := u + [s];
      forall i, j | 0 <= i < |r| && 0 <= j < |r| && i != j
        ensures r[i] != r[j] && !Dominates(r[i], r[j])
      {
        if i < |u| && j < |u| {
          assert r[i] == u[i] && r[j] == u[j];
        } else if i < |u| {
          assert r[i] in archive && r[j] == s;
          InSetNotRejecting(archive, s, r[i]);
        } else {
          assert r[j] in archive && r[i] == s;
          assert r[j] in u;
        }
      }
    }
  }

  lemma InSetNotRejecting(archive: seq<Pair>, s: Pair, x: Pair)
    requires !Rejects(archive, s) && x in archive
    ensures x != s && !Dominates(x, s)
  {
    var k :| 0 <= k < |archive| && archive[k] == x;
  }

  /** Where the two versions agree: when s dominates no member nothing is
      erased, so the skip never happens. */
  lemma {:induction false} ScanAgrees(front: seq<Pair>, rest: seq<Pair>, s: Pair)
    requires forall i :: 0 <= i < |rest| ==> !Dominates(s, rest[i])
    ensures ScanAsWritten(front, rest, s) == Some(Scan(front, rest, s))
    decreases |rest|
  {
    if rest != [] {
      assert forall i :: 0 <= i < |rest[1..]| ==> rest[1..][i] == rest[i + 1];
      ScanAgrees(front + [rest[0]], rest[1..], s);
    }
  }

  /** `saveSet` (line 69) writes the archive in `list::sort` order:
      ascending lexicographically, first objective first. */
  function SaveOrder(archive: seq<Pair>): (r: seq<Pair>)
    ensures Sorted(r)
    ensures multiset(r) == multiset(archive)
  {
    SortSorted(archive);
    Sort(archive)
  }
}
