/** The instance data of one run (`Data::readData`, src/data.cpp): the
    parameters kept verbatim, the area names taken from the two file
    names, and the two distance matrices.  Reading the coordinate files
    is replaced by the sequences of points they hold (or `None` for a
    file that cannot be opened), and the rounded Euclidean distance
    `(int)(0.5 + sqrt(dx * dx + dy * dy))` by a parameter. */
module Instance {
  import opened Wrappers
  import opened Pairs
  import opened Distances

  // ---------------------------------------------------------------------
  // Area names (lines 16-33)
  // ---------------------------------------------------------------------

  predicate IsDigit(c: char) {
    '0' <= c <= '9'
  }

  /** The loop that overwrites every non-digit of a file name with a blank. */
  function Blank(s: string): (r: string)
    ensures |r| == |s|
    ensures forall i :: 0 <= i < |s| ==> (IsDigit(s[i]) ==> r[i] == s[i]) && (!IsDigit(s[i]) ==> r[i] == ' ')
  {
    if s == [] then [] else [if IsDigit(s[0]) then s[0] else ' '] + Blank(s[1..])
  }

  /** The text with its leading blanks skipped, as `>>` does first. */
  function SkipBlanks(s: string): (r: string)
    ensures |r| <= |s| && (r == [] || r[0] != ' ')
    ensures r == s[|s| - |r|..]
  {
    if s == [] || s[0] != ' ' then s else SkipBlanks(s[1..])
  }

  /** The characters up to the next blank, and what follows them. */
  function SplitWord(s: string): (r: (string, string))
    ensures r.0 + r.1 == s
    ensures forall i :: 0 <= i < |r.0| ==> r.0[i] != ' '
    ensures r.1 == [] || r.1[0] == ' '
    ensures s != [] && s[0] != ' ' ==> r.0 != []
  {
    if s == [] || s[0] == ' ' then ([], s)
    else
      var tail := SplitWord(s[1..]);
      assert [s[0]] + s[1..] == s;
      ([s[0]] + tail.0, tail.1)
  }

  /** `stream >> word` on a buffer of digits and blanks: the next word
      and the unread rest, or `None` when only blanks are left. */
  function NextWord(s: string): (r: Option<(string, string)>)
    ensures r.None? <==> forall i :: 0 <= i < |s| ==> s[i] == ' '
    ensures r.Some? ==> |r.value.0| > 0 && |r.value.1| < |s|
    ensures r.Some? ==> forall i :: 0 <= i < |r.value.0| ==> r.value.0[i] != ' ' && r.value.0[i] in s
  {
    var t := SkipBlanks(s);
    SkipBlanksAllBlank(s);
    if t == [] then None
    else
      var (w, rest) := SplitWord(t);
      forall i | 0 <= i < |w|
        ensures w[i] in s
      {
        assert w[i] == t[i] == s[|s| - |t| + i];
      }
      Some((w, rest))
  }

  lemma {:induction false} SkipBlanksAllBlank(s: string)
    ensures SkipBlanks(s) == [] <==> forall i :: 0 <= i < |s| ==> s[i] == ' '
  {
    if s != [] && s[0] == ' ' {
      SkipBlanksAllBlank(s[1..]);
      assert forall i :: 1 <= i < |s| ==> s[i] == s[1..][i - 1];
    }
  }

  /** Every word read from a blanked file name is a non-empty run of
      digits of that name. */
  lemma WordsAreDigits(name: string)
    ensures var r := NextWord(Blank(name));
      r.Some? ==> forall i :: 0 <= i < |r.value.0| ==> IsDigit(r.value.0[i])
  {
    var b := Blank(name);
    var r := NextWord(b);
    if r.Some? {
      forall i | 0 <= i < |r.value.0|
        ensures IsDigit(r.value.0[i])
      {
        var c := r.value.0[i];
        var k :| 0 <= k < |b| && b[k] == c;
      }
    }
  }

  /** The name the source builds from a word: a failed `>>` leaves the
      blanked text itself in `line`. */
  function AreaName(word: Option<(string, string)>, blanked: string, suffix: string): string {
    if word.Some? then "R" + word.value.0 + suffix else "R" + blanked + suffix
  }

  /** The pickup area name and what the shared stream still holds after
      it: the rest of the blanked pickup file name. */
  function PickupArea(pickupFile: string): (r: (string, string))
  {
    var blanked := Blank(pickupFile);
    var word := NextWord(blanked);
    (AreaName(word, blanked, "p"), if word.Some? then word.value.1 else [])
  }

  /** The delivery area name as written: `ss.clear()` resets only the
      stream's flags, so the blanked delivery file name is appended to
      the unread rest of the pickup file name and the next word may come
      from the pickup file name. */
  function DeliveryAreaAsWritten(pickupFile: string, deliveryFile: string): string {
    var residue := PickupArea(pickupFile).1;
    var blanked := Blank(deliveryFile);
    AreaName(NextWord(residue + blanked), blanked, "d")
  }

  /** The delivery area name read from the delivery file name alone. */
  function DeliveryArea(deliveryFile: string): string {
    var blanked := Blank(deliveryFile);
    AreaName(NextWord(blanked), blanked, "d")
  }

  /** Both readings agree whenever the pickup file name holds a single
      run of digits, as the repository's own `../instances/R05p.tsp`
      names do. */
  lemma DeliveryAreaAgrees(pickupFile: string, deliveryFile: string)
    requires var w := NextWord(Blank(pickupFile)); w.Some? && NextWord(w.value.1).None?
    ensures DeliveryAreaAsWritten(pickupFile, deliveryFile) == DeliveryArea(deliveryFile)
  {
    var residue := PickupArea(pickupFile).1;
    var blanked := Blank(deliveryFile);
    BlankPrefix(residue, blanked);
  }

  /** Blanks in front of a buffer do not change the word read from it. */
  lemma {:induction false} BlankPrefix(blanks: string, s: string)
    requires forall i :: 0 <= i < |blanks| ==> blanks[i] == ' '
    ensures NextWord(blanks + s) == NextWord(s)
  {
    SkipBlanksAppend(blanks, s);
    SkipBlanksAllBlank(s);
    SkipBlanksAllBlank(blanks + s);
  }

  lemma {:induction false} SkipBlanksAppend(blanks: string, s: string)
    requires forall i :: 0 <= i < |blanks| ==> blanks[i] == ' '
    ensures SkipBlanks(blanks + s) == SkipBlanks(s)
  {
    if blanks != [] {
      assert (blanks + s)[0] == ' ';
      assert (blanks + s)[1..] == blanks[1..] + s;
      assert forall i :: 0 <= i < |blanks[1..]| ==> blanks[1..][i] == blanks[i + 1];
      SkipBlanksAppend(blanks[1..], s);
    } else {
      assert blanks + s == s;
    }
  }

  /** A word followed by a blank, or by nothing, is split off whole. */
  lemma {:induction false} SplitWordOf(w: string, rest: string)
    requires forall i :: 0 <= i < |w| ==> w[i] != ' '
    requires rest == [] || rest[0] == ' '
    ensures SplitWord(w + rest) == (w, rest)
    decreases |w|
  {
    if w != [] {
      assert (w + rest)[0] == w[0] != ' ';
      assert (w + rest)[1..] == w[1..] + rest;
      SplitWordOf(w[1..], rest);
      assert [w[0]] + w[1..] == w;
    } else {
      assert w + rest == rest;
    }
  }

  /** After any blanks, a word followed by a blank or by nothing is the
      next word read. */
  lemma WordAt(blanks: string, w: string, rest: string)
    requires forall i :: 0 <= i < |blanks| ==> blanks[i] == ' '
    requires |w| >= 1 && forall i :: 0 <= i < |w| ==> w[i] != ' '
    requires rest == [] || rest[0] == ' '
    ensures NextWord(blanks + (w + rest)) == Some((w, rest))
  {
    BlankPrefix(blanks, w + rest);
    SplitWordOf(w, rest);
    assert (w + rest)[0] == w[0] != ' ';
    assert SkipBlanks(w + rest) == w + rest;
  }

  /** With a second run of digits in the pickup file name the delivery
      area is named after it: the files "R5p2" and "R5d2" give the areas
      "R5p" and "R2d" instead of "R5d". */
  lemma DeliveryAreaAsWrittenMisreads(pickupFile: string, deliveryFile: string)
    requires pickupFile == "R5p2" && deliveryFile == "R5d2"
    ensures PickupArea(pickupFile).0 == "R5p"
    ensures DeliveryAreaAsWritten(pickupFile, deliveryFile) == "R2d"
    ensures DeliveryArea(deliveryFile) == "R5d"
  {
    PickupAreaOfR5(pickupFile);
    DeliveryAreaOfR5(deliveryFile);
    var residue, blanked := PickupArea(pickupFile).1, Blank(deliveryFile);
    assert residue + blanked == " 2 5 2";
    ResidueWord();
    var word := NextWord(residue + blanked);
    assert word == Some(("2", " 5 2"));
    NameLiterals();
    assert AreaName(word, blanked, "d") == "R2d";
  }

  lemma PickupAreaOfR5(pickupFile: string)
    requires pickupFile == "R5p2"
    ensures PickupArea(pickupFile) == ("R5p", " 2")
  {
    BlankR5(pickupFile);
    FirstWordOfR5(" 5 2");
    NameLiterals();
  }

  lemma DeliveryAreaOfR5(deliveryFile: string)
    requires deliveryFile == "R5d2"
    ensures Blank(deliveryFile) == " 5 2" && DeliveryArea(deliveryFile) == "R5d"
  {
    BlankR5(deliveryFile);
    FirstWordOfR5(" 5 2");
    NameLiterals();
  }

  lemma BlankR5(name: string)
    requires name == "R5p2" || name == "R5d2"
    ensures Blank(name) == " 5 2"
  {
  }

  lemma NameLiterals()
    ensures "R" + "5" + "p" == "R5p" && "R" + "5" + "d" == "R5d" && "R" + "2" + "d" == "R2d"
  {
  }

  /** The word "5" read from the blanked name " 5 2", leaving " 2". */
  lemma FirstWordOfR5(b: string)
    requires b == " 5 2"
    ensures NextWord(b) == Some(("5", " 2"))
  {
    assert b == " " + ("5" + " 2");
    WordAt(" ", "5", " 2");
  }

  /** The word "2" read from the residue " 2" followed by " 5 2". */
  lemma ResidueWord()
    ensures NextWord(" 2 5 2") == Some(("2", " 5 2"))
  {
    assert " 2 5 2" == " " + ("2" + " 5 2");
    WordAt(" ", "2", " 5 2");
  }

  // ---------------------------------------------------------------------
  // Distance matrices (lines 54-116)
  // ---------------------------------------------------------------------

  type Point = (real, real)

  /** The `while (fin >> id >> x >> y)` loop: every point is read, but
      only the first n + 1 are kept. */
  method KeepPoints(read: seq<Point>, n: nat) returns (points: seq<Point>)
    ensures points == read[..Min(|read|, n + 1)]
  {
    points := [];
    for i := 0 to |read|
      invariant points == read[..Min(i, n + 1)]
    {
      if |points| < n + 1 {
        points := points + [read[i]];
      }
    }
  }

  /** The points of a file that the matrix uses: at most the first n + 1. */
  function Kept(read: seq<Point>, n: nat): (r: seq<Point>)
    ensures |r| <= n + 1 && r <= read
    ensures |read| <= n + 1 ==> r == read
  {
    if |read| <= n + 1 then read else read[..n + 1]
  }

  /** One coordinate file's matrix: its first n + 1 points, filled in. */
  method PointMatrix(read: seq<Point>, n: nat, metric: (Point, Point) -> int) returns (m: seq<seq<int>>)
    ensures Filled(m, Kept(read, n), n, metric)
  {
    var kept := KeepPoints(read, n);
    m := FillMatrix(kept, n, metric);
  }

  /** The entry the fill loops leave at (a, b): the rounded distance of
      the two points when both exist, computed once from the lower index
      to the higher, and the zero of `resize` otherwise. */
  function Entry(points: seq<Point>, metric: (Point, Point) -> int, a: nat, b: nat): int {
    if a < |points| && b < |points| then
      if a <= b then metric(points[a], points[b]) else metric(points[b], points[a])
    else 0
  }

  /** m is the (n + 1) x (n + 1) matrix of the given points. */
  ghost predicate Filled(m: seq<seq<int>>, points: seq<Point>, n: nat, metric: (Point, Point) -> int) {
    && SquareMatrix(m, n + 1)
    && forall a, b :: 0 <= a <= n && 0 <= b <= n ==> m[a][b] == Entry(points, metric, a, b)
  }

  /** Both fill loops: a zero (n + 1) x (n + 1) matrix, then for every
      pair i <= j of kept points the value stored at [i][j] and [j][i]. */
  method FillMatrix(points: seq<Point>, n: nat, metric: (Point, Point) -> int) returns (m: seq<seq<int>>)
    requires |points| <= n + 1
    ensures Filled(m, points, n, metric)
  {
    m := seq(n + 1, _ => seq(n + 1, _ => 0));
    for i := 0 to |points|
      invariant SquareMatrix(m, n + 1)
      invariant forall a, b :: 0 <= a <= n && 0 <= b <= n ==>
        m[a][b] == (if Min(a, b) < i then Entry(points, metric, a, b) else 0)
    {
      m := FillRow(m, points, n, metric, i);
    }
  }

  /** The inner loop for one i: the pairs (i, j) for j = i, i + 1, ... */
  method FillRow(m0: seq<seq<int>>, points: seq<Point>, n: nat, metric: (Point, Point) -> int, i: nat)
    returns (m: seq<seq<int>>)
    requires |points| <= n + 1 && i < |points|
    requires SquareMatrix(m0, n + 1)
    requires forall a, b :: 0 <= a <= n && 0 <= b <= n ==>
      m0[a][b] == (if Min(a, b) < i then Entry(points, metric, a, b) else 0)
    ensures SquareMatrix(m, n + 1)
    ensures forall a, b :: 0 <= a <= n && 0 <= b <= n ==>
      m[a][b] == (if Min(a, b) < i + 1 then Entry(points, metric, a, b) else 0)
  {
    m := m0;
    for j := i to |points|
      invariant SquareMatrix(m, n + 1)
      invariant forall a, b :: 0 <= a <= n && 0 <= b <= n ==>
        m[a][b] == (if Min(a, b) < i || (Min(a, b) == i && Max(a, b) < j) then Entry(points, metric, a, b) else 0)
    {
      var v := metric(points[i], points[j]);
      m := Store(m, i, j, v);
      m := Store(m, j, i, v);
    }
  }

  function Max(a: int, b: int): int {
    if a < b then b else a
  }

  /** One assignment `m[a][b] = v`. */
  function Store(m: seq<seq<int>>, a: nat, b: nat, v: int): (r: seq<seq<int>>)
    requires SquareMatrix(m, |m|) && a < |m| && b < |m|
    ensures SquareMatrix(r, |m|) && |r| == |m|
    ensures forall x, y :: 0 <= x < |m| && 0 <= y < |m| ==>
      r[x][y] == if x == a && y == b then v else m[x][y]
  {
    m[a := m[a][b := v]]
  }

  /** The filled matrix is symmetric with a zero diagonal when the
      rounded distance of a point to itself is zero. */
  lemma MatrixShape(points: seq<Point>, n: nat, metric: (Point, Point) -> int, m: seq<seq<int>>)
    requires Filled(m, points, n, metric)
    requires forall q: Point :: metric(q, q) == 0
    ensures Symmetric(m)
    ensures forall a :: 0 <= a <= n ==> m[a][a] == 0
  {
  }

  // ---------------------------------------------------------------------
  // The instance (lines 10-116)
  // ---------------------------------------------------------------------

  datatype Data = Data(
    pickupAreaName: string, deliveryAreaName: string,
    numItems: nat, reloadingDepth: nat, relocationCost: int, depot: nat,
    pickupDistance: seq<seq<int>>, deliveryDistance: seq<seq<int>>)

  /** Which coordinate file could not be opened. */
  datatype ReadError = PickupFileUnreadable | DeliveryFileUnreadable

  /** d is what `readData` stores: the parameters verbatim, the depot 0,
      both area names, and for each file the matrix of its first n + 1
      points. */
  ghost predicate ReadAs(d: Data, pickupFile: string, deliveryFile: string, n: nat, l: nat, h: int,
                         pickupPoints: seq<Point>, deliveryPoints: seq<Point>, metric: (Point, Point) -> int) {
    && d.numItems == n && d.reloadingDepth == l && d.relocationCost == h && d.depot == 0
    && d.pickupAreaName == PickupArea(pickupFile).0
    && d.deliveryAreaName == DeliveryAreaAsWritten(pickupFile, deliveryFile)
    && Filled(d.pickupDistance, Kept(pickupPoints, n), n, metric)
    && Filled(d.deliveryDistance, Kept(deliveryPoints, n), n, metric)
  }

  /** `readData`: the parameters verbatim, the depot 0, both area names,
      and for each file the matrix of its first n + 1 points. The delivery
      area is named as the source reads it (`DeliveryAreaAsWritten`);
      when the pickup file name holds a single run of digits, that is the
      name read from the delivery file name alone. */
  method ReadData(pickupFile: string, deliveryFile: string, n: nat, l: nat, h: int,
                  pickupPoints: Option<seq<Point>>, deliveryPoints: Option<seq<Point>>,
                  metric: (Point, Point) -> int)
    returns (r: Result<Data, ReadError>)
    ensures pickupPoints.None? ==> r == Failure(PickupFileUnreadable)
    ensures pickupPoints.Some? && deliveryPoints.None? ==> r == Failure(DeliveryFileUnreadable)
    ensures r.Success? <==> pickupPoints.Some? && deliveryPoints.Some?
    ensures r.Success? ==> ReadAs(r.value, pickupFile, deliveryFile, n, l, h, pickupPoints.value, deliveryPoints.value, metric)
    ensures r.Success? && (var w := NextWord(Blank(pickupFile)); w.Some? && NextWord(w.value.1).None?) ==>
      r.value.deliveryAreaName == DeliveryArea(deliveryFile)
  {
    var (pickupName, _) := PickupArea(pickupFile);
    var deliveryName := DeliveryAreaAsWritten(pickupFile, deliveryFile);
    if pickupPoints.None? {
      return Failure(PickupFileUnreadable);
    }
    var pickupDistance := PointMatrix(pickupPoints.value, n, metric);
    if deliveryPoints.None? {
      return Failure(DeliveryFileUnreadable);
    }
    var deliveryDistance := PointMatrix(deliveryPoints.value, n, metric);
    var w := NextWord(Blank(pickupFile));
    if w.Some? && NextWord(w.value.1).None? {
      DeliveryAreaAgrees(pickupFile, deliveryFile);
    }
    r := Success(Data(pickupName, deliveryName, n, l, h, 0, pickupDistance, deliveryDistance));
  }
}
