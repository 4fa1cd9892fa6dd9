/** The experiment launcher (src/run_all_experiments.py): the grid of
    all parameter combinations and the command line run for each.  The
    processes, the pool and `make` are not modelled; each combination is
    a value and each command a string. */
module Experiments {
  import opened Wrappers
  import Instance
  import Frontend

  // ---------------------------------------------------------------------
  // Reloading depths (lines 9-10)
  // ---------------------------------------------------------------------

  /** A reloading depth of the grid: a number, or "INF". */
  datatype Depth = Finite(value: nat) | Unbounded

  /** "INF" stands for the number of items; a number stays as it is. */
  function ResolveDepth(d: Depth, n: nat): (l: nat)
    ensures d.Unbounded? ==> l == n
    ensures d.Finite? ==> l == d.value
  {
    match d
    case Finite(v) => v
    case Unbounded => n
  }

  /** With at least 6 items, as in the grid, no two depths of the grid
      resolve to the same number: "INF" gives n and the others 1 to 5. */
  lemma ResolvedDepthsDistinct(d1: Depth, d2: Depth, n: nat)
    requires d1 in Depths && d2 in Depths && n >= 6
    ensures ResolveDepth(d1, n) == ResolveDepth(d2, n) <==> d1 == d2
  {
  }

  // ---------------------------------------------------------------------
  // The `%02d` conversion (line 11)
  // ---------------------------------------------------------------------

  predicate AllDigits(s: string) {
    forall i :: 0 <= i < |s| ==> Instance.IsDigit(s[i])
  }

  function DigitChar(d: nat): (c: char)
    requires d < 10
    ensures Instance.IsDigit(c) && c as int - '0' as int == d
  {
    ('0' as int + d) as char
  }

  /** The decimal digits of v, without leading zeros. */
  function Decimal(v: nat): (s: string)
    ensures |s| >= 1 && AllDigits(s)
    ensures (v < 10 <==> |s| == 1) && (10 <= v < 100 ==> |s| == 2)
    decreases v
  {
    if v < 10 then [DigitChar(v)] else Decimal(v / 10) + [DigitChar(v % 10)]
  }

  /** The number a string of digits denotes. */
  function Value(s: string): nat
    requires AllDigits(s)
  {
    if s == [] then 0 else Value(s[..|s| - 1]) * 10 + (s[|s| - 1] as int - '0' as int)
  }

  /** `%02d`: at least two digits, a leading zero below 10, and a wider
      number is never cut. */
  function Pad2(v: nat): (s: string)
    ensures AllDigits(s) && |s| >= 2
    ensures v < 100 <==> |s| == 2
  {
    if v < 10 then "0" + Decimal(v) else Decimal(v)
  }

  lemma {:induction false} DecimalValue(v: nat)
    ensures Value(Decimal(v)) == v
    decreases v
  {
    if v >= 10 {
      DecimalValue(v / 10);
      var s := Decimal(v);
      assert s[..|s| - 1] == Decimal(v / 10);
    }
  }

  lemma {:induction false} LeadingZero(s: string)
    requires AllDigits(s)
    ensures AllDigits("0" + s) && Value("0" + s) == Value(s)
    decreases |s|
  {
    if s != [] {
      LeadingZero(s[..|s| - 1]);
      assert ("0" + s)[..|"0" + s| - 1] == "0" + s[..|s| - 1];
    }
  }

  /** Reading the padded text gives the number back. */
  lemma Pad2Value(v: nat)
    ensures Value(Pad2(v)) == v
  {
    DecimalValue(v);
    if v < 10 {
      LeadingZero(Decimal(v));
    }
  }

  /** 6 becomes "06", 20 stays "20", and 123 keeps all three digits. */
  lemma Pad2Examples()
    ensures Pad2(6) == "06" && Pad2(20) == "20" && Pad2(123) == "123"
  {
    assert Decimal(12) == Decimal(1) + ['2'];
    assert Decimal(123) == Decimal(12) + ['3'];
  }

  // ---------------------------------------------------------------------
  // Paths and the command line (line 11)
  // ---------------------------------------------------------------------

  /** x and y joined by the separator c. */
  function Sep(x: string, c: char, y: string): string {
    x + [c] + y
  }

  /** The text before the first c and the text after it. */
  function Field(s: string, c: char): (r: Option<(string, string)>)
    ensures r.None? <==> c !in s
    ensures r.Some? ==> s == Sep(r.value.0, c, r.value.1) && c !in r.value.0
  {
    if s == [] then None
    else if s[0] == c then Some(([], s[1..]))
    else match Field(s[1..], c) {
      case None => None
      case Some(f) => Some(([s[0]] + f.0, f.1))
    }
  }

  /** Splitting at the first c undoes the joining when x holds no c. */
  lemma {:induction false} FieldSep(x: string, c: char, y: string)
    requires c !in x
    ensures Field(Sep(x, c, y), c) == Some((x, y))
    decreases |x|
  {
    if x != [] {
      assert Sep(x, c, y)[0] == x[0] != c;
      assert Sep(x, c, y)[1..] == Sep(x[1..], c, y);
      FieldSep(x[1..], c, y);
      assert [x[0]] + x[1..] == x;
    } else {
      assert Sep(x, c, y)[1..] == y;
    }
  }

  const Solutions: string := "../solutions/"

  /** `../solutions/<approach>/<area>_<nn>_<ll>_<hh>`: the file is named
      after the area, inside the approach's directory. */
  function OutputPath(approach: string, area: string, n: nat, l: nat, h: nat): string {
    Solutions + Sep(approach, '/', Sep(area, '_', Sep(Pad2(n), '_', Sep(Pad2(l), '_', Pad2(h)))))
  }

  /** Reads an output path back into its approach, area and numbers. */
  function ParsePath(s: string): Option<(string, string, nat, nat, nat)> {
    if |s| < |Solutions| || s[..|Solutions|] != Solutions then None
    else match Field(s[|Solutions|..], '/') {
      case None => None
      case Some(f1) => match Field(f1.1, '_') {
        case None => None
        case Some(f2) => match Field(f2.1, '_') {
          case None => None
          case Some(f3) => match Field(f3.1, '_') {
            case None => None
            case Some(f4) =>
              if AllDigits(f3.0) && AllDigits(f4.0) && AllDigits(f4.1) then
                Some((f1.0, f2.0, Value(f3.0), Value(f4.0), Value(f4.1)))
              else None
          }
        }
      }
    }
  }

  lemma NoDigit(s: string, c: char)
    requires AllDigits(s) && !Instance.IsDigit(c)
    ensures c !in s
  {
  }

  /** The path determines what it was built from, when the approach
      holds no '/' and the area no '_'. */
  lemma PathRoundTrip(approach: string, area: string, n: nat, l: nat, h: nat)
    requires '/' !in approach && '_' !in area
    ensures ParsePath(OutputPath(approach, area, n, l, h)) == Some((approach, area, n, l, h))
  {
    var p3 := Sep(Pad2(l), '_', Pad2(h));
    var p2 := Sep(Pad2(n), '_', p3);
    var p1 := Sep(area, '_', p2);
    var s := OutputPath(approach, area, n, l, h);
    assert s[..|Solutions|] == Solutions && s[|Solutions|..] == Sep(approach, '/', p1);
    FieldSep(approach, '/', p1);
    FieldSep(area, '_', p2);
    NoDigit(Pad2(n), '_');
    NoDigit(Pad2(l), '_');
    FieldSep(Pad2(n), '_', p3);
    FieldSep(Pad2(l), '_', Pad2(h));
    Pad2Value(n);
    Pad2Value(l);
    Pad2Value(h);
  }

  lemma PathInjective(a1: string, r1: string, n1: nat, l1: nat, h1: nat,
                      a2: string, r2: string, n2: nat, l2: nat, h2: nat)
    requires '/' !in a1 && '_' !in r1 && '/' !in a2 && '_' !in r2
    ensures OutputPath(a1, r1, n1, l1, h1) == OutputPath(a2, r2, n2, l2, h2) <==>
      (a1, r1, n1, l1, h1) == (a2, r2, n2, l2, h2)
  {
    PathRoundTrip(a1, r1, n1, l1, h1);
    PathRoundTrip(a2, r2, n2, l2, h2);
  }

  function PickupFile(area: string): string {
    "../instances/" + area + "p.tsp"
  }

  function DeliveryFile(area: string): string {
    "../instances/" + area + "d.tsp"
  }

  /** The words of the command `launcher` runs. */
  function Arguments(approach: string, area: string, n: nat, l: nat, h: nat): (args: seq<string>)
    ensures |args| == 15
  {
    ["./dtsppl",
     "--approach", approach,
     "--pickuparea", PickupFile(area),
     "--deliveryarea", DeliveryFile(area),
     "--n", Pad2(n), "--l", Pad2(l), "--h", Pad2(h),
     "--outputsolution", OutputPath(approach, area, n, l, h)]
  }

  /** Words joined by single blanks. */
  function Join(words: seq<string>): string {
    if |words| == 0 then []
    else if |words| == 1 then words[0]
    else Sep(words[0], ' ', Join(words[1..]))
  }

  /** The command line: the words joined by blanks. */
  function Command(approach: string, area: string, n: nat, l: nat, h: nat): string {
    Join(Arguments(approach, area, n, l, h))
  }

  /** The shell's splitting of a command at its blanks; the commands here
      hold no empty word, so every blank separates two words. */
  function Words(s: string): (words: seq<string>)
    ensures |words| >= 1
    decreases |s|
  {
    match Field(s, ' ') {
      case None => [s]
      case Some(f) => [f.0] + Words(f.1)
    }
  }

  /** Splitting at blanks undoes joining words that hold no blank. */
  lemma {:induction false} WordsJoin(words: seq<string>)
    requires |words| >= 1
    requires forall i :: 0 <= i < |words| ==> ' ' !in words[i]
    ensures Words(Join(words)) == words
  {
    if |words| > 1 {
      FieldSep(words[0], ' ', Join(words[1..]));
      WordsJoin(words[1..]);
    }
  }

  /** Every command the launcher runs for an approach of the grid is
      split back into its fifteen words, and `main` accepts them: it
      counts seven flags, stores each value, reads the two instance files
      and, when both open, runs the solver the approach names. */
  lemma CommandAccepted(approach: string, area: string, n: nat, l: nat, h: nat, opens: string -> bool)
    requires approach in Approaches && Frontend.Spaceless(area)
    ensures Words(Command(approach, area, n, l, h)) == Arguments(approach, area, n, l, h)
    ensures var values := [approach, PickupFile(area), DeliveryFile(area), Pad2(n), Pad2(l), Pad2(h),
                           OutputPath(approach, area, n, l, h)];
      Frontend.MainAction(Arguments(approach, area, n, l, h), opens) == Frontend.Run(Frontend.Options(values), opens)
    ensures opens(PickupFile(area)) && opens(DeliveryFile(area)) ==>
      Frontend.MainAction(Arguments(approach, area, n, l, h), opens).Solve?
  {
    var args := Arguments(approach, area, n, l, h);
    ArgumentsShape(approach, area, n, l, h);
    WordsJoin(args);
    MainOnArguments(args, opens);
    assert [args[2], args[4], args[6], args[8], args[10], args[12], args[14]]
      == [approach, PickupFile(area), DeliveryFile(area), Pad2(n), Pad2(l), Pad2(h), OutputPath(approach, area, n, l, h)];
  }

  /** The launcher's words hold no blank, its flags stand at the odd
      positions in the order `main` lists them, and every value read with
      `%s` is a single word. */
  lemma ArgumentsShape(approach: string, area: string, n: nat, l: nat, h: nat)
    requires approach in Approaches && Frontend.Spaceless(area)
    ensures var args := Arguments(approach, area, n, l, h);
      (forall i :: 0 <= i < |args| ==> ' ' !in args[i]) && LauncherShape(args)
  {
    ArgumentsWords(approach, area, n, l, h);
    ArgumentsNoBlank(approach, area, n, l, h);
  }

  /** The values `main` reads with `%s` are single words. */
  lemma ArgumentsWords(approach: string, area: string, n: nat, l: nat, h: nat)
    requires approach in Approaches && Frontend.Spaceless(area)
    ensures Frontend.Word(approach) && Frontend.Word(PickupFile(area)) && Frontend.Word(DeliveryFile(area))
    ensures Frontend.Word(OutputPath(approach, area, n, l, h))
  {
    assert Frontend.Spaceless(approach);
    SpacelessAppend("../instances/", area);
    SpacelessAppend("../instances/" + area, "p.tsp");
    SpacelessAppend("../instances/" + area, "d.tsp");
    PathSpaceless(approach, area, n, l, h);
  }

  /** Joining texts without white space gives a text without it. */
  lemma SpacelessAppend(a: string, b: string)
    requires Frontend.Spaceless(a) && Frontend.Spaceless(b)
    ensures Frontend.Spaceless(a + b)
  {
    forall i | 0 <= i < |a + b|
      ensures !Frontend.IsSpace((a + b)[i])
    {
      if i >= |a| {
        assert (a + b)[i] == b[i - |a|];
      }
    }
  }

  /** The solution path holds no white space. */
  lemma PathSpaceless(approach: string, area: string, n: nat, l: nat, h: nat)
    requires Frontend.Spaceless(approach) && Frontend.Spaceless(area)
    ensures Frontend.Spaceless(OutputPath(approach, area, n, l, h))
  {
    DigitsSpaceless(Pad2(n));
    DigitsSpaceless(Pad2(l));
    DigitsSpaceless(Pad2(h));
    SepSpaceless(Pad2(l), '_', Pad2(h));
    var p3 := Sep(Pad2(l), '_', Pad2(h));
    SepSpaceless(Pad2(n), '_', p3);
    var p2 := Sep(Pad2(n), '_', p3);
    SepSpaceless(area, '_', p2);
    var p1 := Sep(area, '_', p2);
    SepSpaceless(approach, '/', p1);
    SpacelessAppend(Solutions, Sep(approach, '/', p1));
  }

  lemma SepSpaceless(x: string, c: char, y: string)
    requires Frontend.Spaceless(x) && Frontend.Spaceless(y) && !Frontend.IsSpace(c)
    ensures Frontend.Spaceless(Sep(x, c, y))
  {
    SpacelessAppend(x, [c]);
    SpacelessAppend(x + [c], y);
  }

  lemma DigitsSpaceless(s: string)
    requires AllDigits(s)
    ensures Frontend.Spaceless(s)
  {
  }

  lemma ArgumentsNoBlank(approach: string, area: string, n: nat, l: nat, h: nat)
    requires approach in Approaches && Frontend.Spaceless(area)
    ensures var args := Arguments(approach, area, n, l, h);
      forall i :: 0 <= i < |args| ==> ' ' !in args[i]
  {
    ApproachWord(approach);
    NoDigit(Pad2(n), ' ');
    NoDigit(Pad2(l), ' ');
    NoDigit(Pad2(h), ' ');
    assert ' ' !in area;
    PathNoBlank(approach, area, n, l, h);
    assert ' ' !in PickupFile(area) && ' ' !in DeliveryFile(area);
  }

  lemma PathNoBlank(approach: string, area: string, n: nat, l: nat, h: nat)
    requires ' ' !in approach && ' ' !in area
    requires ' ' !in Pad2(n) && ' ' !in Pad2(l) && ' ' !in Pad2(h)
    ensures ' ' !in OutputPath(approach, area, n, l, h)
  {
    var p3 := Sep(Pad2(l), '_', Pad2(h));
    var p2 := Sep(Pad2(n), '_', p3);
    var p1 := Sep(area, '_', p2);
    var p0 := Sep(approach, '/', p1);
    assert ' ' !in p3;
    assert ' ' !in p2;
    assert ' ' !in p1;
    assert ' ' !in p0;
    assert ' ' !in Solutions;
  }

  /** `main` on fifteen words with the seven flags in the launcher's
      order, each `%s` value a single word, stores the seven values in
      that order. */
  lemma MainOnArguments(args: seq<string>, opens: string -> bool)
    requires LauncherShape(args)
    ensures Frontend.MainAction(args, opens) ==
      Frontend.Run(Frontend.Options([args[2], args[4], args[6], args[8], args[10], args[12], args[14]]), opens)
  {
    ScanLauncher(args);
  }

  /** Fifteen words with the seven flags in `main`'s order, each value
      read with `%s` a single word. */
  predicate LauncherShape(args: seq<string>) {
    && |args| == 15
    && args[1] == Frontend.Flags[0] && args[3] == Frontend.Flags[1] && args[5] == Frontend.Flags[2]
    && args[7] == Frontend.Flags[3] && args[9] == Frontend.Flags[4] && args[11] == Frontend.Flags[5]
    && args[13] == Frontend.Flags[6]
    && Frontend.Word(args[2]) && Frontend.Word(args[4]) && Frontend.Word(args[6]) && Frontend.Word(args[14])
  }

  /** The whole argument loop over the launcher's words. */
  lemma ScanLauncher(args: seq<string>)
    requires LauncherShape(args)
    ensures Frontend.Scan(args, 1, Frontend.Start())
      == Frontend.Scanned(7, Frontend.Options([args[2], args[4], args[6], args[8], args[10], args[12], args[14]]), false, args[14])
  {
    ScanValues(args, args[2], args[4], args[6], args[8], args[10], args[12], args[14]);
  }

  lemma ScanValues(args: seq<string>, approach: string, pickup: string, delivery: string,
                   n: string, l: string, h: string, out: string)
    requires LauncherShape(args)
    requires args[2] == approach && args[4] == pickup && args[6] == delivery && args[8] == n
    requires args[10] == l && args[12] == h && args[14] == out
    ensures Frontend.Scan(args, 1, Frontend.Start())
      == Frontend.Scanned(7, Frontend.Options([approach, pickup, delivery, n, l, h, out]), false, out)
  {
    var v4 := ["", "", "", "", "", "", ""][0 := approach][1 := pickup][2 := delivery][3 := n];
    var v7 := v4[4 := l][5 := h][6 := out];
    ScanFirstHalf(args, approach, pickup, delivery, n);
    ScanSecondHalf(args, v4, delivery, l, h, out);
    Frontend.ScanDone(args, 15, Frontend.Scanned(7, Frontend.Options(v7), false, out));
    SevenValues(approach, pickup, delivery, n, l, h, out);
  }

  /** Filling the seven empty slots in order gives the seven values. */
  lemma SevenValues(a: string, b: string, c: string, d: string, e: string, f: string, g: string)
    ensures ["", "", "", "", "", "", ""][0 := a][1 := b][2 := c][3 := d][4 := e][5 := f][6 := g] == [a, b, c, d, e, f, g]
  {
  }

  lemma ScanFirstHalf(args: seq<string>, approach: string, pickup: string, delivery: string, n: string)
    requires LauncherShape(args)
    requires args[2] == approach && args[4] == pickup && args[6] == delivery && args[8] == n
    ensures Frontend.Scan(args, 1, Frontend.Start()) == Frontend.Scan(args, 9,
      Frontend.Scanned(4, Frontend.Options(["", "", "", "", "", "", ""][0 := approach][1 := pickup][2 := delivery][3 := n]), false, delivery))
  {
    var v0 := ["", "", "", "", "", "", ""];
    var v1 := v0[0 := approach];
    var v2 := v1[1 := pickup];
    var v3 := v2[2 := delivery];
    Frontend.StartValues();
    Frontend.ScanWordStep(args, 1, Frontend.Scanned(0, Frontend.Options(v0), false, ""), 0);
    Frontend.ScanWordStep(args, 3, Frontend.Scanned(1, Frontend.Options(v1), false, approach), 1);
    Frontend.ScanWordStep(args, 5, Frontend.Scanned(2, Frontend.Options(v2), false, pickup), 2);
    Frontend.ScanNumberStep(args, 7, Frontend.Scanned(3, Frontend.Options(v3), false, delivery), 3);
  }

  lemma ScanSecondHalf(args: seq<string>, v4: seq<string>, delivery: string, l: string, h: string, out: string)
    requires LauncherShape(args) && |v4| == 7
    requires args[10] == l && args[12] == h && args[14] == out
    ensures Frontend.Scan(args, 9, Frontend.Scanned(4, Frontend.Options(v4), false, delivery))
      == Frontend.Scan(args, 15, Frontend.Scanned(7, Frontend.Options(v4[4 := l][5 := h][6 := out]), false, out))
  {
    var v5 := v4[4 := l];
    var v6 := v5[5 := h];
    Frontend.ScanNumberStep(args, 9, Frontend.Scanned(4, Frontend.Options(v4), false, delivery), 4);
    Frontend.ScanNumberStep(args, 11, Frontend.Scanned(5, Frontend.Options(v5), false, delivery), 5);
    Frontend.ScanWordStep(args, 13, Frontend.Scanned(6, Frontend.Options(v6), false, delivery), 6);
  }

  // ---------------------------------------------------------------------
  // The grid (lines 15-19, 26-28)
  // ---------------------------------------------------------------------

  const Approaches: seq<string> := ["ILP1", "ILP2", "BRKGA"]
  const Items: seq<nat> := [6, 8, 10, 12, 15, 20]
  const Areas: seq<string> := ["R05", "R06", "R07", "R08", "R09"]
  const Depths: seq<Depth> := [Finite(1), Finite(2), Finite(3), Finite(4), Finite(5), Unbounded]
  const Costs: seq<nat> := [0, 1, 2, 5, 10, 20]

  /** One tuple of `itertools.product`, in the product's axis order. */
  datatype Combo = Combo(approach: string, items: nat, area: string, depth: Depth, cost: nat)

  /** Tuple i of the product: i written in the mixed radix 3, 6, 5, 6, 6,
      the last axis the least significant digit. */
  function At(i: nat): Combo
    requires i < 3240
  {
    var q1 := i / 6;
    var q2 := q1 / 6;
    var q3 := q2 / 5;
    Combo(Approaches[q3 / 6], Items[q3 % 6], Areas[q2 % 5], Depths[q1 % 6], Costs[i % 6])
  }

  /** The product of the five axes. */
  function Grid(): (g: seq<Combo>)
    ensures |g| == |Approaches| * |Items| * |Areas| * |Depths| * |Costs| == 3240
  {
    seq(3240, i requires 0 <= i < 3240 => At(i))
  }

  /** Where the product places the combination of the given axis indices. */
  function Position(a: nat, n: nat, r: nat, d: nat, c: nat): nat {
    (((a * 6 + n) * 5 + r) * 6 + d) * 6 + c
  }

  /** The approaches and areas hold no separator of the path or the
      command line. */
  lemma ApproachWord(approach: string)
    requires approach in Approaches
    ensures '/' !in approach && ' ' !in approach
  {
  }

  lemma AreaWord(area: string)
    requires area in Areas
    ensures '_' !in area && ' ' !in area
  {
  }

  lemma AtAxes(i: nat)
    requires i < 3240
    ensures At(i).approach in Approaches && At(i).area in Areas
    ensures At(i).items >= 6 && At(i).depth in Depths
    ensures '/' !in At(i).approach && '_' !in At(i).area
  {
    ApproachWord(At(i).approach);
    AreaWord(At(i).area);
  }

  /** Every combination of the axes occurs in the grid, at its position. */
  lemma GridComplete(a: nat, n: nat, r: nat, d: nat, c: nat)
    requires a < 3 && n < 6 && r < 5 && d < 6 && c < 6
    ensures Position(a, n, r, d, c) < 3240
    ensures Grid()[Position(a, n, r, d, c)] == Combo(Approaches[a], Items[n], Areas[r], Depths[d], Costs[c])
  {
    var i := Position(a, n, r, d, c);
    var q3 := a * 6 + n;
    var q2 := q3 * 5 + r;
    var q1 := q2 * 6 + d;
    assert i == q1 * 6 + c;
    assert i / 6 == q1 && i % 6 == c;
    assert q1 / 6 == q2 && q1 % 6 == d;
    assert q2 / 5 == q3 && q2 % 5 == r;
    assert q3 / 6 == a && q3 % 6 == n;
  }

  /** The last axis varies fastest: the next tuple has the next cost and
      everything else unchanged, until the costs run out. */
  lemma GridOrder(i: nat)
    requires i + 1 < 3240 && i % 6 < 5
    ensures Grid()[i + 1] == Grid()[i].(cost := Costs[i % 6 + 1])
  {
    assert (i + 1) / 6 == i / 6 && (i + 1) % 6 == i % 6 + 1;
  }

  /** `launcher`'s reordering: approach, area, n, then the resolved depth
      and the cost. */
  function Launch(c: Combo): seq<string> {
    Arguments(c.approach, c.area, c.items, ResolveDepth(c.depth, c.items), c.cost)
  }

  function LaunchPath(c: Combo): string {
    OutputPath(c.approach, c.area, c.items, ResolveDepth(c.depth, c.items), c.cost)
  }

  /** The output path is the last word of the launched command. */
  lemma LaunchWritesPath(c: Combo)
    ensures Launch(c)[14] == LaunchPath(c)
  {
  }

  /** Equal radix digits give equal numbers. */
  lemma Radix(x: nat, y: nat, b: nat)
    requires b > 0 && x % b == y % b && x / b == y / b
    ensures x == y
  {
    assert x == x / b * b + x % b;
    assert y == y / b * b + y % b;
  }

  /** Distinct positions hold distinct tuples. */
  lemma AtInjective(i: nat, j: nat)
    requires i < 3240 && j < 3240 && At(i) == At(j)
    ensures i == j
  {
    var qi1, qj1 := i / 6, j / 6;
    var qi2, qj2 := qi1 / 6, qj1 / 6;
    var qi3, qj3 := qi2 / 5, qj2 / 5;
    assert qi3 / 6 == qj3 / 6 by {
      var x, y := qi3 / 6, qj3 / 6;
      assert Approaches[x] == Approaches[y];
    }
    assert qi3 % 6 == qj3 % 6 by {
      var x, y := qi3 % 6, qj3 % 6;
      assert Items[x] == Items[y];
    }
    Radix(qi3, qj3, 6);
    assert qi2 % 5 == qj2 % 5 by {
      var x, y := qi2 % 5, qj2 % 5;
      assert Areas[x] == Areas[y];
    }
    Radix(qi2, qj2, 5);
    assert qi1 % 6 == qj1 % 6 by {
      var x, y := qi1 % 6, qj1 % 6;
      assert Depths[x] == Depths[y];
    }
    Radix(qi1, qj1, 6);
    assert i % 6 == j % 6 by {
      var x, y := i % 6, j % 6;
      assert Costs[x] == Costs[y];
    }
    Radix(i, j, 6);
  }

  /** All 3240 launches write to different files. */
  lemma GridPathsDistinct()
    ensures forall i, j :: 0 <= i < j < |Grid()| ==> LaunchPath(Grid()[i]) != LaunchPath(Grid()[j])
  {
    forall i, j | 0 <= i < j < |Grid()|
      ensures LaunchPath(Grid()[i]) != LaunchPath(Grid()[j])
    {
      if LaunchPath(Grid()[i]) == LaunchPath(Grid()[j]) {
        PathsDistinctAt(i, j);
      }
    }
  }

  lemma PathsDistinctAt(i: nat, j: nat)
    requires i < 3240 && j < 3240 && LaunchPath(At(i)) == LaunchPath(At(j))
    ensures i == j
  {
    var ci, cj := At(i), At(j);
    AtAxes(i);
    AtAxes(j);
    PathInjective(ci.approach, ci.area, ci.items, ResolveDepth(ci.depth, ci.items), ci.cost,
                  cj.approach, cj.area, cj.items, ResolveDepth(cj.depth, cj.items), cj.cost);
    ResolvedDepthsDistinct(ci.depth, cj.depth, ci.items);
    AtInjective(i, j);
  }

  // ---------------------------------------------------------------------
  // The area names the solver derives from the launched files
  // ---------------------------------------------------------------------

  lemma {:induction false} BlankAppend(x: string, y: string)
    ensures Instance.Blank(x + y) == Instance.Blank(x) + Instance.Blank(y)
  {
    assert forall i :: 0 <= i < |x + y| ==> (x + y)[i] == if i < |x| then x[i] else y[i - |x|];
  }

  lemma BlankNoDigits(s: string)
    requires forall i :: 0 <= i < |s| ==> !Instance.IsDigit(s[i])
    ensures forall i :: 0 <= i < |Instance.Blank(s)| ==> Instance.Blank(s)[i] == ' '
  {
  }

  lemma BlankDigits(s: string)
    requires AllDigits(s)
    ensures Instance.Blank(s) == s
  {
  }

  /** The file of area "R" + digits, padded by text without digits, is
      read as that one word, leaving only blanks. */
  lemma ReadsDigitRun(prefix: string, d: string, suffix: string)
    requires |d| >= 1 && AllDigits(d)
    requires forall i :: 0 <= i < |prefix| ==> !Instance.IsDigit(prefix[i])
    requires forall i :: 0 <= i < |suffix| ==> !Instance.IsDigit(suffix[i])
    ensures var w := Instance.NextWord(Instance.Blank(prefix + d + suffix));
      w == Some((d, Instance.Blank(suffix))) && Instance.NextWord(w.value.1).None?
  {
    BlankRun(prefix, d, suffix);
    BlankNoDigits(prefix);
    BlankNoDigits(suffix);
    WordOfRun(Instance.Blank(prefix), d, Instance.Blank(suffix));
  }

  lemma BlankRun(prefix: string, d: string, suffix: string)
    requires AllDigits(d)
    ensures Instance.Blank(prefix + d + suffix) == Instance.Blank(prefix) + (d + Instance.Blank(suffix))
  {
    assert prefix + d + suffix == prefix + (d + suffix);
    BlankAppend(prefix, d + suffix);
    BlankAppend(d, suffix);
    BlankDigits(d);
  }

  lemma WordOfRun(blanks: string, d: string, rest: string)
    requires |d| >= 1 && AllDigits(d)
    requires forall i :: 0 <= i < |blanks| ==> blanks[i] == ' '
    requires forall i :: 0 <= i < |rest| ==> rest[i] == ' '
    ensures Instance.NextWord(blanks + (d + rest)) == Some((d, rest))
    ensures Instance.NextWord(rest).None?
  {
    Instance.WordAt(blanks, d, rest);
  }

  /** The corrected delivery name: a delivery file name with a single run
      of digits d names the area "R" + d + "d", whatever the pickup file
      name holds. */
  lemma DeliveryAreaOfRun(prefix: string, d: string, suffix: string)
    requires |d| >= 1 && AllDigits(d)
    requires forall i :: 0 <= i < |prefix| ==> !Instance.IsDigit(prefix[i])
    requires forall i :: 0 <= i < |suffix| ==> !Instance.IsDigit(suffix[i])
    ensures Instance.DeliveryArea(prefix + d + suffix) == "R" + d + "d"
  {
    ReadsDigitRun(prefix, d, suffix);
  }

  /** For every area "R" followed by digits, as all areas of the grid are,
      the solver names the pickup and delivery areas after the area
      itself: the misreading of the delivery name cannot occur. */
  lemma AreaNamesOfLaunch(d: string)
    requires |d| >= 1 && AllDigits(d)
    ensures Instance.PickupArea(PickupFile("R" + d)).0 == "R" + d + "p"
    ensures Instance.DeliveryAreaAsWritten(PickupFile("R" + d), DeliveryFile("R" + d)) == "R" + d + "d"
  {
    var prefix := "../instances/R";
    assert forall i :: 0 <= i < |prefix| ==> !Instance.IsDigit(prefix[i]);
    assert forall i :: 0 <= i < |"p.tsp"| ==> !Instance.IsDigit("p.tsp"[i]);
    assert forall i :: 0 <= i < |"d.tsp"| ==> !Instance.IsDigit("d.tsp"[i]);
    assert PickupFile("R" + d) == prefix + d + "p.tsp";
    assert DeliveryFile("R" + d) == prefix + d + "d.tsp";
    ReadsDigitRun(prefix, d, "p.tsp");
    ReadsDigitRun(prefix, d, "d.tsp");
    Instance.DeliveryAreaAgrees(PickupFile("R" + d), DeliveryFile("R" + d));
  }

  /** Every area of the grid is "R" followed by two digits. */
  lemma AreasAreDigitRuns(area: string)
    requires area in Areas
    ensures |area| == 3 && area[0] == 'R' && AllDigits(area[1..]) && area == "R" + area[1..]
  {
  }
}
