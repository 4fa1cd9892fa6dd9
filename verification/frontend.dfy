/** The solver's front end (src/main.cpp): the chromosome size and the
    algorithm parameters of the BRKGA run, the choice of the best of the
    executions, the seeds, and the command-line handling of `main`. */
module Frontend {
  import opened Wrappers
  import opened Pairs
  import Decoder
  import Brkga
  import Instance

  // ---------------------------------------------------------------------
  // Chromosome size and parameters (lines 18-39)
  // ---------------------------------------------------------------------

  /** The two loops of `runBRKGA` that size the chromosome: n keys, then
      min(k, l + 1) per pickup step and min(n - k + 1, l + 1) per
      delivery step.  The count is the number of keys the decoder reads. */
  method RunChromosomeSize(n: nat, l: nat) returns (size: nat)
    ensures size == Decoder.ChromosomeSize(n, l)
  {
    size := n;
    for k := 1 to n + 1
      invariant size == n + Decoder.PickupKeys(k - 1, l)
    {
      size := size + Min(k, l + 1);
    }
    var pickups := size;
    for k := 1 to n + 1
      invariant size == pickups + Decoder.DeliveryKeys(n, k - 1, l)
    {
      size := size + Min(n - k + 1, l + 1);
    }
  }

  /** With a depth that never binds, pickup step k reads k keys. */
  lemma {:induction false} PickupKeysFull(k: nat, l: nat)
    requires k <= l + 1
    ensures 2 * Decoder.PickupKeys(k, l) == k * (k + 1)
  {
    if k > 0 {
      PickupKeysFull(k - 1, l);
    }
  }

  /** With a depth that never binds, delivery step k reads n - k + 1 keys. */
  lemma {:induction false} DeliveryKeysFull(n: nat, k: nat, l: nat)
    requires k <= n && n <= l + 1
    ensures 2 * Decoder.DeliveryKeys(n, k, l) == k * (2 * n - k + 1)
  {
    if k > 0 {
      DeliveryKeysFull(n, k - 1, l);
    }
  }

  /** Without reloading every step reads a single key. */
  lemma {:induction false} KeysNoReload(n: nat, k: nat)
    requires k <= n
    ensures Decoder.PickupKeys(k, 0) == k && Decoder.DeliveryKeys(n, k, 0) == k
  {
    if k > 0 {
      KeysNoReload(n, k - 1);
    }
  }

  /** The closed forms of the chromosome size: n(n + 2) when the depth
      never binds (l >= n - 1), and 3n without reloading. */
  lemma ChromosomeSizeForms(n: nat, l: nat)
    ensures l + 1 >= n ==> Decoder.ChromosomeSize(n, l) == n * (n + 2)
    ensures l == 0 ==> Decoder.ChromosomeSize(n, l) == 3 * n
  {
    if l + 1 >= n {
      PickupKeysFull(n, l);
      DeliveryKeysFull(n, n, l);
      assert n * (2 * n - n + 1) == n * (n + 1);
      assert n + n * (n + 1) == n * (n + 2);
    }
    if l == 0 {
      KeysNoReload(n, n);
    }
  }

  /** The fixed parameters of the run: 200 chromosomes per key, 10% elite,
      25% mutants, one population. */
  const PopulationFactor: nat := 200
  const EliteFraction: real := 0.10
  const MutantFraction: real := 0.25

  /** The parameters `runBRKGA` hands to the BRKGA constructor pass all
      its checks as soon as there is at least one item: the elite is a
      tenth and the mutants a quarter of p = 200 * size. */
  lemma RunParametersValid(n: nat, l: nat)
    requires n >= 1
    ensures var size := Decoder.ChromosomeSize(n, l);
      var r := Brkga.NewBrkga(size, PopulationFactor * size, EliteFraction, MutantFraction, 1);
      && r.Success?
      && r.value == Brkga.Config(size, 200 * size, 20 * size, 50 * size, 1)
  {
    var size := Decoder.ChromosomeSize(n, l);
    var p := PopulationFactor * size;
    assert size >= 1;
    assert EliteFraction * p as real == (20 * size) as real;
    assert MutantFraction * p as real == (50 * size) as real;
  }

  // ---------------------------------------------------------------------
  // Executions (lines 49-113)
  // ---------------------------------------------------------------------

  /** The seed table of `runBRKGA`. */
  const Seeds: seq<nat> := [
    269070,  99470, 126489, 644764, 547617, 642580,  73456, 462018, 858990, 756112,
    701531, 342080, 613485, 131654, 886148, 909040, 146518, 782904,   3075, 974703,
    170425, 531298, 253045, 488197, 394197, 519912, 606939, 480271, 117561, 900952,
    968235, 345118, 750253, 420440, 761205, 130467, 928803, 768798, 640300, 871462,
    639622,  90614, 187822, 594363, 193911, 846042, 680779, 344008, 759862, 661168,
    223420, 959508,  62985, 349296, 910428, 964420, 422964, 384194, 985214,  57575,
    639619,  90505, 435236, 465842, 102567, 189997, 741017, 611828, 699223, 335142,
     52119,  49256, 324523, 348215, 651525, 517999, 830566, 958538, 880422, 390645,
    148265, 807740, 934464, 524847, 408760, 668587, 257030, 751580,  90477, 594476,
    571216, 306614, 308010, 661191, 890429, 425031,  69108, 435783,  17725, 335928
  ]

  const Executions: nat := 10

  /** The seed of each execution: execution e uses entry e of the table,
      so only the first ten of its hundred seeds are ever used. */
  method ExecutionSeeds() returns (seeds: seq<nat>)
    ensures |seeds| == Executions && |Seeds| == 100
    ensures seeds == Seeds[..Executions]
  {
    seeds := FirstSeeds(Seeds, Executions);
  }

  /** The seeds of executions 0, ..., count - 1 drawn from a table. */
  method FirstSeeds(table: seq<nat>, count: nat) returns (seeds: seq<nat>)
    requires count <= |table|
    ensures seeds == table[..count]
  {
    seeds := [];
    for e := 0 to count
      invariant seeds == table[..e]
    {
      seeds := seeds + [table[e]];
    }
  }

  /** The choice of the best solution: the execution of least fitness,
      the earliest one on ties (a later one must be strictly better). */
  method BestExecution(fitness: seq<int>) returns (best: nat)
    requires |fitness| > 0
    ensures best < |fitness|
    ensures forall e :: 0 <= e < |fitness| ==> fitness[best] <= fitness[e]
    ensures forall e :: 0 <= e < best ==> fitness[best] < fitness[e]
  {
    best := 0;
    for e := 1 to |fitness|
      invariant best < e
      invariant forall f :: 0 <= f < e ==> fitness[best] <= fitness[f]
      invariant forall f :: 0 <= f < best ==> fitness[best] < fitness[f]
    {
      if fitness[e] < fitness[best] {
        best := e;
      }
    }
  }

  // ---------------------------------------------------------------------
  // Command line (lines 129-174)
  // ---------------------------------------------------------------------

  /** The value `check_parameters` is reset to on an unknown flag
      (`INF` of src/data.h, negated). */
  const Inf: int := 987654321

  /** The seven recognised flags, in the order the source tests them. */
  const Flags: seq<string> := ["--approach", "--pickuparea", "--deliveryarea", "--n", "--l", "--h", "--outputsolution"]

  /** The option values, kept as the text that follows each flag. */
  datatype Options = Options(values: seq<string>)

  function Unset(): (o: Options)
    ensures |o.values| == |Flags|
  {
    Options(["", "", "", "", "", "", ""])
  }

  /** Which recognised flag a word is, if any. */
  function FlagIndex(word: string): (r: Option<nat>)
    ensures r.Some? ==> r.value < |Flags| && Flags[r.value] == word
    ensures r.None? <==> word !in Flags
  {
    if word == Flags[0] then Some(0)
    else if word == Flags[1] then Some(1)
    else if word == Flags[2] then Some(2)
    else if word == Flags[3] then Some(3)
    else if word == Flags[4] then Some(4)
    else if word == Flags[5] then Some(5)
    else if word == Flags[6] then Some(6)
    else None
  }

  /** Each flag is recognised as itself. */
  lemma FlagIndexOfFlag(k: nat)
    requires k < |Flags|
    ensures FlagIndex(Flags[k]) == Some(k)
  {
    if k == 0 {} else if k == 1 {} else if k == 2 {} else if k == 3 {}
    else if k == 4 {} else if k == 5 {} else {}
  }

  /** `--n`, `--l` and `--h` are read with `%d`; the other four flags
      with `%s`, through the shared buffer `parameterStr`. */
  predicate Numeric(f: nat) {
    3 <= f <= 5
  }

  // ---------------------------------------------------------------------
  // `sscanf` with `%s`
  // ---------------------------------------------------------------------

  /** `isspace` in the C locale, the characters `%s` skips and stops at:
      the blank, and tab, line feed, vertical tab, form feed and carriage
      return, which are the consecutive codes 9 to 13. */
  predicate IsSpace(c: char) {
    c == ' ' || '\t' <= c <= '\r'
  }

  /** A text without white space. */
  predicate Spaceless(w: string) {
    forall i :: 0 <= i < |w| ==> !IsSpace(w[i])
  }

  /** A non-empty text without white space. */
  predicate Word(w: string) {
    w != [] && Spaceless(w)
  }

  /** The text with its leading white space skipped. */
  function SkipSpaces(s: string): (r: string)
    ensures |r| <= |s| && r == s[|s| - |r|..]
    ensures r == [] || !IsSpace(r[0])
    ensures forall i :: 0 <= i < |s| - |r| ==> IsSpace(s[i])
  {
    if s == [] || !IsSpace(s[0]) then s
    else
      var r := SkipSpaces(s[1..]);
      assert s[1..][|s| - 1 - |r|..] == s[|s| - |r|..];
      assert forall i :: 1 <= i < |s| ==> s[i] == s[1..][i - 1];
      r
  }

  /** The longest prefix without white space. */
  function TakeWord(s: string): (r: string)
    ensures r <= s
    ensures forall i :: 0 <= i < |r| ==> !IsSpace(r[i])
    ensures |r| == |s| || IsSpace(s[|r|])
  {
    if s == [] || IsSpace(s[0]) then []
    else [s[0]] + TakeWord(s[1..])
  }

  /** `sscanf(arg, "%s", parameterStr)`: the first word of the argument,
      or `None` when it holds only white space; `sscanf` then returns
      EOF and the buffer keeps what it held. */
  function ScanWord(arg: string): (r: Option<string>)
    ensures r.None? <==> forall i :: 0 <= i < |arg| ==> IsSpace(arg[i])
    ensures r.Some? ==> Word(r.value)
  {
    var t := SkipSpaces(arg);
    if t == [] then None
    else
      assert t[0] == arg[|arg| - |t|];
      var w := TakeWord(t);
      assert w[0] == t[0];
      Some(w)
  }

  /** `%s` reads exactly the word between the leading white space and
      the first white space after it. */
  lemma ScanWordPadded(pre: string, w: string, post: string)
    requires forall i :: 0 <= i < |pre| ==> IsSpace(pre[i])
    requires Word(w)
    requires post == [] || IsSpace(post[0])
    ensures ScanWord(pre + (w + post)) == Some(w)
  {
    SkipLeading(pre, w + post);
    TakeLeading(w, post);
    ScanWordOf(pre + (w + post), w + post, w);
  }

  /** `ScanWord` once the skipped text and the word are known. */
  lemma ScanWordOf(arg: string, rest: string, w: string)
    requires SkipSpaces(arg) == rest && rest != [] && TakeWord(rest) == w
    ensures ScanWord(arg) == Some(w)
  {
  }

  lemma {:induction false} SkipLeading(pre: string, s: string)
    requires forall i :: 0 <= i < |pre| ==> IsSpace(pre[i])
    requires s != [] && !IsSpace(s[0])
    ensures SkipSpaces(pre + s) == s
    decreases |pre|
  {
    if pre != [] {
      assert (pre + s)[1..] == pre[1..] + s;
      SkipLeading(pre[1..], s);
    }
  }

  lemma {:induction false} TakeLeading(w: string, post: string)
    requires forall i :: 0 <= i < |w| ==> !IsSpace(w[i])
    requires post == [] || IsSpace(post[0])
    ensures TakeWord(w + post) == w
    decreases |w|
  {
    if w != [] {
      assert (w + post)[1..] == w[1..] + post;
      TakeLeading(w[1..], post);
    }
  }

  /** A value that is a single word is read whole. */
  lemma ScanWordOfWord(w: string)
    requires Word(w)
    ensures ScanWord(w) == Some(w)
  {
    ScanWordPadded([], w, []);
    assert [] + (w + []) == w;
  }

  // ---------------------------------------------------------------------
  // The argument loop (lines 142-154)
  // ---------------------------------------------------------------------

  /** The state of the argument loop: the running count, the values
      assigned, whether a recognised flag stood last with no value after
      it (the source then reads through the null `argv[argc]`), and the
      text of the shared buffer `parameterStr`. */
  datatype Scanned = Scanned(count: int, options: Options, missing: bool, buffer: string)

  /** The loop's start: no flag counted, no value assigned yet. */
  function Start(): (s: Scanned)
    ensures s.count == 0 && !s.missing && |s.options.values| == |Flags|
  {
    Scanned(0, Unset(), false, "")
  }

  /** The start state, spelled out. */
  lemma StartValues()
    ensures Start() == Scanned(0, Options(["", "", "", "", "", "", ""]), false, "")
  {
  }

  /** One recognised flag with its value: the count goes up by one; a
      `%d` flag keeps the argument as its value, a `%s` flag reads the
      argument's first word into the buffer (which keeps its text when
      there is none) and copies the buffer. */
  function Store(s: Scanned, f: nat, arg: string): (r: Scanned)
    requires |s.options.values| == |Flags| && f < |Flags|
    ensures r.count == s.count + 1 && r.missing == s.missing
    ensures |r.options.values| == |Flags|
    ensures forall g :: 0 <= g < |Flags| && g != f ==> r.options.values[g] == s.options.values[g]
    ensures Numeric(f) ==> r.options.values[f] == arg && r.buffer == s.buffer
    ensures !Numeric(f) ==> r.options.values[f] == r.buffer
    ensures !Numeric(f) ==> r.buffer == if ScanWord(arg).Some? then ScanWord(arg).value else s.buffer
  {
    if Numeric(f) then
      s.(count := s.count + 1, options := Options(s.options.values[f := arg]))
    else
      var buffer := match ScanWord(arg) { case Some(w) => w case None => s.buffer };
      s.(count := s.count + 1, options := Options(s.options.values[f := buffer]), buffer := buffer)
  }

  /** The argument loop from position i on, stepping over flag/value
      pairs: a recognised flag adds one and stores its value, an unknown
      one resets the count to -INF. */
  function Scan(args: seq<string>, i: nat, s: Scanned): (r: Scanned)
    requires |s.options.values| == |Flags|
    ensures |r.options.values| == |Flags|
    ensures s.missing ==> r.missing
    decreases |args| - i
  {
    if i >= |args| then s
    else match FlagIndex(args[i]) {
      case None => Scan(args, i + 2, s.(count := -Inf))
      case Some(f) =>
        if i + 1 < |args| then Scan(args, i + 2, Store(s, f, args[i + 1]))
        else Scan(args, i + 2, s.(count := s.count + 1, missing := true))
    }
  }

  /** One step of the argument loop over a recognised flag with a value. */
  lemma ScanKnown(args: seq<string>, i: nat, s: Scanned, f: nat)
    requires |s.options.values| == |Flags| && i + 1 < |args| && f < |Flags| && args[i] == Flags[f]
    ensures Scan(args, i, s) == Scan(args, i + 2, Store(s, f, args[i + 1]))
  {
    FlagIndexOfFlag(f);
  }

  /** Number of recognised flags at the flag positions i, i + 2, ... */
  function Recognised(args: seq<string>, i: nat): nat
    decreases |args| - i
  {
    if i >= |args| then 0
    else (if args[i] in Flags then 1 else 0) + Recognised(args, i + 2)
  }

  /** Whether some flag position from i on holds an unknown flag. */
  predicate SomeUnknown(args: seq<string>, i: nat)
    decreases |args| - i
  {
    i < |args| && (args[i] !in Flags || SomeUnknown(args, i + 2))
  }

  /** The count the loop ends with: the start plus the recognised flags
      when every flag is known; otherwise far below zero, since the few
      flags after the last unknown one cannot climb back from -INF. */
  lemma {:induction false} ScanCount(args: seq<string>, i: nat, s: Scanned)
    requires |s.options.values| == |Flags|
    ensures !SomeUnknown(args, i) ==> Scan(args, i, s).count == s.count + Recognised(args, i)
    ensures SomeUnknown(args, i) ==> Scan(args, i, s).count <= -Inf + |args|
    decreases |args| - i
  {
    if i < |args| {
      var f := FlagIndex(args[i]);
      if f.None? {
        ScanCount(args, i + 2, s.(count := -Inf));
        RecognisedBound(args, i + 2);
      } else if i + 1 < |args| {
        ScanCount(args, i + 2, Store(s, f.value, args[i + 1]));
      } else {
        ScanCount(args, i + 2, s.(count := s.count + 1, missing := true));
      }
    }
  }

  lemma {:induction false} RecognisedBound(args: seq<string>, i: nat)
    ensures Recognised(args, i) <= |args| - i || i >= |args|
    ensures i >= |args| ==> Recognised(args, i) == 0
    decreases |args| - i
  {
    if i < |args| {
      RecognisedBound(args, i + 2);
    }
  }

  // ---------------------------------------------------------------------
  // `main` (lines 134-174)
  // ---------------------------------------------------------------------

  /** The solvers `main` can dispatch to. */
  datatype Approach = Ilp1 | Ilp2 | BrkgaRun

  /** What `main` does with its arguments: print the usage, read through
      a null value, stop inside `readData` because the named file cannot
      be opened, or run a solver. */
  datatype Action = Usage | NullValue | ReadFailed(error: Instance.ReadError) | Solve(approach: Approach, options: Options)

  /** The C library's `EXIT_FAILURE`. */
  const ExitFailure: int := 1

  /** The status `readData` stops the process with: `_Exit(EXIT_FAILURE)`
      when the pickup file cannot be opened, but `exit(0)`, a success
      status, when only the delivery file cannot. */
  function ExitStatus(e: Instance.ReadError): int {
    match e
    case PickupFileUnreadable => ExitFailure
    case DeliveryFileUnreadable => 0
  }

  /** The `if` chain on the approach name. */
  function Dispatch(o: Options): (a: Action)
    requires |o.values| == |Flags|
    ensures a.Solve? <==> o.values[0] in ["ILP1", "ILP2", "BRKGA"]
    ensures a.Solve? ==> a.options == o
    ensures a == Solve(BrkgaRun, o) <==> o.values[0] == "BRKGA"
    ensures !a.Solve? ==> a == Usage
  {
    if o.values[0] == "ILP1" then Solve(Ilp1, o)
    else if o.values[0] == "ILP2" then Solve(Ilp2, o)
    else if o.values[0] == "BRKGA" then Solve(BrkgaRun, o)
    else Usage
  }

  /** `readData` and then the `if` chain: `readData` comes first, so a
      file that cannot be opened ends the program whatever the approach.
      The pickup file is opened first; the delivery file only once the
      pickup file has been read. Which file names can be opened is a
      parameter. */
  function Run(o: Options, opens: string -> bool): (a: Action)
    requires |o.values| == |Flags|
    ensures a == ReadFailed(Instance.PickupFileUnreadable) <==> !opens(o.values[1])
    ensures a == ReadFailed(Instance.DeliveryFileUnreadable) <==> opens(o.values[1]) && !opens(o.values[2])
    ensures a.ReadFailed? <==> !opens(o.values[1]) || !opens(o.values[2])
    ensures a.ReadFailed? ==> (ExitStatus(a.error) == 0 <==> opens(o.values[1]))
    ensures a.Solve? <==> opens(o.values[1]) && opens(o.values[2]) && o.values[0] in ["ILP1", "ILP2", "BRKGA"]
    ensures a.Solve? ==> a.options == o
  {
    if !opens(o.values[1]) then ReadFailed(Instance.PickupFileUnreadable)
    else if !opens(o.values[2]) then ReadFailed(Instance.DeliveryFileUnreadable)
    else Dispatch(o)
  }

  /** `main`: fewer than 15 entries (the program name and seven pairs)
      print the usage; then the flags are counted, only a count of
      exactly 7 proceeds, the data are read and the approach named by
      `--approach` runs. */
  function MainAction(args: seq<string>, opens: string -> bool): (a: Action)
    ensures |args| < 15 ==> a == Usage
  {
    if |args| < 15 then Usage
    else
      var s := Scan(args, 1, Start());
      if s.missing then NullValue
      else if s.count != 7 then Usage
      else Run(s.options, opens)
  }

  /** `main` gets past the argument checks exactly when there are at
      least 15 entries, every flag is known, seven flags were seen
      counting repeats and none of them stands last without a value. */
  predicate Accepted(args: seq<string>) {
    && |args| >= 15 && !Scan(args, 1, Start()).missing
    && !SomeUnknown(args, 1) && Recognised(args, 1) == 7
  }

  /** Past the argument checks, `main` runs `readData` and the dispatch
      on the options read; otherwise it never reaches them. */
  lemma MainAccepted(args: seq<string>, opens: string -> bool)
    requires |args| < Inf
    ensures Accepted(args) ==> MainAction(args, opens) == Run(Scan(args, 1, Start()).options, opens)
    ensures !Accepted(args) ==> MainAction(args, opens) in {Usage, NullValue}
  {
    if |args| >= 15 {
      ScanCount(args, 1, Start());
    }
  }

  /** `main` proceeds to a solver exactly when it accepts the arguments,
      both files open and the approach is one of the three. */
  lemma MainProceeds(args: seq<string>, opens: string -> bool)
    requires |args| < Inf
    ensures var o := Scan(args, 1, Start()).options;
      MainAction(args, opens).Solve? <==>
        Accepted(args) && opens(o.values[1]) && opens(o.values[2]) && o.values[0] in ["ILP1", "ILP2", "BRKGA"]
  {
    MainAccepted(args, opens);
  }

  /** An accepted command line with a file that cannot be opened stops
      in `readData`, whatever the approach: with `EXIT_FAILURE` when the
      pickup file is the one that cannot be opened, and with the success
      status 0 when the pickup file opens but the delivery file does not. */
  lemma MainReadsFirst(args: seq<string>, opens: string -> bool)
    requires |args| < Inf
    ensures var o := Scan(args, 1, Start()).options;
      MainAction(args, opens).ReadFailed? <==>
        Accepted(args) && (!opens(o.values[1]) || !opens(o.values[2]))
    ensures var o := Scan(args, 1, Start()).options;
      MainAction(args, opens) == ReadFailed(Instance.PickupFileUnreadable) <==>
        Accepted(args) && !opens(o.values[1])
    ensures var o := Scan(args, 1, Start()).options;
      MainAction(args, opens) == ReadFailed(Instance.DeliveryFileUnreadable) <==>
        Accepted(args) && opens(o.values[1]) && !opens(o.values[2])
    ensures var a := MainAction(args, opens);
      a.ReadFailed? ==> (ExitStatus(a.error) == ExitFailure <==> a.error == Instance.PickupFileUnreadable)
  {
    MainAccepted(args, opens);
  }

  /** A `%s` flag whose value is one word stores that word, and the
      buffer holds it afterwards. */
  lemma StoreWord(s: Scanned, f: nat, w: string)
    requires |s.options.values| == |Flags| && f < |Flags| && !Numeric(f) && Word(w)
    ensures Store(s, f, w) == s.(count := s.count + 1, options := Options(s.options.values[f := w]), buffer := w)
  {
    ScanWordOfWord(w);
  }

  /** A `%s` flag stores the first word of its argument. */
  lemma StoreFirstWord(s: Scanned, f: nat, arg: string)
    requires |s.options.values| == |Flags| && f < |Flags| && !Numeric(f) && ScanWord(arg).Some?
    ensures var w := ScanWord(arg).value;
      Store(s, f, arg) == s.(count := s.count + 1, options := Options(s.options.values[f := w]), buffer := w)
  {
  }

  /** A `%s` flag with a blank argument stores the buffer unchanged. */
  lemma StoreBlank(s: Scanned, f: nat, arg: string)
    requires |s.options.values| == |Flags| && f < |Flags| && !Numeric(f) && ScanWord(arg).None?
    ensures Store(s, f, arg) == s.(count := s.count + 1, options := Options(s.options.values[f := s.buffer]))
  {
  }

  /** A `%d` flag stores its argument and leaves the buffer alone. */
  lemma StoreNumber(s: Scanned, f: nat, arg: string)
    requires |s.options.values| == |Flags| && f < |Flags| && Numeric(f)
    ensures Store(s, f, arg) == s.(count := s.count + 1, options := Options(s.options.values[f := arg]))
  {
  }

  /** Flag f stands at position i, with a value after it. */
  predicate FlagAt(args: seq<string>, i: nat, s: Scanned, f: nat) {
    |s.options.values| == |Flags| && i + 1 < |args| && f < |Flags| && args[i] == Flags[f]
  }

  /** A step of the loop over a `%s` flag whose value is one word. */
  lemma ScanWordStep(args: seq<string>, i: nat, s: Scanned, f: nat)
    requires FlagAt(args, i, s, f) && !Numeric(f) && Word(args[i + 1])
    ensures Scan(args, i, s) == Scan(args, i + 2, s.(count := s.count + 1, options := Options(s.options.values[f := args[i + 1]]), buffer := args[i + 1]))
  {
    ScanKnown(args, i, s, f);
    StoreWord(s, f, args[i + 1]);
  }

  /** A step of the loop over a `%d` flag. */
  lemma ScanNumberStep(args: seq<string>, i: nat, s: Scanned, f: nat)
    requires FlagAt(args, i, s, f) && Numeric(f)
    ensures Scan(args, i, s) == Scan(args, i + 2, s.(count := s.count + 1, options := Options(s.options.values[f := args[i + 1]])))
  {
    ScanKnown(args, i, s, f);
    StoreNumber(s, f, args[i + 1]);
  }

  /** The loop stops once the position passes the last argument. */
  lemma ScanDone(args: seq<string>, i: nat, s: Scanned)
    requires |s.options.values| == |Flags| && i >= |args|
    ensures Scan(args, i, s) == s
  {
  }

  /** A repeated flag stands in for a missing one: with `--n` given twice
      and `--h` not at all, seven flags are still counted; the later `--n`
      wins and `--h` keeps its empty value. */
  lemma RepeatedFlagAccepted(args: seq<string>, opens: string -> bool, program: string, approach: string,
                             pickup: string, delivery: string, n1: string, l: string, n2: string, out: string)
    requires args == [program, Flags[0], approach, Flags[1], pickup, Flags[2], delivery,
                      Flags[3], n1, Flags[4], l, Flags[3], n2, Flags[6], out]
    requires Word(approach) && Word(pickup) && Word(delivery) && Word(out)
    ensures MainAction(args, opens) == Run(Options([approach, pickup, delivery, n2, l, "", out]), opens)
  {
    assert RepeatedShape(args, approach, pickup, delivery, n1, l, n2, out);
    RepeatedScan(args, approach, pickup, delivery, n1, l, n2, out);
  }

  /** The whole loop over the repeated-flag command line. */
  lemma RepeatedScan(args: seq<string>, approach: string, pickup: string,
                     delivery: string, n1: string, l: string, n2: string, out: string)
    requires RepeatedShape(args, approach, pickup, delivery, n1, l, n2, out)
    requires Word(approach) && Word(pickup) && Word(delivery) && Word(out)
    ensures Scan(args, 1, Start()) == Scanned(7, Options([approach, pickup, delivery, n2, l, "", out]), false, out)
  {
    var v4 := ["", "", "", "", "", "", ""][0 := approach][1 := pickup][2 := delivery][3 := n1];
    var v7 := v4[4 := l][3 := n2][6 := out];
    StartValues();
    RepeatedFirstHalf(args, approach, pickup, delivery, n1, l, n2, out);
    RepeatedSecondHalf(args, approach, pickup, delivery, n1, l, n2, out, v4);
    ScanDone(args, 15, Scanned(7, Options(v7), false, out));
    RepeatedValues(approach, pickup, delivery, n1, l, n2, out);
  }

  /** The slots after the repeated-flag command line. */
  lemma RepeatedValues(approach: string, pickup: string, delivery: string, n1: string, l: string, n2: string, out: string)
    ensures ["", "", "", "", "", "", ""][0 := approach][1 := pickup][2 := delivery][3 := n1][4 := l][3 := n2][6 := out]
      == [approach, pickup, delivery, n2, l, "", out]
  {
  }

  /** The positions the repeated-flag command line fills. */
  predicate RepeatedShape(args: seq<string>, approach: string, pickup: string, delivery: string,
                          n1: string, l: string, n2: string, out: string)
  {
    |args| == 15
    && args[1] == Flags[0] && args[2] == approach && args[3] == Flags[1] && args[4] == pickup
    && args[5] == Flags[2] && args[6] == delivery && args[7] == Flags[3] && args[8] == n1
    && args[9] == Flags[4] && args[10] == l && args[11] == Flags[3] && args[12] == n2
    && args[13] == Flags[6] && args[14] == out
  }

  lemma RepeatedFirstHalf(args: seq<string>, approach: string, pickup: string,
                          delivery: string, n1: string, l: string, n2: string, out: string)
    requires RepeatedShape(args, approach, pickup, delivery, n1, l, n2, out)
    requires Word(approach) && Word(pickup) && Word(delivery)
    ensures var v0 := ["", "", "", "", "", "", ""];
      Scan(args, 1, Scanned(0, Options(v0), false, ""))
        == Scan(args, 9, Scanned(4, Options(v0[0 := approach][1 := pickup][2 := delivery][3 := n1]), false, delivery))
  {
    var v0 := ["", "", "", "", "", "", ""];
    var v1 := v0[0 := approach];
    var v2 := v1[1 := pickup];
    var v3 := v2[2 := delivery];
    ScanWordStep(args, 1, Scanned(0, Options(v0), false, ""), 0);
    ScanWordStep(args, 3, Scanned(1, Options(v1), false, approach), 1);
    ScanWordStep(args, 5, Scanned(2, Options(v2), false, pickup), 2);
    ScanNumberStep(args, 7, Scanned(3, Options(v3), false, delivery), 3);
  }

  lemma RepeatedSecondHalf(args: seq<string>, approach: string, pickup: string,
                           delivery: string, n1: string, l: string, n2: string, out: string, v4: seq<string>)
    requires RepeatedShape(args, approach, pickup, delivery, n1, l, n2, out)
    requires Word(out) && |v4| == |Flags|
    ensures Scan(args, 9, Scanned(4, Options(v4), false, delivery))
      == Scan(args, 15, Scanned(7, Options(v4[4 := l][3 := n2][6 := out]), false, out))
  {
    var v5 := v4[4 := l];
    var v6 := v5[3 := n2];
    ScanNumberStep(args, 9, Scanned(4, Options(v4), false, delivery), 4);
    ScanNumberStep(args, 11, Scanned(5, Options(v5), false, delivery), 3);
    ScanWordStep(args, 13, Scanned(6, Options(v6), false, delivery), 6);
  }

  /** `%s` and the shared buffer: after `--approach` with a value holding
      a word and `--pickuparea` with a blank value, both options hold the
      approach's first word, since a failed `%s` leaves the buffer as it
      was and the assignment copies it. */
  lemma SharedBuffer(args: seq<string>, approach: string, blank: string)
    requires |args| >= 5 && args[1] == Flags[0] && args[2] == approach && args[3] == Flags[1] && args[4] == blank
    requires ScanWord(approach).Some? && ScanWord(blank).None?
    ensures var a := ScanWord(approach).value;
      Scan(args, 1, Start()) == Scan(args, 5, Scanned(2, Options(["", "", "", "", "", "", ""][0 := a][1 := a]), false, a))
  {
    var a := ScanWord(approach).value;
    var s1 := Scanned(1, Options(["", "", "", "", "", "", ""][0 := a]), false, a);
    SharedFirstStore(approach);
    SharedSecondStore(a, blank);
    ScanKnown(args, 1, Start(), 0);
    ScanKnown(args, 3, s1, 1);
  }

  /** The first store of `SharedBuffer`. */
  lemma SharedFirstStore(approach: string)
    requires ScanWord(approach).Some?
    ensures var a := ScanWord(approach).value;
      Store(Start(), 0, approach) == Scanned(1, Options(["", "", "", "", "", "", ""][0 := a]), false, a)
  {
    StoreFirstWord(Start(), 0, approach);
  }

  /** The second store of `SharedBuffer`: the blank value copies the buffer. */
  lemma SharedSecondStore(a: string, blank: string)
    requires ScanWord(blank).None?
    ensures var s1 := Scanned(1, Options(["", "", "", "", "", "", ""][0 := a]), false, a);
      Store(s1, 1, blank) == Scanned(2, Options(["", "", "", "", "", "", ""][0 := a][1 := a]), false, a)
  {
    StoreBlank(Scanned(1, Options(["", "", "", "", "", "", ""][0 := a]), false, a), 1, blank);
  }

  /** The approach "BRKGA x" of the example above runs the BRKGA. */
  lemma FirstWordApproach()
    ensures ScanWord("BRKGA x") == Some("BRKGA")
  {
    ScanWordPadded([], "BRKGA", " x");
    assert [] + ("BRKGA" + " x") == "BRKGA x";
  }
}
