/** The Mersenne Twister MT19937 generator of `MTRand`, on 32-bit words.
    The generator is a value: 624 state words and the count `left` of
    words not yet drawn since the last reload.  The pointer `pNext` of
    the class is always `&state[N - left]`, so it is not stored. */
module MersenneTwister {
  import opened Wrappers

  type Word = bv32

  const N: nat := 624
  const M: nat := 397
  /** Length of the array written by `save`: the state and `left`. */
  const SaveLength: nat := N + 1

  datatype MT = MT(state: seq<Word>, left: int)

  predicate Valid(g: MT) {
    |g.state| == N && 0 <= g.left <= N
  }

  // ---------------------------------------------------------------------
  // Seeding (brkga.h lines 175-190)
  // ---------------------------------------------------------------------

  /** Knuth's multiplicative step that derives state word i from word i - 1. */
  function Knuth(prev: Word, i: nat): Word
    requires i < N
  {
    1812433253 * (prev ^ (prev >> 30)) + (i as Word)
  }

  /** `initialize`: word 0 is the seed and every later word follows from
      its predecessor by `Knuth`. */
  method Initialize(seed: Word) returns (state: seq<Word>)
    ensures |state| == N && state[0] == seed
    ensures forall i :: 1 <= i < N ==> state[i] == Knuth(state[i - 1], i)
  {
    state := [seed];
    for i := 1 to N
      invariant |state| == i && state[0] == seed
      invariant forall k :: 1 <= k < i ==> state[k] == Knuth(state[k - 1], k)
    {
      state := state + [Knuth(state[i - 1], i)];
    }
  }

  // ---------------------------------------------------------------------
  // The twist (brkga.h lines 136-144, 192-206)
  // ---------------------------------------------------------------------

  /** `twist(m, s0, s1)`: the upper bit of s0 and the lower 31 bits of s1,
      shifted right, with the matrix constant when s1 is odd. */
  function Twist(m: Word, s0: Word, s1: Word): Word {
    var mixed := (s0 & 0x8000_0000) | (s1 & 0x7fff_ffff);
    m ^ (mixed >> 1) ^ (if s1 & 1 != 0 then 0x9908_b0df else 0)
  }

  /** The MT19937 linear recurrence x[k + N] = x[k + M] xor twist(x[k],
      x[k + 1]) over the current state x[0..N), as in Matsumoto and
      Nishimura, ACM TOMACS 8(1), 1998.  Word j of the extended
      sequence, for j < 2N. */
  ghost function Extended(words: seq<Word>, j: nat): Word
    requires |words| == N && j < 2 * N
    decreases j
  {
    if j < N then words[j]
    else Twist(Extended(words, j - N + M), Extended(words, j - N), Extended(words, j - N + 1))
  }

  /** `reload`: the three loops of the source, folded into one whose
      partner index is `i + M` while that lies in the words part and
      `i + M - N` (already regenerated) afterwards, and whose successor
      wraps to the new word 0 at the end. */
  method Reload(words: seq<Word>) returns (s: seq<Word>)
    requires |words| == N
    ensures |s| == N
    ensures forall k :: 0 <= k < N ==> s[k] == Extended(words, N + k)
  {
    s := words;
    for i := 0 to N
      invariant |s| == N
      invariant forall p :: 0 <= p < i ==> s[p] == Extended(words, N + p)
      invariant forall p :: i <= p < N ==> s[p] == words[p]
    {
      var mate := if i < N - M then i + M else i + M - N;
      var next := if i + 1 < N then i + 1 else 0;
      ReloadStep(words, s, i, mate, next);
      s := s[i := Twist(s[mate], s[i], s[next])];
    }
  }

  /** The words the step at index i reads are the right words of the
      extended sequence. */
  lemma ReloadStep(words: seq<Word>, s: seq<Word>, i: nat, mate: nat, next: nat)
    requires |words| == N && |s| == N && i < N
    requires forall p :: 0 <= p < i ==> s[p] == Extended(words, N + p)
    requires forall p :: i <= p < N ==> s[p] == words[p]
    requires mate == if i < N - M then i + M else i + M - N
    requires next == if i + 1 < N then i + 1 else 0
    ensures mate < N && next < N
    ensures Extended(words, N + i) == Twist(s[mate], s[i], s[next])
  {
    assert Extended(words, i) == s[i];
    if i < N - M {
      assert Extended(words, i + M) == s[mate];
    } else {
      assert Extended(words, i + M) == Extended(words, N + mate) == s[mate];
    }
    if i + 1 < N {
      assert Extended(words, i + 1) == s[next];
    } else {
      assert Extended(words, i + 1) == Extended(words, N + 0) == s[0];
    }
  }

  /** `seed(oneSeed)`: initialise, then reload; all N words are fresh. */
  method Seed(oneSeed: Word) returns (g: MT)
    ensures Valid(g) && g.left == N
    ensures exists init :: (|init| == N && init[0] == oneSeed
      && (forall i :: 1 <= i < N ==> init[i] == Knuth(init[i - 1], i))
      && (forall k :: 0 <= k < N ==> g.state[k] == Extended(init, N + k)))
  {
    var init := Initialize(oneSeed);
    var s := Reload(init);
    g := MT(s, N);
  }

  // ---------------------------------------------------------------------
  // Drawing (brkga.h lines 292-325)
  // ---------------------------------------------------------------------

  /** The tempering transform applied to each drawn state word. */
  function Temper(y: Word): Word {
    var a := y ^ (y >> 11);
    var b := a ^ ((a << 7) & 0x9d2c_5680);
    var c := b ^ ((b << 15) & 0xefc6_0000);
    c ^ (c >> 18)
  }

  /** `randInt()`: reload exactly when no word is left, then hand out the
      next word, tempered; `pNext` is the word at index N - left. */
  method RandInt(g: MT) returns (value: Word, next: MT)
    requires Valid(g)
    ensures Valid(next)
    ensures next.left == (if g.left == 0 then N else g.left) - 1
    ensures g.left > 0 ==> next.state == g.state
    ensures g.left == 0 ==> forall k :: 0 <= k < N ==> next.state[k] == Extended(g.state, N + k)
    ensures value == Temper(next.state[N - 1 - next.left])
    ensures next == Advance(g) && value == Drawn(g)
  {
    var state := g.state;
    var left := g.left;
    if left == 0 {
      state := Reload(state);
      left := N;
    }
    left := left - 1;
    value := Temper(state[N - 1 - left]);
    next := MT(state, left);
    assert g.left == 0 ==> state == Reloaded(g.state);
  }

  /** The words a reload puts in place of `words`, by the recurrence. */
  ghost function Reloaded(words: seq<Word>): (s: seq<Word>)
    requires |words| == N
    ensures |s| == N && forall k :: 0 <= k < N ==> s[k] == Extended(words, N + k)
  {
    seq(N, k requires 0 <= k < N => Extended(words, N + k))
  }

  /** The generator after one `randInt()`: reloaded when no word is left,
      then one word fewer. */
  ghost function Advance(g: MT): (h: MT)
    requires Valid(g)
    ensures Valid(h) && h.left < N
    ensures g.left > 0 ==> h.state == g.state
  {
    if g.left == 0 then MT(Reloaded(g.state), N - 1) else MT(g.state, g.left - 1)
  }

  /** The word `randInt()` returns from `g`: the tempered word that
      `pNext` points at once the generator has advanced. */
  ghost function Drawn(g: MT): Word
    requires Valid(g)
  {
    var h := Advance(g);
    Temper(h.state[N - 1 - h.left])
  }

  /** The generator after k calls of `randInt()`. */
  ghost function After(g: MT, k: nat): (h: MT)
    requires Valid(g)
    ensures Valid(h)
    decreases k
  {
    if k == 0 then g else Advance(After(g, k - 1))
  }

  /** Draw number k (from 0) of the stream with the bits outside `used`
      tossed, as `randInt(n)` does with `used == Mask(n)`. */
  ghost function Masked(g: MT, used: Word, k: nat): Word
    requires Valid(g)
  {
    Drawn(After(g, k)) & used
  }

  /** Successive draws walk through the state words in order: while
      words are left, draw i returns the tempered word N - left + i. */
  method DrawMany(g: MT, count: nat) returns (values: seq<Word>, next: MT)
    requires Valid(g) && count <= g.left
    ensures |values| == count && Valid(next)
    ensures next.state == g.state && next.left == g.left - count
    ensures forall i :: 0 <= i < count ==> values[i] == Temper(g.state[N - g.left + i])
  {
    values := [];
    next := g;
    for i := 0 to count
      invariant |values| == i && Valid(next)
      invariant next.state == g.state && next.left == g.left - i
      invariant forall k :: 0 <= k < i ==> values[k] == Temper(g.state[N - g.left + k])
    {
      var v;
      v, next := RandInt(next);
      values := values + [v];
    }
  }

  /** The mask of `randInt(n)`: n with every bit below its highest set
      bit turned on, the least 2^k - 1 that is at least n. */
  function Mask(n: Word): (used: Word)
    ensures n <= used
    ensures used & (used + 1) == 0
    ensures n == 0 || used >> 1 < n
  {
    var u1 := n | (n >> 1);
    var u2 := u1 | (u1 >> 2);
    var u3 := u2 | (u2 >> 4);
    var u4 := u3 | (u3 >> 8);
    u4 | (u4 >> 16)
  }

  /** `randInt(n)`: draw masked words until one is at most n.  The source
      loops until it succeeds; here at most `fuel` draws are made and
      `None` reports that all of them were rejected.  `draws` counts the
      calls of `randInt()` made. */
  method RandIntBelow(g: MT, n: Word, fuel: nat) returns (r: Option<Word>, next: MT, ghost draws: nat)
    requires Valid(g)
    ensures Valid(next) && draws <= fuel && next == After(g, draws)
    ensures r.Some? ==> r.value <= n
    ensures r.Some? ==> 1 <= draws && r.value == Masked(g, Mask(n), draws - 1)
    ensures r.Some? ==> Rejected(g, n, Mask(n), draws - 1)
    ensures r.None? ==> draws == fuel && Rejected(g, n, Mask(n), draws)
    ensures fuel > 0 && Mask(n) == n ==> r.Some?
  {
    r, next, draws := Rejection(g, n, Mask(n), fuel);
  }

  /** The do-while loop of `randInt(n)` with the mask `used`: each pass
      draws a word and keeps its bits in `used`; the first result at most
      n ends the loop. */
  method Rejection(g: MT, n: Word, used: Word, fuel: nat) returns (r: Option<Word>, next: MT, ghost draws: nat)
    requires Valid(g)
    ensures Valid(next) && draws <= fuel && next == After(g, draws)
    ensures r.Some? ==> r.value <= n
    ensures r.Some? ==> 1 <= draws && r.value == Masked(g, used, draws - 1) && Rejected(g, n, used, draws - 1)
    ensures r.None? ==> draws == fuel && Rejected(g, n, used, draws)
    ensures fuel > 0 && used == n ==> r.Some?
  {
    next := g;
    r := None;
    var tries := 0;
    while tries < fuel
      invariant Valid(next) && tries <= fuel && next == After(g, tries)
      invariant Rejected(g, n, used, tries) && r.None?
      invariant used == n ==> tries == 0
      decreases fuel - tries
    {
      var i, accepted;
      i, accepted, next := Attempt(g, n, tries, next, used);
      if accepted {
        r := Some(i);
        draws := tries + 1;
        return;
      }
      RejectStep(g, n, used, tries, i);
      tries := tries + 1;
    }
    draws := tries;
  }

  /** Draws 0 to k - 1 of the loop of `randInt(n)` were all rejected. */
  ghost predicate Rejected(g: MT, n: Word, used: Word, k: nat)
    requires Valid(g)
  {
    k == 0 || (Rejected(g, n, used, k - 1) && Masked(g, used, k - 1) > n)
  }

  /** A rejected draw extends the run of rejections by one. */
  lemma RejectStep(g: MT, n: Word, used: Word, k: nat, i: Word)
    requires Valid(g) && Rejected(g, n, used, k)
    requires i == Masked(g, used, k) && !(i <= n)
    ensures Rejected(g, n, used, k + 1)
  {
  }

  /** Rejection of the first k draws, one draw at a time, is rejection of
      each of them. */
  lemma {:induction false} RejectedAll(g: MT, n: Word, used: Word, k: nat)
    requires Valid(g) && Rejected(g, n, used, k)
    ensures forall j :: 0 <= j < k ==> Masked(g, used, j) > n
  {
    if k > 0 {
      RejectedAll(g, n, used, k - 1);
    }
  }

  /** Conversely, draws each above n make a run of rejections. */
  lemma {:induction false} AllRejected(g: MT, n: Word, used: Word, k: nat)
    requires Valid(g) && forall j :: 0 <= j < k ==> Masked(g, used, j) > n
    ensures Rejected(g, n, used, k)
  {
    if k > 0 {
      AllRejected(g, n, used, k - 1);
      assert Masked(g, used, k - 1) > n;
    }
  }

  /** One pass of the loop of `randInt(n)`: draw a word and toss its
      unused bits.  After k earlier draws this is draw k of the stream. */
  method Attempt(g: MT, n: Word, k: nat, before: MT, used: Word) returns (i: Word, accepted: bool, after: MT)
    requires Valid(g) && before == After(g, k)
    ensures after == After(g, k + 1) && i == Masked(g, used, k)
    ensures accepted <==> i <= n
    ensures used == n ==> accepted
  {
    var v;
    v, after := RandInt(before);
    i := v & used;
    AndBelow(v, used);
    MaskedOf(g, used, k, before, v);
    accepted := i <= n;
  }

  /** The word drawn from the k-th state of the stream, masked, is draw k. */
  lemma MaskedOf(g: MT, used: Word, k: nat, before: MT, v: Word)
    requires Valid(g) && before == After(g, k) && v == Drawn(before)
    ensures v & used == Masked(g, used, k)
  {
  }

  lemma AndBelow(v: Word, used: Word)
    ensures v & used <= used
  {
  }

  // ---------------------------------------------------------------------
  // Saving, loading and copying (brkga.h lines 282-290, 375-392, 412-422)
  // ---------------------------------------------------------------------

  /** An entry of the array `save` writes: an unsigned 32-bit value. */
  type Saved = x: int | 0 <= x < 0x1_0000_0000

  /** `save`: the N state words followed by `left`. */
  function Save(g: MT): (saved: seq<Saved>)
    requires Valid(g)
    ensures |saved| == SaveLength
    ensures forall i :: 0 <= i < N ==> saved[i] == g.state[i] as int
    ensures saved[N] == g.left
  {
    seq(N, i requires 0 <= i < N => g.state[i] as int) + [g.left]
  }

  /** `load`: the first N entries become the state and the last one
      `left`. The source sets `pNext` to `&state[N - left]` without a
      check, so a count above N is undefined behaviour there; callers
      must pass a count of at most N. */
  function Load(saved: seq<Saved>): (r: MT)
    requires |saved| == SaveLength && saved[N] <= N
    ensures Valid(r) && r.left == saved[N]
    ensures forall i :: 0 <= i < N ==> r.state[i] == saved[i] as Word
  {
    MT(seq(N, i requires 0 <= i < N => saved[i] as Word), saved[N])
  }

  /** Loading what was saved restores the generator. */
  lemma SaveLoad(g: MT)
    requires Valid(g)
    ensures Load(Save(g)) == g
  {
    var saved := Save(g);
    var state := seq(N, i requires 0 <= i < N => saved[i] as Word);
    forall i | 0 <= i < N
      ensures state[i] == g.state[i]
    {
      WordRoundTrip(g.state[i]);
    }
    assert state == g.state;
  }

  lemma WordRoundTrip(w: Word)
    ensures (w as int) as Word == w
  {
  }

  /** The copy constructor: the state word by word, then `left`. */
  method Copy(o: MT) returns (g: MT)
    requires Valid(o)
    ensures g == o
  {
    var state: seq<Word> := [];
    for i := 0 to N
      invariant state == o.state[..i]
    {
      state := state + [o.state[i]];
    }
    assert state == o.state;
    g := MT(state, o.left);
  }

  /** `operator=`: a self-assignment returns at once; otherwise the
      target becomes a copy of the source. */
  method Assign(target: MT, o: MT, aliased: bool) returns (g: MT)
    requires Valid(o)
    requires aliased ==> target == o
    ensures g == o
    ensures aliased ==> g == target
  {
    if aliased {
      return target;
    }
    g := Copy(o);
  }
}
