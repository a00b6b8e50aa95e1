/** A single error decodes to its own position (src/bch.c). When the
    syndromes the hardware delivers are those of one error at power `rho`,
    S(j) = a^(j * rho), `bch_decode` completes them, builds the locator
    1 + S1 X, finds its one root at raw root `rho`, and reports one error at
    the remapped position of `rho`. How a flipped bit of the block becomes
    those syndromes is the hardware's part and is taken as the hypothesis
    `OddSyndromes`.

    The argument needs the tables to be inverse to each other, which holds
    when the primitive polynomial really is primitive: the hypothesis
    `Powers.Cyclic`, which `Powers.CyclicOfPrimitive` derives from
    `GfTables.Primitive`. */
module SingleError {
  import opened Field
  import GfTables
  import opened Powers
  import opened Locator
  import opened Chien
  import opened Decoder

  /** The syndromes the hardware delivers for one error at raw root `rho`:
      S1, S3, S5, S7 in slots 0, 2, 4, 6. */
  predicate OddSyndromes(t: Tables, syn: seq<bv13>, rho: nat)
    requires t.Valid()
  {
    && |syn| == 8
    && syn[0] == PowAt(t, rho) && syn[2] == PowAt(t, 3 * rho)
    && syn[4] == PowAt(t, 5 * rho) && syn[6] == PowAt(t, 7 * rho)
  }

  /** All eight syndromes of one error at raw root `rho`: S(n) = a^(n*rho)
      in slot n - 1. */
  predicate AllSyndromes(t: Tables, s: seq<bv13>, rho: nat)
    requires t.Valid()
  {
    && |s| == 8
    && s[0] == PowAt(t, rho) && s[1] == PowAt(t, 2 * rho)
    && s[2] == PowAt(t, 3 * rho) && s[3] == PowAt(t, 4 * rho)
    && s[4] == PowAt(t, 5 * rho) && s[5] == PowAt(t, 6 * rho)
    && s[6] == PowAt(t, 7 * rho) && s[7] == PowAt(t, 8 * rho)
  }

  /** Completing the odd syndromes of one error by squaring yields all
      eight. */
  lemma CompletedSyndromes(t: Tables, syn: seq<bv13>, s: seq<bv13>, rho: nat)
    requires t.Valid() && Cyclic(t) && OddSyndromes(t, syn, rho)
    requires |s| == 8
    requires forall i :: 0 <= i < T ==> s[2 * i] == syn[2 * i]
    requires forall i :: 0 <= i < T ==> s[2 * i + 1] == Sqr(t, s[i])
    ensures AllSyndromes(t, s, rho)
  {
    CompletionSlots(t, syn, s);
    SquareOfPower(t, s[0], s[1], rho, 2 * rho);
    SquareOfPower(t, s[1], s[3], 2 * rho, 4 * rho);
    SquareOfPower(t, s[2], s[5], 3 * rho, 6 * rho);
    SquareOfPower(t, s[3], s[7], 4 * rho, 8 * rho);
  }

  /** The square of a^x is a^y for y = 2x. */
  lemma SquareOfPower(t: Tables, a: bv13, b: bv13, x: nat, y: nat)
    requires t.Valid() && Cyclic(t)
    requires a == PowAt(t, x) && b == Sqr(t, a) && y == 2 * x
    ensures b == PowAt(t, y)
  {
    SqrPowAt(t, x);
  }

  /** The completion rule written out slot by slot. */
  lemma CompletionSlots(t: Tables, syn: seq<bv13>, s: seq<bv13>)
    requires t.Valid() && |syn| == 8 && |s| == 8
    requires forall i :: 0 <= i < T ==> s[2 * i] == syn[2 * i]
    requires forall i :: 0 <= i < T ==> s[2 * i + 1] == Sqr(t, s[i])
    ensures s[0] == syn[0] && s[2] == syn[2] && s[4] == syn[4] && s[6] == syn[6]
    ensures s[1] == Sqr(t, s[0]) && s[3] == Sqr(t, s[1])
    ensures s[5] == Sqr(t, s[2]) && s[7] == Sqr(t, s[3])
  {
    var i0, i1, i2, i3 := 0, 1, 2, 3;
    assert s[2 * i0] == syn[2 * i0] && s[2 * i1] == syn[2 * i1];
    assert s[2 * i2] == syn[2 * i2] && s[2 * i3] == syn[2 * i3];
    assert s[2 * i0 + 1] == Sqr(t, s[i0]) && s[2 * i1 + 1] == Sqr(t, s[i1]);
    assert s[2 * i2 + 1] == Sqr(t, s[i2]) && s[2 * i3 + 1] == Sqr(t, s[i3]);
  }

  /** The locator of one error: 1 + S1 X. */
  function SingleLocator(t: Tables, rho: nat): Poly
    requires t.Valid()
  {
    Poly(1, [1, PowAt(t, rho), 0, 0, 0, 0, 0, 0])
  }

  /** The first round corrects 1 to 1 + S1 X and raises the degree to 1,
      with pelp = 1, pd = S1 and pp = 0. */
  lemma FirstRound(t: Tables, s: seq<bv13>, rho: nat)
    requires t.Valid() && Cyclic(t) && |s| == 8
    requires s[0] == PowAt(t, rho)
    ensures Correct(t, Init(s), 0) == State(SingleLocator(t, rho), One, s[0], 0, s[0])
  {
    var s0 := Init(s);
    var r := Correct(t, s0, 0);
    CorrectSlots(t, s0, 0);
    FirstTerm(t, rho);
    assert r.elp.c[1] == PowAt(t, rho);
    assert r.elp.c == SingleLocator(t, rho).c;
  }

  /** The first correction term: S1 / 1 times the coefficient 1 of pelp,
      computed through the tables, is S1 again. */
  lemma FirstTerm(t: Tables, rho: nat)
    requires t.Valid() && Cyclic(t)
    ensures Scaled(t, LogRatio(t, PowAt(t, rho), 1), 1) == PowAt(t, rho)
  {
    LogOfPowAt(t, 0);
    LogOfPowAt(t, rho);
    assert PowAt(t, 0) == 1;
    ModOfSum(rho, N);
  }

  /** Against the syndromes of one error, 1 + S1 X leaves no discrepancy:
      S(2i+3) + S1 * S(2i+2) = 0, where S(2i+2) = a^x and S(2i+3) =
      a^(rho + x). */
  lemma NoDiscrepancy(t: Tables, s: seq<bv13>, rho: nat, i: nat, x: nat)
    requires t.Valid() && Cyclic(t) && |s| == 8 && i < T - 1
    requires s[2 * i + 1] == PowAt(t, x) && s[2 * i + 2] == PowAt(t, rho + x)
    ensures Discrepancy(t, s, SingleLocator(t, rho), i) == 0
  {
    var p := SingleLocator(t, rho);
    MulPowAt(t, rho, x);
    assert DiscSum(t, s, p, 2 * i + 2, 0) == s[2 * i + 2];
  }

  /** The state after the first round on one error's syndromes: locator
      1 + S1 X of degree 1, pelp = 1, pd = S1, pp = 0, and no discrepancy
      left. */
  function SingleState(t: Tables, s: seq<bv13>, rho: nat): State
    requires t.Valid() && |s| == 8
  {
    State(SingleLocator(t, rho), One, s[0], 0, 0)
  }

  /** Round 0 reaches `SingleState`. */
  lemma OpeningRound(t: Tables, s: seq<bv13>, rho: nat)
    requires t.Valid() && Cyclic(t) && AllSyndromes(t, s, rho)
    ensures Round(t, s, Init(s), 0) == SingleState(t, s, rho)
  {
    FirstRound(t, s, rho);
    NoDiscrepancy(t, s, rho, 0, 2 * rho);
  }

  /** Rounds 1 .. 3 leave `SingleState` as it is. */
  lemma QuietRound(t: Tables, s: seq<bv13>, rho: nat, i: nat)
    requires t.Valid() && Cyclic(t) && AllSyndromes(t, s, rho)
    requires 1 <= i < T && Inv(SingleState(t, s, rho), i)
    ensures Round(t, s, SingleState(t, s, rho), i) == SingleState(t, s, rho)
  {
    if i == 1 {
      NoDiscrepancy(t, s, rho, 1, 4 * rho);
    } else if i == 2 {
      NoDiscrepancy(t, s, rho, 2, 6 * rho);
    }
  }

  /** The Berlekamp-Massey loop on the syndromes of one error ends with the
      locator 1 + S1 X and reports one error. */
  lemma LocatorOfSingleError(t: Tables, s: seq<bv13>, rho: nat)
    requires t.Valid() && Cyclic(t) && |s| == 8
    requires AllSyndromes(t, s, rho)
    ensures ErrorLocator(t, s) == Located(1, SingleLocator(t, rho))
  {
    var st := SingleState(t, s, rho);
    OpeningRound(t, s, rho);
    QuietRound(t, s, rho, 1);
    QuietRound(t, s, rho, 2);
    QuietRound(t, s, rho, 3);
    assert Rounds(t, s, st, 4) == st;
    assert Rounds(t, s, st, 3) == st;
    assert Rounds(t, s, st, 2) == st;
    assert Rounds(t, s, st, 1) == st;
    assert Rounds(t, s, Init(s), 0) == st;
  }

  /** A normalised locator of degree one, X + c, evaluates at a^i to
      c + a^i. */
  lemma EvalOfDegreeOne(t: Tables, rep: seq<Term>, syn0: bv13, i: nat)
    requires t.Valid() && |rep| == 2 && rep[1] == Exp(0)
    ensures Eval(t, rep, syn0, i) == syn0 ^ APow(t, i)
  {
    EvalOfTwoSlots(t, rep, syn0, i);
    assert TermAt(t, rep[1], 1, i) == APow(t, i);
  }

  /** With two slots, the evaluation adds the one term of slot 1 to the
      constant. */
  lemma EvalOfTwoSlots(t: Tables, rep: seq<Term>, syn0: bv13, i: nat)
    requires t.Valid() && |rep| == 2
    ensures Eval(t, rep, syn0, i) == syn0 ^ TermAt(t, rep[1], 1, i)
  {
    assert EvalUpTo(t, rep, syn0, i, 1) == syn0 ^ TermAt(t, rep[1], 1, i);
  }

  /** 1 + S1 X normalises to X + a^(N - rho), with exponent 0 in its leading
      slot. */
  lemma NormalisedSingle(t: Tables, rho: nat)
    requires t.Valid() && Cyclic(t) && rho < N
    ensures var p := SingleLocator(t, rho);
      && |LogRep(t, p)| == 2 && LogRep(t, p)[1] == Exp(0)
      && Div(t, p.c[0], p.c[p.deg]) == t.pow[(N - rho) % N]
  {
    LogOfPowAt(t, rho);
    LogOfPowAt(t, 0);
  }

  /** X + a^(N - rho), the normalised form of 1 + S1 X, vanishes at a^i
      exactly when i is -rho modulo N. */
  lemma EvalOfSingle(t: Tables, rep: seq<Term>, syn0: bv13, rho: nat, i: nat)
    requires t.Valid() && Cyclic(t) && rho < N
    requires |rep| == 2 && rep[1] == Exp(0) && syn0 == t.pow[(N - rho) % N]
    ensures Eval(t, rep, syn0, i) == 0 <==> i % N == (N - rho) % N
  {
    EvalOfDegreeOne(t, rep, syn0, i);
    PowSumZero(t, (N - rho) % N, i % N);
  }

  /** A scan over a range with exactly one zero, at `z`, lists exactly its
      root. */
  lemma {:induction false} ZerosOfOne(t: Tables, rep: seq<Term>, syn0: bv13, lo: nat, hi: nat, z: nat)
    requires t.Valid() && |rep| >= 1 && hi <= N + 1
    requires forall i :: lo <= i < hi ==> (Eval(t, rep, syn0, i) == 0 <==> i == z)
    ensures lo <= z < hi ==> Zeros(t, rep, syn0, lo, hi) == [N - z]
    ensures !(lo <= z < hi) ==> Zeros(t, rep, syn0, lo, hi) == []
    decreases hi
  {
    if lo < hi {
      ZerosOfOne(t, rep, syn0, lo, hi - 1, z);
    }
  }

  /** Among the exponents 1 .. N searched, only N - rho is -rho modulo N. */
  lemma ResidueInWindow(rho: nat, i: nat)
    requires rho < N && 1 <= i <= N
    ensures i % N == (N - rho) % N <==> i == N - rho
  {
  }

  /** For a block that fits the code, the only candidate root of 1 + S1 X
      is `rho` itself. */
  lemma CandidatesOfSingle(t: Tables, len: nat, rho: nat)
    requires t.Valid() && Cyclic(t)
    requires BlockBits(len) <= N && rho < BlockBits(len)
    ensures Fits32(len)
    ensures Candidates(t, SingleLocator(t, rho), len) == [rho]
  {
    var p := SingleLocator(t, rho);
    var rep := LogRep(t, p);
    var syn0 := Div(t, p.c[0], p.c[p.deg]);
    var lo := ScanStart(len);
    NormalisedSingle(t, rho);
    forall i | lo <= i < N + 1
      ensures Eval(t, rep, syn0, i) == 0 <==> i == N - rho
    {
      EvalOfSingle(t, rep, syn0, rho, i);
      ResidueInWindow(rho, i);
    }
    ZerosOfOne(t, rep, syn0, lo, N + 1, N - rho);
  }

  /** One bit error at raw root `rho` decodes to one error, reported at the
      remapped position of `rho`. */
  method DecodeSingleError(prev: seq<nat>, t: Tables, len: nat, rho: nat, syn: seq<bv13>, errloc: seq<nat>)
    returns (r: int, loc: seq<nat>)
    requires GfTables.Built(prev, t) && GfTables.Primitive(t)
    requires BlockBits(len) <= N && rho < BlockBits(len)
    requires OddSyndromes(t, syn, rho) && |errloc| >= T
    ensures r == 1
    ensures |loc| == |errloc| && loc[0] == Reported(BlockBits(len), rho)
    ensures forall n :: 1 <= n < |loc| ==> loc[n] == errloc[n]
  {
    CyclicOfPrimitive(prev, t);
    CandidatesOfSingle(t, len, rho);
    var s;
    r, s, loc := Decode(t, len, syn, errloc);
    CompletedSyndromes(t, syn, s, rho);
    LocatorOfSingleError(t, s, rho);
  }
}
