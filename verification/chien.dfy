/** Root finding for the error-locator polynomial: `gf_poly_logrep` and
    `chien_search` (src/bch.c). The polynomial is normalised to be monic in
    log form, then evaluated at a^i for the last `8*len + 52` exponents
    i <= N; every i where it vanishes gives the raw root N - i. */
module Chien {
  import opened Field
  import opened Locator
  import opened Powers

  /** One slot of the log representation (`cache`): the exponent of a
      nonzero normalised coefficient, or no term at all where the source
      stores -1. */
  datatype Term = Absent | Exp(e: nat)

  /** `gf_poly_logrep` followed by `cache[deg] = 0`: below the degree, each
      nonzero coefficient becomes the exponent of c[i] / c[deg] and each
      zero coefficient becomes `Absent`; the leading slot is exponent 0,
      i.e. coefficient 1. */
  function LogRep(t: Tables, p: Poly): (rep: seq<Term>)
    requires t.Valid() && WellFormed(p)
    ensures |rep| == p.deg + 1
    ensures rep[p.deg] == Exp(0)
    ensures forall i :: 0 <= i < p.deg ==> (rep[i] == Absent <==> p.c[i] == 0)
    ensures forall i :: 0 <= i < p.deg && rep[i].Exp? ==>
      rep[i].e < N && t.pow[rep[i].e] == Div(t, p.c[i], p.c[p.deg])
  {
    var l := N - ALog(t, p.c[p.deg]);
    seq(p.deg + 1, i requires 0 <= i <= p.deg =>
      if i == p.deg then Exp(0)
      else if p.c[i] != 0 then Exp(ModS(ALog(t, p.c[i]) + l))
      else Absent)
  }

  /** The contribution of slot `j` at exponent `i`: `a_pow(m + j*i)` for a
      present exponent `m`, nothing for an absent one. */
  function TermAt(t: Tables, term: Term, j: nat, i: nat): bv13
    requires t.Valid()
  {
    match term
    case Absent => 0
    case Exp(m) => APow(t, m + j * i)
  }

  /** The accumulator of the inner loop after slots 1..j: `syn0` XOR the
      contributions of those slots. */
  function EvalUpTo(t: Tables, rep: seq<Term>, syn0: bv13, i: nat, j: nat): bv13
    requires t.Valid() && j < |rep|
  {
    if j == 0 then syn0 else EvalUpTo(t, rep, syn0, i, j - 1) ^ TermAt(t, rep[j], j, i)
  }

  /** The log-domain sum the search computes for a^i, with `syn0` standing
      for the constant term. `EvalIsNormalisedValue` shows it is the
      normalised locator's value where the log table undoes the power
      table. */
  function Eval(t: Tables, rep: seq<Term>, syn0: bv13, i: nat): bv13
    requires t.Valid() && |rep| >= 1
  {
    EvalUpTo(t, rep, syn0, i, |rep| - 1)
  }

  /** The normalised locator at a^i computed with the field operations
      instead of the log domain: `syn0` plus (c[j] / c[deg]) * a^(j*i) over
      the slots j = 1 .. upto. With `syn0 = c[0] / c[deg]` and `upto = deg`
      this is elp(a^i) / c[deg]. */
  function NormalisedValue(t: Tables, p: Poly, syn0: bv13, i: nat, upto: nat): bv13
    requires t.Valid() && WellFormed(p) && upto <= p.deg
  {
    if upto == 0 then syn0
    else NormalisedValue(t, p, syn0, i, upto - 1) ^ Mul(t, Div(t, p.c[upto], p.c[p.deg]), PowAt(t, upto * i))
  }

  /** Slot by slot, the log-domain term `a_pow(m + j*i)` is the normalised
      coefficient times a^(j*i), and nothing for a zero coefficient. */
  lemma TermIsProduct(t: Tables, p: Poly, i: nat, j: nat)
    requires t.Valid() && Cyclic(t) && WellFormed(p) && p.c[p.deg] != 0
    requires 1 <= j <= p.deg
    ensures TermAt(t, LogRep(t, p)[j], j, i) == Mul(t, Div(t, p.c[j], p.c[p.deg]), PowAt(t, j * i))
  {
    if j == p.deg {
      LeadingTermIsPower(t, p, j * i);
    } else if LogRep(t, p)[j].Exp? {
      InnerTermIsProduct(t, p, j, j * i);
    }
  }

  /** The leading slot holds exponent 0, and c[deg] / c[deg] is 1. */
  lemma LeadingTermIsPower(t: Tables, p: Poly, y: nat)
    requires t.Valid() && Cyclic(t) && WellFormed(p) && p.c[p.deg] != 0
    ensures APow(t, y) == Mul(t, Div(t, p.c[p.deg], p.c[p.deg]), PowAt(t, y))
  {
    assert Div(t, p.c[p.deg], p.c[p.deg]) == PowAt(t, 0);
    MulPowAt(t, 0, y);
  }

  /** A present slot below the degree holds the exponent of the normalised
      coefficient. */
  lemma InnerTermIsProduct(t: Tables, p: Poly, j: nat, y: nat)
    requires t.Valid() && Cyclic(t) && WellFormed(p) && p.c[p.deg] != 0
    requires 1 <= j < p.deg && LogRep(t, p)[j].Exp?
    ensures APow(t, LogRep(t, p)[j].e + y) == Mul(t, Div(t, p.c[j], p.c[p.deg]), PowAt(t, y))
  {
    var rep := LogRep(t, p);
    assert PowAt(t, rep[j].e) == Div(t, p.c[j], p.c[p.deg]);
    MulPowAt(t, rep[j].e, y);
  }

  /** Where the log table undoes the power table, the log-domain sum the
      search computes is the normalised locator evaluated by field
      multiplication. */
  lemma {:induction false} EvalIsNormalisedValue(t: Tables, p: Poly, syn0: bv13, i: nat, upto: nat)
    requires t.Valid() && Cyclic(t) && WellFormed(p) && p.c[p.deg] != 0 && upto <= p.deg
    ensures EvalUpTo(t, LogRep(t, p), syn0, i, upto) == NormalisedValue(t, p, syn0, i, upto)
    decreases upto
  {
    if upto > 0 {
      EvalIsNormalisedValue(t, p, syn0, i, upto - 1);
      TermIsProduct(t, p, i, upto);
    }
  }

  /** The raw roots `N - i` for `lo <= i < hi` at which the log-domain sum
      `Eval` vanishes, in increasing order of `i` (decreasing order of root). The
      contract says nothing else is listed; `ZerosComplete` says nothing is
      missing. */
  function Zeros(t: Tables, rep: seq<Term>, syn0: bv13, lo: nat, hi: nat): (r: seq<nat>)
    requires t.Valid() && |rep| >= 1 && hi <= N + 1
    ensures forall n :: 0 <= n < |r| ==> r[n] <= N && lo <= N - r[n] < hi
    ensures forall n :: 0 <= n < |r| ==> Eval(t, rep, syn0, N - r[n]) == 0
    ensures forall n, m :: 0 <= n < m < |r| ==> r[n] > r[m]
    decreases hi
  {
    if hi <= lo then []
    else
      var z := Zeros(t, rep, syn0, lo, hi - 1);
      if Eval(t, rep, syn0, hi - 1) == 0 then z + [N - (hi - 1)] else z
  }

  /** Every exponent in the range where the log-domain sum `Eval` vanishes
      has its root listed. */
  lemma {:induction false} ZerosComplete(t: Tables, rep: seq<Term>, syn0: bv13, lo: nat, hi: nat, i: nat)
    requires t.Valid() && |rep| >= 1 && hi <= N + 1
    requires lo <= i < hi && Eval(t, rep, syn0, i) == 0
    ensures N - i in Zeros(t, rep, syn0, lo, hi)
    decreases hi
  {
    if i < hi - 1 {
      ZerosComplete(t, rep, syn0, lo, hi - 1, i);
    }
  }

  /** Scanning further only appends roots. */
  lemma {:induction false} ZerosPrefix(t: Tables, rep: seq<Term>, syn0: bv13, lo: nat, h1: nat, h2: nat)
    requires t.Valid() && |rep| >= 1 && h1 <= h2 <= N + 1
    ensures Zeros(t, rep, syn0, lo, h1) <= Zeros(t, rep, syn0, lo, h2)
    decreases h2 - h1
  {
    if h1 < h2 {
      ZerosPrefix(t, rep, syn0, lo, h1, h2 - 1);
    }
  }

  /** `k = 8*len + 52`: the bits of a codeword with `len` data bytes. */
  function BlockBits(len: nat): nat
  {
    8 * len + EccBits
  }

  /** Whether `k` fits the source's 32-bit unsigned arithmetic. */
  predicate Fits32(len: nat) {
    BlockBits(len) < 0x1_0000_0000
  }

  /** The first exponent searched, `GF_N - k + 1` in unsigned arithmetic:
      exactly the last `k` exponents up to N when the block fits the code,
      and past N (so no exponent at all) when it does not. */
  function ScanStart(len: nat): (lo: nat)
    requires Fits32(len)
    ensures BlockBits(len) <= N + 1 ==> lo == N + 1 - BlockBits(len)
    ensures BlockBits(len) > N + 1 ==> lo > N
  {
    (N + 1 - BlockBits(len)) % 0x1_0000_0000
  }

  /** elp(a^i) / c[deg], computed with the field operations: the
      normalised locator with its own constant term. */
  function LocatorValue(t: Tables, p: Poly, i: nat): bv13
    requires t.Valid() && WellFormed(p)
  {
    NormalisedValue(t, p, Div(t, p.c[0], p.c[p.deg]), i, p.deg)
  }

  /** Where the log table undoes the power table, a zero of the log-domain
      sum `Eval` that the search computes is a zero of the normalised
      locator. */
  lemma ZeroIsGenuine(t: Tables, p: Poly, i: nat)
    requires t.Valid() && Cyclic(t) && WellFormed(p) && p.c[p.deg] != 0
    requires Eval(t, LogRep(t, p), Div(t, p.c[0], p.c[p.deg]), i) == 0
    ensures LocatorValue(t, p, i) == 0
  {
    EvalIsNormalisedValue(t, p, Div(t, p.c[0], p.c[p.deg]), i, p.deg);
  }

  /** The roots the search can report for `p`: every zero of the
      log-domain sum `Eval` of its normalised form over the searched
      exponents, each inside the block, strictly decreasing. */
  function Candidates(t: Tables, p: Poly, len: nat): (r: seq<nat>)
    requires t.Valid() && WellFormed(p) && Fits32(len)
    ensures forall n :: 0 <= n < |r| ==> r[n] < BlockBits(len)
    ensures forall n, m :: 0 <= n < m < |r| ==> r[n] > r[m]
  {
    Zeros(t, LogRep(t, p), Div(t, p.c[0], p.c[p.deg]), ScanStart(len), N + 1)
  }

  /** The inner loop of `chien_search`: elp(a^i), accumulated slot by slot
      from `syn0`. */
  method EvalAt(t: Tables, rep: seq<Term>, syn0: bv13, i: nat) returns (syn: bv13)
    requires t.Valid() && |rep| >= 1
    ensures syn == Eval(t, rep, syn0, i)
  {
    syn := syn0;
    var j := 1;
    while j < |rep|
      invariant 1 <= j <= |rep|
      invariant syn == EvalUpTo(t, rep, syn0, i, j - 1)
    {
      syn := syn ^ TermAt(t, rep[j], j, i);
      j := j + 1;
    }
  }

  /** The outer loop of `chien_search`: exponents from `lo` up to N,
      collecting roots until `want` of them are found. It stops at `h`,
      having collected exactly the zeros below `h`; unless it reached the end
      of the range, it stopped because it found `want`. */
  method Scan(t: Tables, rep: seq<Term>, syn0: bv13, lo: nat, want: nat) returns (roots: seq<nat>, ghost h: nat)
    requires t.Valid() && |rep| >= 1 && want >= 1
    ensures h <= N + 1 && roots == Zeros(t, rep, syn0, lo, h)
    ensures |roots| <= want
    ensures h == N + 1 || |roots| == want
  {
    var i := lo;
    h := if i <= N + 1 then i else N + 1;
    roots := [];
    while i <= N
      invariant lo <= i && h <= N + 1
      invariant h == if i <= N + 1 then i else N + 1
      invariant roots == Zeros(t, rep, syn0, lo, h)
      invariant |roots| < want
    {
      var syn := EvalAt(t, rep, syn0, i);
      if syn == 0 {
        roots := roots + [N - i];
        if |roots| == want {
          h := i + 1;
          return;
        }
      }
      i := i + 1;
      h := i;
    }
  }

  /** `chien_search` for a locator of degree 1..4: the roots found are the
      first `deg` candidates, or all of them when there are fewer, and the
      count is the degree when that many were found and 0 otherwise. */
  method ChienSearch(t: Tables, p: Poly, len: nat) returns (count: nat, roots: seq<nat>)
    requires t.Valid() && WellFormed(p) && 1 <= p.deg <= T
    requires Fits32(len)
    ensures count == p.deg || count == 0
    ensures count == p.deg <==> |roots| == p.deg
    ensures |roots| <= p.deg
    ensures roots <= Candidates(t, p, len)
    ensures |roots| == p.deg || roots == Candidates(t, p, len)
    ensures forall n :: 0 <= n < |roots| ==> roots[n] < BlockBits(len)
    ensures forall n, m :: 0 <= n < m < |roots| ==> roots[n] > roots[m]
  {
    var rep := LogRep(t, p);
    var syn0 := Div(t, p.c[0], p.c[p.deg]);
    ghost var h;
    roots, h := Scan(t, rep, syn0, ScanStart(len), p.deg);
    ScanOutcome(t, p, len, h);
    count := if |roots| == p.deg then p.deg else 0;
  }

  /** What a scan stopped at exponent `h` has found: a prefix of the
      candidates, all of them when it ran to the end. */
  lemma ScanOutcome(t: Tables, p: Poly, len: nat, h: nat)
    requires t.Valid() && WellFormed(p) && Fits32(len) && h <= N + 1
    ensures var z := Zeros(t, LogRep(t, p), Div(t, p.c[0], p.c[p.deg]), ScanStart(len), h);
      && z <= Candidates(t, p, len)
      && (h == N + 1 ==> z == Candidates(t, p, len))
      && (forall n :: 0 <= n < |z| ==> z[n] < BlockBits(len))
  {
    ZerosPrefix(t, LogRep(t, p), Div(t, p.c[0], p.c[p.deg]), ScanStart(len), h, N + 1);
  }
}
