/** The error-locator polynomial builder `compute_error_locator_polynomial`
    (src/bch.c): four rounds of the simplified binary Berlekamp-Massey
    iteration over the eight syndromes S1..S8.

    The file-level scratch polynomials `elp`, `pelp` and `elp_copy` of the
    source become fields of an explicit `State` value that each round takes
    and returns; `elp_copy` is simply the `elp` of the incoming state. */
module Locator {
  import opened Field
  import GfTables

  /** `struct gf_poly`: a tracked degree and the eight coefficient slots
      `c[0..7]`, `c[j]` being the coefficient of X^j. */
  datatype Poly = Poly(deg: nat, c: seq<bv13>)

  /** Eight slots, a degree that names one of them, and nothing stored above
      the degree. */
  predicate WellFormed(p: Poly) {
    |p.c| == 8 && p.deg < 8 && forall j :: p.deg < j < 8 ==> p.c[j] == 0
  }

  /** The polynomial 1, where both `elp` and `pelp` start. */
  const One: Poly := Poly(0, [1, 0, 0, 0, 0, 0, 0, 0])

  /** The loop variables: the candidate locator `elp`, the locator `pelp` of
      the last round that raised the degree, that round's discrepancy `pd`
      and marker `pp` (2i, or -1 before any), and the current discrepancy
      `d`. */
  datatype State = State(elp: Poly, pelp: Poly, pd: bv13, pp: int, d: bv13)

  /** What holds at the top of round `i`. The degree sum ties the two
      polynomials to `pp`; with `pp < 2i` it keeps the shift `k = 2i - pp`
      at least 1 (so `c[0]` is never written) and every write `c[j + k]`
      at or below slot `2i + 1 - elp.deg`. Both degrees are the real
      degrees: the coefficient in slot `deg` is nonzero. */
  predicate Inv(s: State, i: nat) {
    && WellFormed(s.elp) && WellFormed(s.pelp)
    && s.elp.c[0] == 1 && s.pelp.c[0] == 1
    && -1 <= s.pp < 2 * i
    && s.elp.deg + s.pelp.deg == s.pp + 1
    && s.pd != 0
    && s.elp.c[s.elp.deg] != 0 && s.pelp.c[s.pelp.deg] != 0
  }

  /** Under the invariant the shifted previous locator never ends exactly at
      the current degree: that would need 2i + 1 == 2 * elp.deg. So the
      strict comparison `pelp.deg + k > elp.deg` of the source is never
      decided by a tie. */
  lemma NoTie(s: State, i: nat)
    requires Inv(s, i)
    ensures s.pelp.deg + (2 * i - s.pp) != s.elp.deg
  {
  }

  /** The state before the first round: both polynomials 1, `pd = 1`,
      `pp = -1` and `d = S1`. */
  function Init(syn: seq<bv13>): (s: State)
    requires |syn| == 8
    ensures Inv(s, 0)
    ensures s.d == syn[0]
  {
    State(One, One, 1, -1, syn[0])
  }

  /** `tmp = a_log(d) + N - a_log(pd)`: the exponent of d / pd, shifted to
      stay non-negative. */
  function LogRatio(t: Tables, d: bv13, pd: bv13): nat
    requires t.Valid()
  {
    ALog(t, d) + N - ALog(t, pd)
  }

  /** The term the correction adds for a coefficient `x` of `pelp`:
      `a_pow(tmp + a_log(x))`, and nothing for a zero coefficient. */
  function Scaled(t: Tables, tmp: nat, x: bv13): bv13
    requires t.Valid()
  {
    if x != 0 then APow(t, tmp + ALog(t, x)) else 0
  }

  /** One iteration of the inner loop: when `p.c[j]` is nonzero, XOR
      `a_pow(tmp + a_log(p.c[j]))` into slot `j + k`. Only that slot
      changes, and it changes by the scaled coefficient. */
  function AddTerm(t: Tables, c: seq<bv13>, p: Poly, k: nat, tmp: nat, j: nat): (r: seq<bv13>)
    requires t.Valid()
    requires |c| == 8 && |p.c| == 8 && j <= p.deg && p.deg + k < 8
    ensures |r| == 8
    ensures r[j + k] == c[j + k] ^ Scaled(t, tmp, p.c[j])
    ensures forall m :: 0 <= m < 8 && m != j + k ==> r[m] == c[m]
  {
    if p.c[j] != 0 then c[j + k := c[j + k] ^ APow(t, tmp + ALog(t, p.c[j]))] else c
  }

  /** The inner loop over `j = from .. p.deg` that XORs the scaled
      coefficients of `p` into `c`, shifted up by `k` slots; what it amounts
      to is `AddShiftedSlots`. */
  function AddShifted(t: Tables, c: seq<bv13>, p: Poly, k: nat, tmp: nat, from: nat): (r: seq<bv13>)
    requires t.Valid()
    requires |c| == 8 && |p.c| == 8 && p.deg + k < 8
    requires from <= p.deg + 1
    ensures |r| == 8
    decreases p.deg + 1 - from
  {
    if from > p.deg then c
    else AddShifted(t, AddTerm(t, c, p, k, tmp, from), p, k, tmp, from + 1)
  }

  /** The loop adds `X^k * (d / pd) * p` into `c`, restricted to the slots
      `k + from .. k + p.deg` not yet visited, and leaves every other slot
      alone. */
  lemma {:induction false} AddShiftedSlots(t: Tables, c: seq<bv13>, p: Poly, k: nat, tmp: nat, from: nat)
    requires t.Valid()
    requires |c| == 8 && |p.c| == 8 && p.deg + k < 8
    requires from <= p.deg + 1
    ensures forall m :: 0 <= m < 8 && !(k + from <= m <= k + p.deg) ==>
      AddShifted(t, c, p, k, tmp, from)[m] == c[m]
    ensures forall j :: from <= j <= p.deg ==>
      AddShifted(t, c, p, k, tmp, from)[j + k] == c[j + k] ^ Scaled(t, tmp, p.c[j])
    decreases p.deg + 1 - from
  {
    if from <= p.deg {
      var c' := AddTerm(t, c, p, k, tmp, from);
      AddShiftedSlots(t, c', p, k, tmp, from + 1);
      var r := AddShifted(t, c', p, k, tmp, from + 1);
      assert AddShifted(t, c, p, k, tmp, from) == r;
      forall j | from < j <= p.deg
        ensures r[j + k] == c[j + k] ^ Scaled(t, tmp, p.c[j])
      {
        assert c'[j + k] == c[j + k];
      }
    }
  }

  /** The body of a round with a nonzero discrepancy: add the shifted,
      scaled previous locator, and raise the degree only when the shifted
      previous locator reaches strictly above the current degree. Only in
      that case does the pre-update candidate become the new `pelp` and
      `(pd, pp)` become `(d, 2i)`. A tie cannot happen (`NoTie`). */
  function Correct(t: Tables, s: State, i: nat): (r: State)
    requires t.Valid()
    requires Inv(s, i) && i < T && s.elp.deg <= T && s.d != 0
    ensures Inv(r, i + 1)
    ensures r.d == s.d
    ensures r.elp.deg >= s.elp.deg
    ensures var k := 2 * i - s.pp;
      if s.pelp.deg + k > s.elp.deg
      then r.elp.deg == s.pelp.deg + k && r.pelp == s.elp && r.pd == s.d && r.pp == 2 * i
      else r.elp.deg == s.elp.deg && r.pelp == s.pelp && r.pd == s.pd && r.pp == s.pp
  {
    var k := 2 * i - s.pp;
    var tmp := LogRatio(t, s.d, s.pd);
    var c := AddShifted(t, s.elp.c, s.pelp, k, tmp, 0);
    CorrectedShape(t, s, i, c);
    var elp := s.elp.(c := c);
    if s.pelp.deg + k > s.elp.deg then
      State(elp.(deg := s.pelp.deg + k), s.elp, s.d, 2 * i, s.d)
    else
      s.(elp := elp)
  }

  /** The coefficients after a correction: `elp + X^k * (d / pd) * pelp`
      with `k = 2i - pp`, slot by slot. */
  lemma CorrectSlots(t: Tables, s: State, i: nat)
    requires t.Valid()
    requires Inv(s, i) && i < T && s.elp.deg <= T && s.d != 0
    ensures var k := 2 * i - s.pp;
      forall j :: 0 <= j <= s.pelp.deg ==>
        Correct(t, s, i).elp.c[j + k] == s.elp.c[j + k] ^ Scaled(t, LogRatio(t, s.d, s.pd), s.pelp.c[j])
    ensures var k := 2 * i - s.pp;
      forall m :: 0 <= m < 8 && !(k <= m <= k + s.pelp.deg) ==> Correct(t, s, i).elp.c[m] == s.elp.c[m]
  {
    var k, tmp := 2 * i - s.pp, LogRatio(t, s.d, s.pd);
    var c := Correct(t, s, i).elp.c;
    CorrectAddsShifted(t, s, i);
    ShiftedSlots(t, s.elp.c, s.pelp, k, tmp, c);
  }

  /** `AddShiftedSlots` for the whole loop, about a named result. */
  lemma ShiftedSlots(t: Tables, e: seq<bv13>, p: Poly, k: nat, tmp: nat, c: seq<bv13>)
    requires t.Valid()
    requires |e| == 8 && |p.c| == 8 && p.deg + k < 8
    requires c == AddShifted(t, e, p, k, tmp, 0)
    ensures forall j :: 0 <= j <= p.deg ==> c[j + k] == e[j + k] ^ Scaled(t, tmp, p.c[j])
    ensures forall m :: 0 <= m < 8 && !(k <= m <= k + p.deg) ==> c[m] == e[m]
  {
    AddShiftedSlots(t, e, p, k, tmp, 0);
  }

  lemma CorrectAddsShifted(t: Tables, s: State, i: nat)
    requires t.Valid()
    requires Inv(s, i) && i < T && s.elp.deg <= T && s.d != 0
    ensures Correct(t, s, i).elp.c == AddShifted(t, s.elp.c, s.pelp, 2 * i - s.pp, LogRatio(t, s.d, s.pd), 0)
  {
  }

  /** After the shifted addition the invariant holds again, whichever of
      the two degrees the source keeps. */
  lemma CorrectedShape(t: Tables, s: State, i: nat, c: seq<bv13>)
    requires t.Valid()
    requires Inv(s, i) && i < T && s.elp.deg <= T && s.d != 0
    requires c == AddShifted(t, s.elp.c, s.pelp, 2 * i - s.pp, LogRatio(t, s.d, s.pd), 0)
    ensures var k := 2 * i - s.pp;
      s.pelp.deg + k > s.elp.deg ==> Inv(State(Poly(s.pelp.deg + k, c), s.elp, s.d, 2 * i, s.d), i + 1)
    ensures var k := 2 * i - s.pp;
      s.pelp.deg + k <= s.elp.deg ==> Inv(State(Poly(s.elp.deg, c), s.pelp, s.pd, s.pp, s.d), i + 1)
  {
    var k, tmp := 2 * i - s.pp, LogRatio(t, s.d, s.pd);
    AddShiftedSlots(t, s.elp.c, s.pelp, k, tmp, 0);
    SlotsStayInShape(s.elp, s.pelp, k, c);
    NoTie(s, i);
    TopSlot(t, s.elp, s.pelp, k, tmp, c);
  }

  /** The top coefficient after the shifted addition: when the shifted `p`
      reaches above `e`, its top term lands in an empty slot and is a
      nonzero power; when it stays below, `e`'s top slot is not touched. */
  lemma TopSlot(t: Tables, e: Poly, p: Poly, k: nat, tmp: nat, c: seq<bv13>)
    requires t.Valid() && WellFormed(e) && WellFormed(p) && |c| == 8
    requires 1 <= k && p.deg + k < 8
    requires e.c[e.deg] != 0 && p.c[p.deg] != 0
    requires forall m :: 0 <= m < 8 && !(k <= m <= k + p.deg) ==> c[m] == e.c[m]
    requires forall j :: 0 <= j <= p.deg ==> c[j + k] == e.c[j + k] ^ Scaled(t, tmp, p.c[j])
    ensures p.deg + k > e.deg ==> c[p.deg + k] != 0
    ensures p.deg + k < e.deg ==> c[e.deg] != 0
  {
    var top := p.deg;
    assert c[top + k] == e.c[top + k] ^ Scaled(t, tmp, p.c[top]);
  }

  /** Adding a copy of `p` shifted up by at least one slot keeps the constant
      term and stores nothing above the larger of the two degrees. */
  lemma SlotsStayInShape(e: Poly, p: Poly, k: nat, c: seq<bv13>)
    requires WellFormed(e) && WellFormed(p) && |c| == 8
    requires 1 <= k && p.deg + k < 8
    requires forall m :: 0 <= m < 8 && !(k <= m <= k + p.deg) ==> c[m] == e.c[m]
    ensures c[0] == e.c[0]
    ensures forall m :: e.deg < m < 8 && p.deg + k < m ==> c[m] == 0
  {
  }

  /** `d ^= gf_mul(elp.c[j], syn[n - j])` for `j = 1 .. upto`, starting from
      `syn[n]`. Coefficients that are zero add nothing, so for the locator 1
      the sum is `syn[n]`; and syndromes that are zero add nothing, so zero
      syndromes give a zero sum whatever the locator. */
  function DiscSum(t: Tables, syn: seq<bv13>, p: Poly, n: nat, upto: nat): (d: bv13)
    requires t.Valid()
    requires |syn| == 8 && |p.c| == 8 && n < 8 && upto <= n && upto < 8
    ensures (forall j :: 1 <= j <= upto ==> p.c[j] == 0) ==> d == syn[n]
    ensures (forall j :: n - upto <= j <= n ==> syn[j] == 0) ==> d == 0
  {
    if upto == 0 then syn[n]
    else DiscSum(t, syn, p, n, upto - 1) ^ Mul(t, p.c[upto], syn[n - upto])
  }

  /** The next discrepancy S(2i+3) + sum of elp.c[j] * S(2i+3-j) over the
      candidate's degree, read from syndrome slot `2i + 2` downwards. */
  function Discrepancy(t: Tables, syn: seq<bv13>, p: Poly, i: nat): bv13
    requires t.Valid()
    requires |syn| == 8 && WellFormed(p) && i < T - 1 && p.deg <= 2 * i + 2
  {
    DiscSum(t, syn, p, 2 * i + 2, p.deg)
  }

  /** One pass of the `for` body: the correction when `d != 0`, then, in the
      first three rounds, the next discrepancy. */
  function Round(t: Tables, syn: seq<bv13>, s: State, i: nat): (r: State)
    requires t.Valid() && |syn| == 8
    requires Inv(s, i) && i < T && s.elp.deg <= T
    ensures Inv(r, i + 1)
    ensures r.elp.deg >= s.elp.deg
    ensures s.d == 0 ==> r.elp == s.elp && r.pelp == s.pelp && r.pd == s.pd && r.pp == s.pp
  {
    var s' := if s.d != 0 then Correct(t, s, i) else s;
    if i < T - 1 then s'.(d := Discrepancy(t, syn, s'.elp, i)) else s'
  }

  /** The `for` loop from round `i`, guarded by `i < 4 && elp.deg <= 4`. */
  function Rounds(t: Tables, syn: seq<bv13>, s: State, i: nat): (r: State)
    requires t.Valid() && |syn| == 8
    requires Inv(s, i) && i <= T
    ensures Inv(r, T)
    ensures r.elp.deg >= s.elp.deg
    decreases T - i
  {
    if i < T && s.elp.deg <= T then Rounds(t, syn, Round(t, syn, s, i), i + 1) else s
  }

  /** The builder's outcome: its return value and the final `elp`. */
  datatype Located = Located(ret: int, elp: Poly)

  /** `compute_error_locator_polynomial`: -1 when the degree ends above 4,
      otherwise the degree, 0..4. The locator keeps constant term 1, and its
      degree is the real one: the top coefficient is nonzero. */
  function ErrorLocator(t: Tables, syn: seq<bv13>): (r: Located)
    requires t.Valid() && |syn| == 8
    ensures WellFormed(r.elp) && r.elp.c[0] == 1
    ensures r.elp.c[r.elp.deg] != 0
    ensures r.ret == -1 <==> r.elp.deg > T
    ensures r.ret != -1 ==> 0 <= r.ret <= T && r.ret == r.elp.deg
  {
    var s := Rounds(t, syn, Init(syn), 0);
    Located(if s.elp.deg > T then -1 else s.elp.deg, s.elp)
  }

  /** With every syndrome zero no discrepancy ever appears, so the loop
      leaves its starting state untouched from any round on. */
  lemma {:induction false} ZeroSyndromesKeepInit(t: Tables, syn: seq<bv13>, i: nat)
    requires t.Valid() && |syn| == 8
    requires forall j :: 0 <= j < 8 ==> syn[j] == 0
    requires i <= T
    ensures Rounds(t, syn, Init(syn), i) == Init(syn)
    decreases T - i
  {
    if i < T {
      assert Round(t, syn, Init(syn), i) == Init(syn);
      ZeroSyndromesKeepInit(t, syn, i + 1);
    }
  }

  /** All-zero syndromes give the locator 1, of degree 0. */
  lemma ZeroSyndromesNoErrors(t: Tables, syn: seq<bv13>)
    requires t.Valid() && |syn| == 8
    requires forall j :: 0 <= j < 8 ==> syn[j] == 0
    ensures ErrorLocator(t, syn) == Located(0, One)
  {
    ZeroSyndromesKeepInit(t, syn, 0);
  }

  /** The log-domain term for a nonzero `x` is the power at the exponent
      sum of d / pd and x, modulo N; when the log table inverts the power
      table at the exponent of d / pd, that is the product `(d / pd) * x`. */
  lemma ScaledExponent(t: Tables, d: bv13, pd: bv13, x: bv13)
    requires t.Valid() && x != 0
    ensures Scaled(t, LogRatio(t, d, pd), x) == t.pow[((LogRatio(t, d, pd) % N) + ALog(t, x)) % N]
    ensures d != 0 && ALog(t, t.pow[LogRatio(t, d, pd) % N]) == LogRatio(t, d, pd) % N ==>
      Scaled(t, LogRatio(t, d, pd), x) == Mul(t, Div(t, d, pd), x)
  {
    ModOfSum(LogRatio(t, d, pd), ALog(t, x));
  }

  /** Under primitivity the log-domain term really is the product
      `(d / pd) * x`, which is why the correction never divides. */
  lemma ScaledIsProduct(prev: seq<nat>, t: Tables, d: bv13, pd: bv13, x: bv13)
    requires GfTables.Built(prev, t) && GfTables.Primitive(t)
    requires d != 0 && pd != 0 && x != 0
    ensures Scaled(t, LogRatio(t, d, pd), x) == Mul(t, Div(t, d, pd), x)
  {
    GfTables.LogOfPow(prev, t, LogRatio(t, d, pd) % N);
    ScaledExponent(t, d, pd, x);
  }
}
