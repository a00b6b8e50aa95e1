/** The exponent/logarithm table build of `bch_init` (src/bch.c), and what the
    rest of the decoder may conclude from it.

    The builder runs the linear feedback shift register of the primitive
    polynomial for N steps from 1 and records every state. Whether those N
    states are pairwise distinct (primitivity of 0x25AF) is not proved here:
    it is the hypothesis `Primitive`, taken explicitly by the lemmas that
    need it. */
module GfTables {
  import opened Field

  /** The bit `1 << deg(poly)` that marks an overflow out of 13 bits
      (`OverflowIsTopBit`). */
  const Overflow: bv32 := 0x2000
  /** The primitive polynomial as the 32-bit word the builder XORs in. */
  const PolyWord: bv32 := 0x25AF

  /** The overflow bit is `1 << deg(poly)` for the primitive polynomial, and
      the word the register XORs in is that polynomial. */
  lemma OverflowIsTopBit()
    ensures Overflow as int == Pow2(Deg(PrimPoly))
    ensures PolyWord as int == PrimPoly
  {
    PrimPolyDegree();
  }

  /** One register step: shift left and, when bit 13 comes up, XOR in the
      polynomial, which clears that bit again. Nonzero 13-bit states stay
      nonzero 13-bit states: the shifted value is even while the polynomial is
      odd. */
  function LfsrStep(x: bv32): (y: bv32)
    ensures x < Overflow ==> y < Overflow
    ensures 0 < x < Overflow ==> y != 0
  {
    var s := x << 1;
    if s & Overflow != 0 then s ^ PolyWord else s
  }

  /** The register state after `i` steps from 1, i.e. the generator raised to
      `i` as the builder computes it. */
  function Lfsr(i: nat): (x: bv32)
    ensures 0 < x < Overflow
  {
    if i == 0 then 1 else LfsrStep(Lfsr(i - 1))
  }

  /** Among the first `n` powers, `l` is the last position holding `y`. */
  ghost predicate LastVisit(pow: seq<bv13>, n: nat, y: bv13, l: nat)
    requires n <= |pow|
  {
    l < n && pow[l] == y && forall j :: l < j < n ==> pow[j] != y
  }

  ghost predicate Visited(pow: seq<bv13>, n: nat, y: bv13)
    requires n <= |pow|
  {
    exists j :: 0 <= j < n && pow[j] == y
  }

  /** After the first `n` steps, the log entry of every nonzero element the
      register has visited is the step of its last visit, and every other
      nonzero entry still holds what the table held before. */
  ghost predicate LogsRecorded(prev: seq<nat>, pow: seq<bv13>, log: seq<nat>, n: nat)
    requires |prev| == N + 1 && |log| == N + 1 && n <= |pow|
  {
    forall y: bv13 :: y != 0 ==>
      if Visited(pow, n, y) then LastVisit(pow, n, y, LogAt(log, y))
      else LogAt(log, y) == LogAt(prev, y)
  }

  /** The tables `bch_init` leaves behind when the log table held `prev`. */
  ghost predicate Built(prev: seq<nat>, t: Tables)
  {
    && |prev| == N + 1
    && t.Valid()
    && (forall i :: 0 <= i < N ==> t.pow[i] == Lfsr(i) as bv13)
    && t.pow[N] == 1
    && LogAt(t.log, 0) == 0
    && LogsRecorded(prev, t.pow, t.log, N)
  }

  /** `bch_init`. The log table is static storage: it starts zeroed, and any
      entry the register never reaches keeps its earlier contents, so the
      model takes those contents as `prevLog`. */
  method BuildTables(prevLog: seq<nat>) returns (t: Tables)
    requires |prevLog| == N + 1
    requires forall y: bv13 :: LogAt(prevLog, y) < N
    ensures Built(prevLog, t)
    ensures t.pow[0] == 1 && t.pow[N] == 1
    ensures forall i :: 0 <= i <= N ==> 0 < t.pow[i]
    ensures LogAt(t.log, 0) == 0
    ensures forall y: bv13 :: ALog(t, y) < N
  {
    // every entry of the power table is overwritten below
    var pow: seq<bv13> := seq(N + 1, _ => 0);
    var log := prevLog;
    var x: bv32 := 1;
    var i := 0;
    while i < N
      invariant 0 <= i <= N
      invariant |pow| == N + 1 && |log| == N + 1
      invariant x == Lfsr(i)
      invariant forall j :: 0 <= j < i ==> pow[j] == Lfsr(j) as bv13
      invariant forall j :: 0 <= j < i ==> pow[j] != 0
      invariant forall y: bv13 :: LogAt(log, y) < N
      invariant LogAt(log, 0) == LogAt(prevLog, 0)
      invariant LogsRecorded(prevLog, pow, log, i)
    {
      var e := x as bv13;
      var pow', log' := pow[i := e], SetLog(log, e, i);
      RecordStep(prevLog, pow, log, i, e);
      pow, log := pow', log';
      x := LfsrStep(x);
      i := i + 1;
    }
    var pow0 := pow;
    pow := pow0[N := 1];
    SealPowerTable(prevLog, pow0, log);
    log := SetLog(log, 0, 0);
    t := Tables(pow, log);
  }

  /** One iteration of the builder's loop keeps `LogsRecorded`: writing
      `pow[i] = e` and `log[e] = i` makes `i` the last visit of `e` and leaves
      every other element's entry as it was. */
  lemma RecordStep(prev: seq<nat>, pow: seq<bv13>, log: seq<nat>, i: nat, e: bv13)
    requires |prev| == N + 1 && |log| == N + 1 && i < |pow|
    requires LogsRecorded(prev, pow, log, i)
    ensures LogsRecorded(prev, pow[i := e], SetLog(log, e, i), i + 1)
  {
    var pow', log' := pow[i := e], SetLog(log, e, i);
    forall y: bv13 | Visited(pow, i, y)
      ensures Visited(pow', i + 1, y)
    {
      var j :| 0 <= j < i && pow[j] == y;
      assert pow'[j] == y;
    }
    forall y: bv13 | y != 0
      ensures if Visited(pow', i + 1, y) then LastVisit(pow', i + 1, y, LogAt(log', y))
              else LogAt(log', y) == LogAt(prev, y)
    {
      if y != e {
        if Visited(pow', i + 1, y) {
          var j :| 0 <= j < i + 1 && pow'[j] == y;
          assert Visited(pow, i, y);
        }
      } else {
        assert pow'[i] == y;
      }
    }
  }

  /** Writing `pow[N] = 1` after the loop touches no entry the log table
      refers to. */
  lemma SealPowerTable(prev: seq<nat>, pow: seq<bv13>, log: seq<nat>)
    requires |prev| == N + 1 && |log| == N + 1 && |pow| == N + 1
    requires LogsRecorded(prev, pow, log, N)
    ensures LogsRecorded(prev, pow[N := 1], log, N)
  {
    var pow' := pow[N := 1];
    forall y: bv13 | y != 0
      ensures Visited(pow', N, y) == Visited(pow, N, y)
    {
      if Visited(pow', N, y) {
        var j :| 0 <= j < N && pow'[j] == y;
        assert pow[j] == y;
      }
      if Visited(pow, N, y) {
        var j :| 0 <= j < N && pow[j] == y;
        assert pow'[j] == y;
      }
    }
  }

  /** Running `bch_init` a second time, over the log table the first run left,
      reproduces both tables at every field element. */
  lemma BuildIdempotent(prev: seq<nat>, t1: Tables, t2: Tables)
    requires Built(prev, t1)
    requires Built(t1.log, t2)
    ensures t2.pow == t1.pow
    ensures forall y: bv13 :: ALog(t2, y) == ALog(t1, y)
  {
    assert t2.pow == t1.pow by {
      forall i | 0 <= i <= N
        ensures t2.pow[i] == t1.pow[i]
      {
      }
    }
    forall y: bv13
      ensures ALog(t2, y) == ALog(t1, y)
    {
      if y != 0 && Visited(t1.pow, N, y) {
        var l1, l2 := LogAt(t1.log, y), LogAt(t2.log, y);
        assert LastVisit(t1.pow, N, y, l1);
        assert LastVisit(t1.pow, N, y, l2);
      }
    }
  }

  /** The hypothesis this model does not prove: the powers a^0 .. a^(N-1)
      are pairwise distinct and reach every nonzero element. */
  ghost predicate Primitive(t: Tables)
    requires t.Valid()
  {
    && (forall i, j :: 0 <= i < j < N ==> t.pow[i] != t.pow[j])
    && (forall y: bv13 :: y != 0 ==> Visited(t.pow, N, y))
  }

  /** Under primitivity the two tables are inverse to each other: `log`
      undoes `pow` on every exponent below N, and `pow` undoes `log` on every
      nonzero element. */
  lemma LogInvertsPow(prev: seq<nat>, t: Tables)
    requires Built(prev, t)
    requires Primitive(t)
    ensures forall i :: 0 <= i < N ==> ALog(t, t.pow[i]) == i
    ensures forall y: bv13 :: y != 0 ==> t.pow[ALog(t, y)] == y
  {
    forall y: bv13 | y != 0
      ensures t.pow[ALog(t, y)] == y
    {
      assert Visited(t.pow, N, y);
      assert LastVisit(t.pow, N, y, LogAt(t.log, y));
    }
    forall i | 0 <= i < N
      ensures ALog(t, t.pow[i]) == i
    {
      var y := t.pow[i];
      var l := LogAt(t.log, y);
      assert Visited(t.pow, N, y);
      assert LastVisit(t.pow, N, y, l);
    }
  }

  /** Under primitivity `a_log(a_pow(e)) == e` for every exponent below N. */
  lemma LogOfPow(prev: seq<nat>, t: Tables, e: nat)
    requires Built(prev, t)
    requires Primitive(t)
    requires e < N
    ensures t.Valid()
    ensures ALog(t, t.pow[e]) == e
  {
    LogInvertsPow(prev, t);
  }

  /** `gf_div(1, a)` is a multiplicative inverse of every nonzero `a`. */
  lemma MulInverse(prev: seq<nat>, t: Tables, a: bv13)
    requires Built(prev, t)
    requires Primitive(t)
    requires a != 0
    ensures Mul(t, a, Div(t, 1, a)) == 1
  {
    LogInvertsPow(prev, t);
    var la := ALog(t, a);
    assert t.pow[0] == 1;
    assert ALog(t, 1) == 0;
    var e := (N - la) % N;
    assert Div(t, 1, a) == t.pow[e];
    assert ALog(t, t.pow[e]) == e;
    assert (la + e) % N == 0;
  }

  /** Division undoes multiplication: `gf_mul(gf_div(a, b), b) == a` for
      nonzero `a` and `b`. */
  lemma DivThenMul(prev: seq<nat>, t: Tables, a: bv13, b: bv13)
    requires Built(prev, t)
    requires Primitive(t)
    requires a != 0 && b != 0
    ensures Mul(t, Div(t, a, b), b) == a
  {
    LogInvertsPow(prev, t);
    var la, lb := ALog(t, a), ALog(t, b);
    var e := (la + N - lb) % N;
    assert Div(t, a, b) == t.pow[e];
    assert ALog(t, t.pow[e]) == e;
    assert (e + lb) % N == la;
  }
}
