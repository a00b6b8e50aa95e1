/** Powers of the generator a as the tables of `bch_init` (src/bch.c) hold
    them, and the arithmetic the table-driven field operations perform on
    them once the log table undoes the power table. That inverse property is
    `Cyclic`; `CyclicOfPrimitive` derives it from the hypothesis
    `GfTables.Primitive`. */
module Powers {
  import opened Field
  import GfTables

  /** The generator raised to `e`, for any natural `e`. */
  function PowAt(t: Tables, e: nat): bv13
    requires t.Valid()
  {
    t.pow[e % N]
  }

  /** The generator's zeroth power is 1, and the log table undoes the power
      table on every exponent below N. */
  ghost predicate Cyclic(t: Tables)
    requires t.Valid()
  {
    && t.pow[0] == 1
    && forall e :: 0 <= e < N ==> ALog(t, t.pow[e]) == e
  }

  /** Tables built from a primitive polynomial are cyclic. */
  lemma CyclicOfPrimitive(prev: seq<nat>, t: Tables)
    requires GfTables.Built(prev, t) && GfTables.Primitive(t)
    ensures t.Valid() && Cyclic(t)
  {
    GfTables.LogInvertsPow(prev, t);
    assert t.pow[0] == GfTables.Lfsr(0) as bv13;
  }

  /** The exponent of a power, reduced mod N. */
  lemma LogOfPowAt(t: Tables, e: nat)
    requires t.Valid() && Cyclic(t)
    ensures ALog(t, PowAt(t, e)) == e % N
  {
  }

  /** Powers multiply by adding exponents. */
  lemma MulPowAt(t: Tables, x: nat, y: nat)
    requires t.Valid() && Cyclic(t)
    ensures Mul(t, PowAt(t, x), PowAt(t, y)) == PowAt(t, x + y)
  {
    LogOfPowAt(t, x);
    LogOfPowAt(t, y);
    ModOfSum(x, y % N);
    ModOfSum(y, x);
  }

  /** Squaring a power doubles its exponent. */
  lemma SqrPowAt(t: Tables, x: nat)
    requires t.Valid() && Cyclic(t)
    ensures Sqr(t, PowAt(t, x)) == PowAt(t, 2 * x)
  {
    MulPowAt(t, x, x);
  }

  /** Two powers below N agree only at equal exponents. */
  lemma PowInjective(t: Tables, x: nat, y: nat)
    requires t.Valid() && Cyclic(t) && x < N && y < N
    requires t.pow[x] == t.pow[y]
    ensures x == y
  {
    assert ALog(t, t.pow[x]) == x && ALog(t, t.pow[y]) == y;
  }

  /** Two powers below N cancel exactly when their exponents agree. */
  lemma PowSumZero(t: Tables, x: nat, y: nat)
    requires t.Valid() && Cyclic(t) && x < N && y < N
    ensures t.pow[x] ^ t.pow[y] == 0 <==> x == y
  {
    XorZero(t.pow[x], t.pow[y]);
    if t.pow[x] == t.pow[y] {
      PowInjective(t, x, y);
    }
  }

  /** Addition in a field of characteristic 2 cancels only equal values. */
  lemma XorZero(a: bv13, b: bv13)
    ensures a ^ b == 0 <==> a == b
  {
  }
}
