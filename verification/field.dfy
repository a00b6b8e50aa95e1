/** Arithmetic in GF(2^13) as the 4-bit BCH decoder performs it (src/bch.c).

    A field element is a 13-bit vector, so addition is XOR. Multiplication,
    squaring and division go through two tables: `pow[i]` is the generator
    raised to `i` and `log[x]` is the exponent of `x`. The tables are plain
    data here; how `bch_init` fills them is in module GfTables. */
module Field {

  /** Field degree m: elements are 13-bit vectors. */
  const M: nat := 13
  /** Number of correctable bit errors t. */
  const T: nat := 4
  /** 2^m - 1, the order of the multiplicative group. */
  const N: nat := 8191
  /** Width of the parity part of a codeword, m * t bits. */
  const EccBits: nat := 52
  /** The primitive polynomial x^13 + x^10 + x^8 + x^7 + x^5 + x^3 + x^2 + x + 1. */
  const PrimPoly: nat := 0x25AF

  function Pow2(n: nat): (r: nat)
    ensures r >= 1
  {
    if n == 0 then 1 else 2 * Pow2(n - 1)
  }

  /** `deg`: the index of the most significant set bit, found by shifting right
      until the value vanishes (0 for an input of 0 or 1). */
  function Deg(poly: nat): (n: nat)
    ensures poly >= 1 ==> Pow2(n) <= poly < 2 * Pow2(n)
    ensures poly <= 1 ==> n == 0
  {
    if poly / 2 == 0 then 0 else 1 + Deg(poly / 2)
  }

  /** The primitive polynomial has degree m, so `1 << deg(poly)` is the bit
      that the table builder tests and clears. */
  lemma PrimPolyDegree()
    ensures Deg(PrimPoly) == M
    ensures Pow2(Deg(PrimPoly)) == 0x2000
  {
    var d := Deg(PrimPoly);
    assert Pow2(13) == 0x2000 && Pow2(14) == 0x4000;
    if d < 13 {
      PowMonotone(d + 1, 13);
      assert false;
    } else if d > 13 {
      PowMonotone(14, d);
      assert false;
    }
  }

  lemma {:induction false} PowMonotone(a: nat, b: nat)
    requires a <= b
    ensures Pow2(a) <= Pow2(b)
    decreases b - a
  {
    if a < b {
      PowMonotone(a + 1, b);
    }
  }

  /** One folding step of `modulo`: for a 32-bit `v`, `(v & 8191) + (v >> 13)`
      is the low 13 bits plus the value of the remaining high bits. */
  function Fold(v: nat): (r: nat)
    ensures r <= v
    ensures r % N == v % N
  {
    var q := v / 8192;
    assert v == 8192 * q + v % 8192;
    v % 8192 + q
  }

  /** `modulo`: reduces an exponent into [0, N). Each round subtracts N and
      folds, which keeps the residue since 8192 = 1 (mod 8191). */
  function Modulo(v: nat): (r: nat)
    ensures r < N
    ensures r % N == v % N
    decreases v
  {
    if v < N then v else Modulo(Fold(v - N))
  }

  /** Reducing one summand first does not change a sum's residue. */
  lemma ModOfSum(a: nat, b: nat)
    ensures (a % N + b) % N == (a + b) % N
  {
    var q := a / N;
    assert a == N * q + a % N;
  }

  /** `mod_s`: the single conditional subtraction, exact below 2N. */
  function ModS(v: nat): (r: nat)
    requires v < 2 * N
    ensures r == v % N
  {
    if v < N then v else v - N
  }

  /** The exponent and logarithm tables, 8192 entries each
      (`a_pow_tab`, `a_log_tab`). */
  datatype Tables = Tables(pow: seq<bv13>, log: seq<nat>) {

    /** What every field operation relies on: both tables have 8192 entries,
        no power is zero and every logarithm is a valid exponent below N. */
    ghost predicate Valid() {
      && |pow| == N + 1
      && |log| == N + 1
      && (forall i :: 0 <= i < |pow| ==> pow[i] != 0)
      && (forall y: bv13 :: LogAt(log, y) < N)
    }
  }

  /** The entry of a logarithm table at field element `y`. */
  function LogAt(log: seq<nat>, y: bv13): nat
    requires |log| == N + 1
  {
    log[y as int]
  }

  /** Distinct field elements select distinct table entries. */
  lemma IndexInjective(x: bv13, y: bv13)
    requires x != y
    ensures x as int != y as int
  {
    assert (x as int) as bv13 == x;
    assert (y as int) as bv13 == y;
  }

  /** Writing `log[e] = v` changes the entry of `e` and no other. */
  function SetLog(log: seq<nat>, e: bv13, v: nat): (r: seq<nat>)
    requires |log| == N + 1
    ensures |r| == N + 1
    ensures LogAt(r, e) == v
    ensures forall y: bv13 :: y != e ==> LogAt(r, y) == LogAt(log, y)
  {
    var r := log[e as int := v];
    forall y: bv13 | y != e
      ensures LogAt(r, y) == LogAt(log, y)
    {
      IndexInjective(e, y);
    }
    r
  }

  /** `a_pow(i)`: the generator raised to `i`, never zero. */
  function APow(t: Tables, i: nat): (r: bv13)
    requires t.Valid()
    ensures r != 0
    ensures r == t.pow[i % N]
  {
    t.pow[Modulo(i)]
  }

  /** `a_log(x)`: the exponent of `x`, a valid table index. */
  function ALog(t: Tables, x: bv13): (r: nat)
    requires t.Valid()
    ensures r < N
  {
    LogAt(t.log, x)
  }

  /** `gf_mul`: zero exactly when a factor is zero, otherwise the power at the
      sum of the logarithms. */
  function Mul(t: Tables, a: bv13, b: bv13): (r: bv13)
    requires t.Valid()
    ensures r == 0 <==> a == 0 || b == 0
    ensures a != 0 && b != 0 ==> r == t.pow[(ALog(t, a) + ALog(t, b)) % N]
  {
    if a != 0 && b != 0 then t.pow[ModS(ALog(t, a) + ALog(t, b))] else 0
  }

  /** `gf_sqr` agrees with multiplying an element by itself. */
  function Sqr(t: Tables, a: bv13): (r: bv13)
    requires t.Valid()
    ensures r == Mul(t, a, a)
    ensures r == 0 <==> a == 0
  {
    if a != 0 then t.pow[ModS(2 * ALog(t, a))] else 0
  }

  /** `gf_div`: zero exactly when the dividend is zero; otherwise the power at
      the difference of the logarithms, taken modulo N. */
  function Div(t: Tables, a: bv13, b: bv13): (r: bv13)
    requires t.Valid()
    ensures r == 0 <==> a == 0
    ensures a != 0 ==> r == t.pow[(ALog(t, a) + N - ALog(t, b)) % N]
  {
    if a != 0 then t.pow[ModS(ALog(t, a) + N - ALog(t, b))] else 0
  }

  /** `gf_mul` is commutative. */
  lemma MulCommutes(t: Tables, a: bv13, b: bv13)
    requires t.Valid()
    ensures Mul(t, a, b) == Mul(t, b, a)
  {
  }
}
