/** The decoding front end `bch_decode` (src/bch.c): complete the syndrome
    vector, build the error locator, find its roots, and turn each raw root
    into the bit position a caller corrects. */
module Decoder {
  import opened Field
  import opened Locator
  import opened Chien

  /** The completion loop: for `i = 0 .. 3`, slot `2i + 1` receives the
      square of slot `i`. In the one-based names of the syndromes that is
      S(2j) = S(j)^2, which holds of every binary code. Slots 1 and 3 are
      read after they were written, so S4 = S2^2 and S8 = S4^2 use the
      fresh values; the even slots are the inputs and are never written. */
  method CompleteSyndromes(t: Tables, syn: seq<bv13>) returns (s: seq<bv13>)
    requires t.Valid() && |syn| == 8
    ensures |s| == 8
    ensures forall i :: 0 <= i < T ==> s[2 * i] == syn[2 * i]
    ensures forall i :: 0 <= i < T ==> s[2 * i + 1] == Sqr(t, s[i])
  {
    s := syn;
    var i := 0;
    while i < T
      invariant 0 <= i <= T && |s| == 8
      invariant forall j :: 0 <= j < T ==> s[2 * j] == syn[2 * j]
      invariant forall j :: 0 <= j < i ==> s[2 * j + 1] == Sqr(t, s[j])
    {
      s := s[2 * i + 1 := Sqr(t, s[i])];
      i := i + 1;
    }
  }

  /** `(p & ~7) | (7 - (p & 7))`: reverse the bit index inside its byte,
      keeping the byte. Written on naturals: `p / 8 * 8` is `p & ~7` and
      `p % 8` is `p & 7`. */
  function Flip(p: nat): (q: nat)
    ensures q / 8 == p / 8
    ensures q % 8 == 7 - p % 8
  {
    p / 8 * 8 + (7 - p % 8)
  }

  /** Reversing the bit index twice gives the position back. */
  lemma FlipInvolution(p: nat)
    ensures Flip(Flip(p)) == p
  {
    var q := Flip(p);
    assert q / 8 == p / 8 && q % 8 == 7 - p % 8;
    assert p == p / 8 * 8 + p % 8;
    assert Flip(q) == q / 8 * 8 + (7 - q % 8);
  }

  /** The position reported for raw root `raw` of an `nbits`-bit block:
      counted from the other end of the block, `nbits - 1 - raw`, then with
      the bit index reversed inside its byte. The position stays inside the
      bytes the block occupies. */
  function Reported(nbits: nat, raw: nat): (q: nat)
    requires raw < nbits
    ensures q < 8 * ((nbits + 7) / 8)
  {
    Flip(nbits - 1 - raw)
  }

  /** Distinct raw roots are reported at distinct positions. */
  lemma ReportedInjective(nbits: nat, a: nat, b: nat)
    requires a < nbits && b < nbits && a != b
    ensures Reported(nbits, a) != Reported(nbits, b)
  {
    FlipInvolution(nbits - 1 - a);
    FlipInvolution(nbits - 1 - b);
  }

  /** A reported position falls in the `len` data bytes exactly when its raw
      root is at least 52, i.e. outside the 52 parity bits; otherwise it
      names a parity bit and needs no data correction. */
  lemma ReportedInData(len: nat, raw: nat)
    requires raw < BlockBits(len)
    ensures Reported(BlockBits(len), raw) < 8 * len <==> raw >= EccBits
  {
    var e := BlockBits(len) - 1 - raw;
    var q := Flip(e);
    assert e < 8 * len <==> e / 8 < len;
    assert q < 8 * len <==> q / 8 < len;
  }

  /** Every reported position lies inside the data bytes and the seven
      parity bytes. It can lie past the 52nd parity bit, because the
      reversal works inside the half-used last parity byte. */
  lemma ReportedBound(len: nat, raw: nat)
    requires raw < BlockBits(len)
    ensures Reported(BlockBits(len), raw) < 8 * (len + 7)
  {
    var e := BlockBits(len) - 1 - raw;
    assert e / 8 <= len + 6;
  }

  /** The post-processing loop of `bch_decode` over the first `err` entries
      of `loc`: it fails with -1 at the first raw root not below `nbits`,
      having already remapped the entries before it; otherwise it remaps all
      `err` of them. Entries from `err` on, and from the failing one on, are
      left as they were. */
  method PostProcess(nbits: nat, err: nat, loc: seq<nat>) returns (r: int, out: seq<nat>)
    requires err <= |loc|
    ensures |out| == |loc|
    ensures r == -1 <==> exists n :: 0 <= n < err && loc[n] >= nbits
    ensures r != -1 ==> r == err
    ensures forall n :: 0 <= n < |loc| ==>
      out[n] == if n < err && (forall m :: 0 <= m <= n ==> loc[m] < nbits)
                then Reported(nbits, loc[n]) else loc[n]
  {
    out := loc;
    r := err;
    var i := 0;
    while i < err
      invariant 0 <= i <= err && |out| == |loc|
      invariant forall m :: 0 <= m < i ==> loc[m] < nbits
      invariant forall n :: 0 <= n < |loc| ==>
        out[n] == if n < i then Reported(nbits, loc[n]) else loc[n]
    {
      if out[i] >= nbits {
        r := -1;
        return;
      }
      out := out[i := Reported(nbits, out[i])];
      i := i + 1;
    }
  }

  /** The part of `bch_decode` that runs for a locator of degree 1..4: the
      root search, the root-count check and the post-processing. The result
      is the degree when the search finds that many roots and -1 otherwise.
      On failure the roots found are already in the first entries of
      `errloc` and the later entries are untouched; on success the first `deg` entries of `errloc` hold the reported
      positions of the first `deg` candidates, pairwise distinct and inside
      the block's bytes, and the later entries are untouched. */
  method SearchAndReport(t: Tables, len: nat, p: Poly, errloc: seq<nat>) returns (r: int, loc: seq<nat>)
    requires t.Valid() && WellFormed(p) && 1 <= p.deg <= T
    requires Fits32(len) && |errloc| >= T
    ensures |loc| == |errloc|
    ensures r == -1 || r == p.deg
    ensures r == -1 <==> |Candidates(t, p, len)| < p.deg
    ensures r == -1 ==> var c := Candidates(t, p, len);
      loc == c + errloc[|c|..]
    ensures r > 0 ==> var c := Candidates(t, p, len);
      && (forall n :: 0 <= n < r ==> c[n] < BlockBits(len) && loc[n] == Reported(BlockBits(len), c[n]))
      && (forall n :: r <= n < |loc| ==> loc[n] == errloc[n])
    ensures r > 0 ==> forall n, m :: 0 <= n < m < r ==> loc[n] != loc[m]
    ensures r > 0 ==> forall n :: 0 <= n < r ==> loc[n] < 8 * (len + 7)
  {
    var nroots, roots := ChienSearch(t, p, len);
    loc := roots + errloc[|roots|..];
    if nroots != p.deg {
      return -1, loc;
    }
    assert roots == Candidates(t, p, len)[..p.deg];
    r, loc := PostProcess(BlockBits(len), p.deg, loc);
    ReportedFacts(len, roots, loc);
  }

  /** `bch_decode` on a block of `len` data bytes. `syn` holds the syndromes
      the hardware computed (the odd ones S1, S3, S5, S7 in slots 0, 2, 4, 6);
      `errloc` is the caller's output array, of which the first four entries
      may be written. The completed syndrome vector `s` is returned too,
      since the source writes it back into the caller's array.

      The result is -1, when the locator degree exceeds four or the search
      finds fewer roots than the degree, and otherwise the number of errors.
      A result of 0 leaves `errloc` as it was, and so does -1 for a degree
      above four; -1 after a search leaves the roots it found in the first
      entries and the rest untouched. A positive result `r` leaves
      in its first `r` entries the reported positions of the first `r`
      candidate roots, all distinct and inside the block's bytes. */
  method Decode(t: Tables, len: nat, syn: seq<bv13>, errloc: seq<nat>) returns (r: int, s: seq<bv13>, loc: seq<nat>)
    requires t.Valid() && |syn| == 8 && |errloc| >= T
    requires Fits32(len)
    ensures |s| == 8
    ensures forall i :: 0 <= i < T ==> s[2 * i] == syn[2 * i]
    ensures forall i :: 0 <= i < T ==> s[2 * i + 1] == Sqr(t, s[i])
    ensures |loc| == |errloc|
    ensures -1 <= r <= T
    ensures var e := ErrorLocator(t, s);
      r == -1 <==> e.ret == -1 || (e.ret > 0 && |Candidates(t, e.elp, len)| < e.ret)
    ensures r != -1 ==> r == ErrorLocator(t, s).ret
    ensures ErrorLocator(t, s).ret <= 0 ==> loc == errloc
    ensures r == -1 && ErrorLocator(t, s).ret > 0 ==> var c := Candidates(t, ErrorLocator(t, s).elp, len);
      loc == c + errloc[|c|..]
    ensures r > 0 ==> var c := Candidates(t, ErrorLocator(t, s).elp, len);
      && (forall n :: 0 <= n < r ==> c[n] < BlockBits(len) && loc[n] == Reported(BlockBits(len), c[n]))
      && (forall n :: r <= n < |loc| ==> loc[n] == errloc[n])
    ensures r > 0 ==> forall n, m :: 0 <= n < m < r ==> loc[n] != loc[m]
    ensures r > 0 ==> forall n :: 0 <= n < r ==> loc[n] < 8 * (len + 7)
  {
    s := CompleteSyndromes(t, syn);
    var located := ErrorLocator(t, s);
    var err := located.ret;
    loc := errloc;
    if err > 0 {
      err, loc := SearchAndReport(t, len, located.elp, errloc);
    }
    r := if err >= 0 then err else -1;
  }

  /** What the remapped positions of a strictly decreasing run of raw roots
      inside the block satisfy: pairwise distinct, and inside the block's
      bytes. */
  lemma ReportedFacts(len: nat, roots: seq<nat>, loc: seq<nat>)
    requires |roots| <= |loc|
    requires forall n :: 0 <= n < |roots| ==> roots[n] < BlockBits(len)
    requires forall n, m :: 0 <= n < m < |roots| ==> roots[n] > roots[m]
    requires forall n :: 0 <= n < |roots| ==> loc[n] == Reported(BlockBits(len), roots[n])
    ensures forall n, m :: 0 <= n < m < |roots| ==> loc[n] != loc[m]
    ensures forall n :: 0 <= n < |roots| ==> loc[n] < 8 * (len + 7)
  {
    forall n, m | 0 <= n < m < |roots|
      ensures loc[n] != loc[m]
    {
      ReportedInjective(BlockBits(len), roots[n], roots[m]);
    }
    forall n | 0 <= n < |roots|
      ensures loc[n] < 8 * (len + 7)
    {
      ReportedBound(len, roots[n]);
    }
  }
}
