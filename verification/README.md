# A verified model of the pollux recovery firmware's BCH decoder and TLB setup

This project models two parts of the pollux-recovery firmware in Dafny:

- **The 4-bit BCH syndrome decoder of `src/bch.c`.** It works over GF(2^13) with the primitive polynomial 0x25AF (N = 8191, m = 13, t = 4, 52 parity bits). The model covers:
  - the two exponent reductions `modulo` and `mod_s`;
  - the table-driven field operations;
  - the LFSR table build `bch_init`;
  - the simplified binary Berlekamp–Massey builder `compute_error_locator_polynomial`;
  - the Chien search with its log-domain normalisation `gf_poly_logrep`;
  - the decoding front end `bch_decode`, which completes the syndromes, checks the root count and remaps raw roots to bit positions.
- **The first-level translation-table fill `init_tlb` of `recovery/src/cache.c`.** The `CONFIG_SHADOW` build switch becomes a boolean parameter.

Modules follow the source's layers:

| file | module | what it holds |
|---|---|---|
| field.dfy | `Field` | constants, `modulo`, `mod_s`, `deg`, the table record, `gf_mul`, `gf_sqr`, `gf_div`, `a_pow`, `a_log` |
| gf_tables.dfy | `GfTables` | the LFSR step and `bch_init`, and what follows from the tables it builds |
| locator.dfy | `Locator` | the polynomial record, the Berlekamp–Massey state and rounds |
| chien.dfy | `Chien` | the log representation, the evaluation loop and the root scan |
| decoder.dfy | `Decoder` | syndrome completion, root post-processing, `bch_decode` |
| powers.dfy | `Powers` | powers of the generator and the table arithmetic on them, once log undoes pow |
| single_error.dfy | `SingleError` | the one-error round trip through `bch_decode` under primitivity |
| tlb.dfy | `Mmu` | section descriptors, the range layout and `init_tlb` |

Modelling choices:

- **Field elements.** They are `bv13`, so field addition is XOR. Exponents and table indices are unbounded naturals; in the source every one of them stays far below 2^32.
- **Shared scratch state.** The file-level scratch polynomials `elp`, `pelp`, `elp_copy` and `cache` become explicit values:
  - a `State` record threaded through the Berlekamp–Massey rounds;
  - a `seq<Term>` for the log representation, where `Absent` stands for the source's -1.
- **Arrays written in place.** The syndrome vector, `errloc` and the translation table become sequences passed in and returned.
- **`bch_init`'s log table.** It is static storage. An entry the register never visits keeps whatever it held before, so the builder takes that earlier content as a parameter.
- **Bit tricks on naturals.** `(v & 8191) + (v >> 13)` in `modulo` and `(p & ~7) | (7 - (p & 7))` in the remap are stated on naturals as `v % 8192 + v / 8192` and `p / 8 * 8 + (7 - p % 8)`. For non-negative values these are the same numbers.
- **`init_tlb`'s shift.** `i << 20` is 32-bit bit-vector arithmetic, which is the pattern the overflowing signed shift in the source leaves.

**Primitivity.** Whether 0x25AF is primitive is not proved. That is the claim that the register visits all 8191 nonzero elements, so that `pow[log[x]] == x`. It is the explicit hypothesis `GfTables.Primitive`, and only the lemmas that need it take it as a precondition. The power lemmas of `Powers`, the evaluation lemma `Chien.EvalIsNormalisedValue` and the one-error lemmas of `SingleError` work from its consequence `Powers.Cyclic`, that log undoes pow and pow[0] is 1.

## Model

| member | source | states |
|---|---|---|
| Field.Deg | src/bch.c:70-76 | the result is the index of the most significant set bit: 2^n <= poly < 2^(n+1), and 0 for inputs 0 and 1 |
| Field.PrimPolyDegree | src/bch.c:250-251 | deg(0x25AF) is 13, so the overflow bit `1 << deg(poly)` is 0x2000 |
| Field.Fold | src/bch.c:56 | one folding step never increases the value and keeps its residue mod 8191 |
| Field.Modulo | src/bch.c:52-59 | the result is below 8191 and congruent to the input mod 8191 |
| Field.ModS | src/bch.c:64-67 | for inputs below 2*8191 the single conditional subtraction equals the input mod 8191 |
| Field.SetLog | src/bch.c:255 | writing `a_log_tab[x] = i` changes the entry of x and no other field element's entry |
| Field.APow | src/bch.c:96-99 | `a_pow(i)` is never zero and is the table entry at i mod 8191 |
| Field.ALog | src/bch.c:101-104 | `a_log(x)` is a valid exponent below 8191 |
| Field.Mul | src/bch.c:80-84 | `gf_mul` is zero exactly when a factor is zero, otherwise the power at the sum of the logs mod 8191 |
| Field.Sqr | src/bch.c:86-89 | `gf_sqr(a)` equals `gf_mul(a, a)` and is zero exactly when a is |
| Field.Div | src/bch.c:91-94 | `gf_div(a, b)` is zero exactly when a is zero, otherwise the power at log a - log b mod 8191 |
| Field.MulCommutes | src/bch.c:80-84 | `gf_mul` is commutative |
| GfTables.LfsrStep | src/bch.c:256-258 | a register step maps a nonzero 13-bit state to a nonzero 13-bit state |
| GfTables.OverflowIsTopBit | src/bch.c:250-251 | the overflow bit is `1 << deg(poly)` for the polynomial 0x25AF, and the word the register XORs in is that polynomial |
| GfTables.Lfsr | src/bch.c:253-259 | every register state reached from 1 is a nonzero 13-bit value |
| GfTables.BuildTables | src/bch.c:247-262 | after `bch_init`: pow[0..8190] are the successive register states, pow[0] == pow[8191] == 1, no power is zero, log[0] == 0, every logarithm is below 8191, the log of each visited element is its last visit, unvisited entries keep their previous contents |
| GfTables.RecordStep | src/bch.c:254-255 | one loop iteration makes step i the last visit of the state just written and leaves every other element's log entry as it was |
| GfTables.SealPowerTable | src/bch.c:260 | writing pow[8191] = 1 after the loop does not disturb the recorded logarithms |
| GfTables.BuildIdempotent | src/bch.c:247-262 | running `bch_init` again over the log table it left reproduces the power table and every logarithm |
| GfTables.LogInvertsPow | src/bch.c:247-262 | under primitivity, log undoes pow on every exponent below 8191 and pow undoes log on every nonzero element |
| GfTables.LogOfPow | src/bch.c:101-104 | under primitivity, `a_log(a_pow_tab[e]) == e` for every e below 8191 |
| GfTables.MulInverse | src/bch.c:80-94 | under primitivity, `gf_mul(a, gf_div(1, a)) == 1` for nonzero a |
| GfTables.DivThenMul | src/bch.c:80-94 | under primitivity, `gf_mul(gf_div(a, b), b) == a` for nonzero a and b |
| Locator.Init | src/bch.c:108-117 | the starting state (elp = pelp = 1, pd = 1, pp = -1, d = S1) satisfies the round invariant |
| Locator.AddTerm | src/bch.c:127-130 | one inner iteration changes only slot j + k, by the scaled coefficient a_pow(tmp + a_log(c[j])), and by nothing when c[j] is zero |
| Locator.AddShiftedSlots | src/bch.c:125-131 | the inner loop adds the scaled previous locator shifted by k into slots k .. k + pelp.deg and leaves every other slot alone |
| Locator.Correct | src/bch.c:121-140 | a correction keeps the invariant (shift k >= 1, c[0] stays 1, elp.deg + pelp.deg == pp + 1, every write inside c[0..7], nonzero coefficient in each top slot); when pelp.deg + k > elp.deg the degree becomes pelp.deg + k, pelp becomes the pre-update snapshot and (pd, pp) becomes (d, 2i); otherwise the degree, pelp, pd and pp stay as they were |
| Locator.NoTie | src/bch.c:133-134 | under the round invariant the shifted previous locator never ends exactly at the current degree, so the strict comparison never meets a tie |
| Locator.TopSlot | src/bch.c:125-139 | after the shifted addition the slot at the new degree holds a nonzero coefficient: the top term of a longer shifted pelp lands on an empty slot, and a shorter one never reaches elp's top slot |
| Locator.CorrectedShape | src/bch.c:121-140 | the coefficients the correction computes satisfy the round invariant again under either of the two degree updates |
| Locator.CorrectSlots | src/bch.c:122-131 | after a correction each coefficient is the old one plus the scaled previous coefficient k slots down, exactly in slots k .. k + pelp.deg |
| Locator.SlotsStayInShape | src/bch.c:126-139 | the shifted addition keeps the constant term and stores nothing above the new degree |
| Locator.DiscSum | src/bch.c:141-146 | the next discrepancy S(2i+3) + sum of elp.c[j] * S(2i+3-j) equals S(2i+3) when every coefficient above the constant is zero, and is zero when every syndrome it reads is zero |
| Locator.Round | src/bch.c:120-146 | a round keeps the invariant, never lowers the degree, and leaves the locators and (pd, pp) alone when the discrepancy is zero |
| Locator.Rounds | src/bch.c:120-146 | the loop ends in a state satisfying the invariant with a degree no lower than it started |
| Locator.ErrorLocator | src/bch.c:106-149 | the result is -1 exactly when the final degree exceeds 4, otherwise it is the degree, 0..4; the locator keeps constant term 1, eight well-formed slots and a nonzero coefficient in slot deg, so its degree is its real degree |
| Locator.ZeroSyndromesKeepInit | src/bch.c:120-146 | with all syndromes zero no round changes the starting state |
| Locator.ZeroSyndromesNoErrors | src/bch.c:106-149 | all-zero syndromes give the locator 1 of degree 0 |
| Locator.ScaledExponent | src/bch.c:125-129 | the log-domain term is the power at the exponent sum, and equals the product (d / pd) * x wherever log inverts pow |
| Locator.ScaledIsProduct | src/bch.c:123-129 | under primitivity the log-domain update `a_pow(tmp + l)` equals `gf_mul(gf_div(d, pd), c[j])` |
| Chien.LogRep | src/bch.c:154-161 | the representation marks exactly the zero coefficients absent; every present exponent is below 8191 and denotes c[i] / c[deg]; the leading slot is exponent 0 |
| Chien.EvalAt | src/bch.c:179-183 | the inner loop computes the log-domain sum `Chien.Eval`: syn0 plus a_pow(m + j*i) over the present slots j = 1 .. deg |
| Chien.TermIsProduct | src/bch.c:179-183 | when log undoes pow, each log-domain term a_pow(m + j*i) equals the normalised coefficient c[j] / c[deg] times a^(j*i), and is nothing for a zero coefficient |
| Chien.EvalIsNormalisedValue | src/bch.c:176-183 | when log undoes pow and the leading coefficient is nonzero, the log-domain sum is the normalised locator elp(a^i) / c[deg] evaluated by field multiplication |
| Chien.ZeroIsGenuine | src/bch.c:176-189 | when log undoes pow and the leading coefficient is nonzero, every exponent at which the search sees a zero is a zero of elp(a^i) / c[deg] computed with field multiplication |
| Chien.Zeros | src/bch.c:177-189 | only exponents where the log-domain sum `Chien.Eval` vanishes are listed, as raw roots N - i inside the range, strictly decreasing |
| Chien.ZerosComplete | src/bch.c:177-189 | every exponent in the range at which the log-domain sum `Chien.Eval` vanishes has its raw root listed |
| Chien.ZerosPrefix | src/bch.c:177-189 | scanning further only appends roots |
| Chien.ScanStart | src/bch.c:171-177 | the first exponent is N + 1 - k when the block fits the code, and past N, so that nothing is searched, when the unsigned subtraction wraps |
| Chien.Candidates | src/bch.c:171-189 | every candidate root lies below k = 8*len + 52, and the candidates are strictly decreasing, hence distinct |
| Chien.Scan | src/bch.c:177-189 | the scan collects exactly the roots below where it stopped; it stops early only on finding deg roots and never collects more |
| Chien.ChienSearch | src/bch.c:166-191 | the count is the degree or 0, and the degree exactly when deg roots were found; the roots are the first candidates, or all of them when there are fewer; at most deg are written, each below 8*len + 52, strictly decreasing |
| Chien.ScanOutcome | src/bch.c:177-190 | a scan stopped early has found a prefix of the candidates; one run to the end has found all of them |
| Decoder.CompleteSyndromes | src/bch.c:219-221 | slots 0, 2, 4, 6 are unchanged and slot 2i+1 becomes the square of slot i, reading slots 1 and 3 after they were written |
| Decoder.Flip | src/bch.c:238 | the in-byte reversal keeps the byte (p >> 3) and maps bit index b to 7 - b |
| Decoder.FlipInvolution | src/bch.c:238 | the in-byte reversal is an involution |
| Decoder.Reported | src/bch.c:237-238 | the remapped position of a raw root, `nbits - 1 - pos` with its bit index reversed inside the byte, stays inside the bytes the block occupies |
| Decoder.ReportedInjective | src/bch.c:237-238 | distinct raw roots give distinct reported positions |
| Decoder.ReportedInData | src/bch.c:202-209 | a reported position is below 8*len exactly when its raw root is at least 52 |
| Decoder.ReportedBound | src/bch.c:231-238 | every reported position lies below 8*(len + 7) |
| Decoder.PostProcess | src/bch.c:229-240 | the result is -1 exactly when a raw root among the first err is not below nbits; the entries before the first such root are remapped, all others are untouched |
| Decoder.SearchAndReport | src/bch.c:224-240 | for a degree 1..4 locator the result is the degree when the search finds that many roots and -1 otherwise; on success the first deg entries hold the remapped first deg candidates, pairwise distinct and below 8*(len + 7), and later entries are untouched; on failure after a search the candidates found fill the first entries and every later entry is untouched |
| Decoder.Decode | src/bch.c:214-242 | the result is -1 or 0..4; it is -1 exactly when the degree exceeds 4 or the search finds fewer roots than the degree; otherwise it is the degree; a degree of 0 or above 4 leaves errloc untouched; a positive result r reports the remapped first r candidates, pairwise distinct and below 8*(len + 7), leaving the rest of errloc alone; on failure after a search the candidates found fill the first entries and every later entry is untouched |
| Decoder.ReportedFacts | src/bch.c:229-240 | remapped positions of strictly decreasing raw roots inside the block are pairwise distinct and below 8*(len + 7) |
| Powers.CyclicOfPrimitive | src/bch.c:247-262 | under primitivity the tables `bch_init` builds have pow[0] == 1 and log undoes pow on every exponent below 8191 |
| Powers.LogOfPowAt | src/bch.c:96-104 | when log undoes pow, `a_log` of the power at e is e mod 8191 |
| Powers.MulPowAt | src/bch.c:80-84 | when log undoes pow, `gf_mul` of two powers is the power at the sum of the exponents |
| Powers.SqrPowAt | src/bch.c:86-89 | when log undoes pow, `gf_sqr` of a power is the power at twice the exponent |
| Powers.PowInjective | src/bch.c:96-99 | when log undoes pow, distinct exponents below 8191 give distinct powers |
| Powers.PowSumZero | src/bch.c:182-184 | when log undoes pow, two powers below 8191 cancel exactly when their exponents agree |
| SingleError.CompletedSyndromes | src/bch.c:219-221 | from the odd syndromes of one error at power rho, the completion yields S(n) = a^(n*rho) in every slot n - 1 |
| SingleError.FirstRound | src/bch.c:120-140 | on the syndromes of one error the first round turns the locator 1 into 1 + S1 X, of degree 1, with pelp = 1, pd = S1 and pp = 0 |
| SingleError.FirstTerm | src/bch.c:123-130 | the first correction term a_pow(a_log(S1) + N - a_log(1) + a_log(1)) is S1 itself |
| SingleError.OpeningRound | src/bch.c:120-146 | on the syndromes of one error, round 0 ends with locator 1 + S1 X, pelp = 1, pd = S1, pp = 0 and next discrepancy zero |
| SingleError.QuietRound | src/bch.c:120-146 | rounds 1 .. 3 find no discrepancy and leave that state exactly as it is |
| SingleError.NoDiscrepancy | src/bch.c:141-146 | against the syndromes of one error, 1 + S1 X leaves discrepancy zero in rounds 0..2 |
| SingleError.LocatorOfSingleError | src/bch.c:106-149 | the syndromes of one error give the locator 1 + S1 X and the result 1 |
| SingleError.EvalOfDegreeOne | src/bch.c:179-183 | a degree-one normalised locator with constant c evaluates at a^i to c + a^i |
| SingleError.NormalisedSingle | src/bch.c:154-161 | the log representation of 1 + S1 X is (_, 0), and its normalised constant 1 / S1 is the power at N - rho |
| SingleError.EvalOfSingle | src/bch.c:179-184 | the normalised 1 + S1 X vanishes at a^i exactly when i is -rho mod 8191 |
| SingleError.ZerosOfOne | src/bch.c:177-189 | a scan over a range holding exactly one zero lists exactly its raw root, and an empty list when the zero lies outside |
| SingleError.CandidatesOfSingle | src/bch.c:171-189 | for a block that fits the code and rho below 8*len + 52, rho is the only candidate root of 1 + S1 X |
| SingleError.DecodeSingleError | src/bch.c:214-242 | under primitivity, `bch_decode` on the syndromes of one error at raw root rho returns 1 with errloc[0] the remapped position of rho and the other entries untouched |
| Mmu.Descriptor | recovery/src/cache.c:31-35 | each descriptor identity-maps: bits 31:20 equal the index, bits 1:0 are 2 (section), bits 3:2 are set exactly for cacheable ranges, domain 0 and access permission 3; bits 4, 9 and 19:12 are clear |
| Mmu.DescriptorWord | recovery/src/cache.c:31-70 | each descriptor is exactly the index shifted to bit 20 ORed with 0xC0E for a cacheable range and 0xC02 for an uncached one |
| Mmu.Layout | recovery/src/cache.c:25-65 | in both configurations the four ranges are non-empty, pairwise disjoint and end at or below 0xE00; RAM and static bus are cacheable, NAND and I/O are not |
| Mmu.FillRange | recovery/src/cache.c:27-36 | one fill loop writes the descriptor of every index in its range and leaves every other entry alone |
| Mmu.InitTlb | recovery/src/cache.c:21-72 | every index of each of the four ranges holds that range's descriptor, and every entry outside them keeps its earlier value |

## Left out

- Primitivity of 0x25AF, and with it `pow[log[x]] == x`, is not proved. Showing that the register runs through all 8191 nonzero states means evaluating 8191 steps. Lemmas that rest on it take `GfTables.Primitive` as a hypothesis.
- Algebraic round trips beyond one error are not stated: that two to four injected errors decode to exactly those positions, and that five are rejected. They need the theory of BCH codes (Newton's identities, the uniqueness of the locator) that the code itself never checks. The one-error case is proved under primitivity (`SingleError.DecodeSingleError`).
- SingleError.DecodeSingleError: takes the syndromes of one error, S(j) = a^(j*rho), as its hypothesis. How a flipped bit becomes those syndromes is the hardware's computation, which is outside the source.
- Chien.EvalAt: its contract is the log-domain sum `Chien.Eval`, as the source computes it. That this sum is the normalised locator evaluated by field multiplication is the separate lemma `Chien.EvalIsNormalisedValue`. That lemma holds only where the log table undoes the power table (`Powers.Cyclic`, a consequence of primitivity) and the leading coefficient is nonzero. `Locator.ErrorLocator` guarantees the nonzero leading coefficient for the decoder's locator, so only `Powers.Cyclic` is left as a hypothesis.
- Chien.ChienSearch: requires 8*len + 52 to fit 32 bits. For larger `len` the unsigned `k` of the source wraps, and the model does not follow that wrap.
- Decoder.Decode: requires 8*len + 52 to fit 32 bits, for the same reason.
- Decoder.Decode: the syndrome words are taken to be 13-bit field elements (`bv13`). The source receives `unsigned int` words from the hardware; a word of 8192 or more would index `a_log_tab` past its 8192 entries through `gf_sqr` (src/bch.c:88, called at line 221) and `a_log(d)` (line 125). The model does not represent that input.
- The USB device-controller drivers, the USB descriptor tables, the UART, the timer, `src/recovery.c`, `recovery/src/cache.h` and the host client `recovery.py` are not part of this model. They are register-level I/O, constant tables or host-side I/O.
- `a_pow` takes an `int` that `modulo` reads as unsigned. Every argument the decoder passes is non-negative and small, so exponents are naturals here.

## Notes on the source's behaviour

- **Out-of-range check.** The out-of-range check of `bch_decode` (src/bch.c:233-236) cannot fire for roots that come from `chien_search`, because every root it records is below 8*len + 52. `Decoder.PostProcess` models that branch on arbitrary raw roots. `Decoder.Decode` proves that, on the decoding path, only a degree above 4 or a root-count mismatch yields -1.
- **Positions past the block.** Reported positions are not confined to the 8*len + 52 bits of the block. The raw roots 0..3 sit in the last, half-used parity byte, and the in-byte reversal maps them to 8*len + 52 .. 8*len + 55. The bound the code keeps is 8*(len + 7), i.e. the data bytes plus seven parity bytes.
- **Partial writes on failure.** When the search finds fewer roots than the degree, the roots it did find are already in `errloc` although the result is -1. The model keeps that behaviour: on that path `Decoder.SearchAndReport` and `Decoder.Decode` promise `loc == c + errloc[|c|..]` for the candidate roots `c`.
