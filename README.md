# Complex M31 field and witness solver, modelled in Dafny

This project models two parts of ProveKit.

The first part is the complex extension of the Mersenne-31 field used by the
NTT playground. Its elements are pairs `(a, b)` standing for `a + b·i` over
GF(p), p = 2^31 − 1, with i² = −1. The model covers:

- the element type and its arithmetic: Karatsuba multiplication, the shortcuts
  for multiplying by −1, by i and by the 8th root of unity, and inversion
  through the norm;
- the fixed roots of unity;
- exponentiation by square-and-multiply;
- the square-root construction from the norm's square root;
- the tower of 2^k-th roots of unity built by repeated square roots.

The second part is the prover's witness solver. One witness builder fills one
slot of the witness vector, or a run of consecutive slots, over the BN254
scalar field. It computes those values from slots that are already solved.

Modules:

- `NumberTheory`: modular arithmetic, gcd, Euclid's lemma, the binomial
  theorem and Fermat's little theorem, for any modulus.
- `M31`: the base field `RF`, specified at its boundary only.
- `CM31`: the `CF` type and its operations.
- `CM31Power`: `pow`, and the orders of the roots of unity.
- `CM31Sqrt`: `try_sqrt`, both as written and corrected.
- `CM31Roots`: `gen_roots_of_unity`.
- `Bn254`: the scalar field of the witness vector.
- `Histograms`: the multiplicity tables.
- `WitnessBuilder`: the builders and the in-place `Solve`.
- `WitnessProperties`: what each builder's solution means.

How values are represented:

- A base-field element is `RF(val)`, and it stands for `val % p`. The source
  may hold an element unreduced, as `W_4_NEG_1` does: its real part is
  `0x7fffffff`, which is p itself.
- Every base-field operation returns the canonical representative. Equality
  of `CF` values, as in the source, compares the stored values without
  reducing them.
- The primality of p, and of the BN254 modulus, is a hypothesis. Lemmas that
  need it take `requires NT.IsPrime(P)` or `requires NT.IsPrime(Q)`.

## Model

| member | source | states |
|---|---|---|
| M31.New | playground/cm31_ntt/src/cm31.rs:59-64 | a base-field element built from a u32 stands for that number mod p |
| M31.Reduce | playground/cm31_ntt/src/cm31.rs:122-127 | reduction yields the canonical representative of the same residue |
| M31.Add | playground/cm31_ntt/src/cm31.rs:273-285 | base-field addition is addition of residues mod p, with a canonical result |
| M31.Sub | playground/cm31_ntt/src/cm31.rs:294-306 | base-field subtraction is subtraction of residues mod p |
| M31.Neg | playground/cm31_ntt/src/cm31.rs:344-354 | negation adds to zero mod p |
| M31.Mul | playground/cm31_ntt/src/cm31.rs:315-335 | base-field multiplication is multiplication of residues mod p |
| M31.MulBy2_15 | playground/cm31_ntt/src/cm31.rs:88-90 | the fixed multiplication by 2^15 equals general multiplication by 2^15 |
| M31.MulBy2_16 | playground/cm31_ntt/src/cm31.rs:93-94 | the fixed multiplication by 2^16 equals general multiplication by 2^16 |
| M31.RotationIsShift | playground/cm31_ntt/src/cm31.rs:81-97 | multiplying a canonical value by 2^15 or 2^16 mod 2^31−1 is a 31-bit rotation: low bits shifted up plus high bits brought down |
| M31.TryInverse | playground/cm31_ntt/src/cm31.rs:109 | the base-field inverse fails exactly on zero |
| M31.InverseCorrect | playground/cm31_ntt/src/cm31.rs:109-110 | for p prime and nonzero x, the inverse exists and x·x⁻¹ = 1 (the debug assertion) |
| M31.TrySqrt | playground/cm31_ntt/src/cm31.rs:196 | a base-field square root that is returned squares to the input |
| M31.SqrtComplete | playground/cm31_ntt/src/cm31.rs:196 | for p prime, every square has its root found, because p ≡ 3 mod 4 |
| CM31.New | playground/cm31_ntt/src/cm31.rs:59-64 | the parts of `new(re, im)` are re and im mod p |
| CM31.Zero | playground/cm31_ntt/src/cm31.rs:229-233 | zero is the canonical (0, 0) |
| CM31.One | playground/cm31_ntt/src/cm31.rs:240-245 | one is the canonical (1, 0) |
| CM31.IsZero | playground/cm31_ntt/src/cm31.rs:234-237 | an element is zero iff it reduces to (0, 0) |
| CM31.Reduce | playground/cm31_ntt/src/cm31.rs:122-127 | reduction keeps both residues and makes both parts canonical |
| CM31.FromU32 | playground/cm31_ntt/src/cm31.rs:247-254 | a u32 becomes a real element; below p it converts back to (v, 0) |
| CM31.FromPair | playground/cm31_ntt/src/cm31.rs:256-264 | a pair of u32s becomes an element with those residues |
| CM31.ToPair | playground/cm31_ntt/src/cm31.rs:266-271 | conversion to a pair yields the canonical values of both parts |
| CM31.PairRoundTrip | playground/cm31_ntt/src/cm31.rs:256-271 | pair → element → pair is the identity on values below p; element → pair → element is reduction |
| CM31.Add | playground/cm31_ntt/src/cm31.rs:273-285 | addition is componentwise mod p |
| CM31.Sub | playground/cm31_ntt/src/cm31.rs:294-306 | subtraction is componentwise mod p |
| CM31.Neg | playground/cm31_ntt/src/cm31.rs:344-354 | x + (−x) = 0 |
| CM31.AddThenSub | playground/cm31_ntt/src/cm31.rs:273-306 | (x + y) − y = x, up to reduction |
| CM31.SubThenAdd | playground/cm31_ntt/src/cm31.rs:273-306 | (x − y) + y = x, up to reduction |
| CM31.AddComm | playground/cm31_ntt/src/cm31.rs:273-285 | addition commutes |
| CM31.AddZero | playground/cm31_ntt/src/cm31.rs:229-285 | zero is a two-sided additive identity up to reduction |
| CM31.AddAssoc | playground/cm31_ntt/src/cm31.rs:273-285 | addition is associative |
| CM31.NegIsSubFromZero | playground/cm31_ntt/src/cm31.rs:294-354 | 0 − x = −x |
| CM31.KaratsubaCorrect | playground/cm31_ntt/src/cm31.rs:319-334 | Karatsuba's three-multiplication imaginary part equals ad + bc, and its real part ac − bd, mod p |
| CM31.Mul | playground/cm31_ntt/src/cm31.rs:315-335 | the product's parts are canonical |
| CM31.MulParts | playground/cm31_ntt/src/cm31.rs:315-335 | the Karatsuba product is the schoolbook product (ac − bd, ad + bc) mod p |
| CM31.MulByF | playground/cm31_ntt/src/cm31.rs:74-79 | scaling by a base-field f is multiplication by (f, 0) |
| CM31.MulByW8 | playground/cm31_ntt/src/cm31.rs:81-97 | the shift-based shortcut equals multiplication by W_8 = (2^15, 2^15) |
| CM31.MulNeg1 | playground/cm31_ntt/src/cm31.rs:168-173 | the shortcut is the negation −x, and equals multiplication by the square root of unity −1 |
| CM31.MulJ | playground/cm31_ntt/src/cm31.rs:175-181 | the shortcut equals multiplication by i, exactly when the real part is canonical and after reduction otherwise |
| CM31.Equals | playground/cm31_ntt/src/cm31.rs:356-361 | raw componentwise equality implies equal residues, and is residue equality on canonical elements |
| CM31.Constants | playground/cm31_ntt/src/cm31.rs:23-43 | W_8² = W_4; W_8_NEG_1 = −W_8; W_4_NEG_1 reduces to −W_4 but is not raw-equal to it |
| CM31.MulComm | playground/cm31_ntt/src/cm31.rs:315-335 | multiplication commutes |
| CM31.MulReduce | playground/cm31_ntt/src/cm31.rs:315-335 | multiplication ignores how its operands are represented |
| CM31.MulOne | playground/cm31_ntt/src/cm31.rs:240-245 | one is a two-sided identity up to reduction |
| CM31.MulDistributes | playground/cm31_ntt/src/cm31.rs:273-335 | x·(y + z) = x·y + x·z |
| CM31.MulAssoc | playground/cm31_ntt/src/cm31.rs:315-335 | multiplication is associative |
| CM31.Norm | playground/cm31_ntt/src/cm31.rs:104 | the norm is a² + b² mod p |
| CM31.NormOfProduct | playground/cm31_ntt/src/cm31.rs:104 | the norm is multiplicative: N(xy) = N(x)N(y) |
| CM31.SumOfSquaresNonzero | playground/cm31_ntt/src/cm31.rs:104-107 | for p prime, a² + b² ≡ 0 only when a ≡ b ≡ 0, because −1 is not a square mod p |
| CM31.NormOfNonzero | playground/cm31_ntt/src/cm31.rs:104-107 | the norm of a nonzero element is nonzero, so the norm check never fails on a nonzero element |
| CM31.TryInverse | playground/cm31_ntt/src/cm31.rs:99-120 | zero has no inverse, and a returned inverse is canonical |
| CM31.InverseRoundTrip | playground/cm31_ntt/src/cm31.rs:99-120 | for p prime, an inverse exists iff x is nonzero, and then x·x⁻¹ = 1 |
| CM31.RootOfUnity2 | playground/cm31_ntt/src/cm31.rs:129-131 | the square root of unity is −1, and it squares to 1 |
| CM31.RootOfUnity4 | playground/cm31_ntt/src/cm31.rs:133-145 | either choice squares to −1 |
| CM31.RootOfUnity8 | playground/cm31_ntt/src/cm31.rs:147-166 | each of the four choices squares to a 4th root of unity, namely (0, 1) when both signs agree |
| CM31.ArithmeticExamples | playground/cm31_ntt/src/cm31.rs:436-452 | concrete sums, negations and products of the unit tests |
| CM31Power.Power | playground/cm31_ntt/src/cm31.rs:371-388 | x^n, with x^0 = 1 and a canonical result |
| CM31Power.Pow | playground/cm31_ntt/src/cm31.rs:371-388 | square-and-multiply returns x^exp; the loop invariant is result · base^exp = x^original_exp |
| CM31Power.PowerAdd | playground/cm31_ntt/src/cm31.rs:371-388 | x^(m+n) = x^m · x^n |
| CM31Power.PowerMul | playground/cm31_ntt/src/cm31.rs:371-388 | x^(ab) = (x^a)^b |
| CM31Power.PowerOfSquare | playground/cm31_ntt/src/cm31.rs:371-388 | (x²)^i = x^(2i) |
| CM31Power.PowerOfOne | playground/cm31_ntt/src/cm31.rs:371-388 | 1^n = 1 |
| CM31Power.PowerOfMinusOne | playground/cm31_ntt/src/cm31.rs:129-131 | (−1)^n is −1 for odd n and 1 for even n |
| CM31Power.OrderFromHalf | playground/cm31_ntt/src/cm31.rs:477-486 | w^(2^k) = −1 makes w a primitive 2^(k+1)-th root of unity |
| CM31Power.NotOneBelow | playground/cm31_ntt/src/cm31.rs:477-486 | if w^(2^k) = −1, then no positive power below 2^(k+1) is 1 |
| CM31Power.OddPowerNotOne | playground/cm31_ntt/src/cm31.rs:477-486 | if w^(2^k) = −1, then no odd power of w is 1 |
| CM31Power.RootOrders | playground/cm31_ntt/src/cm31.rs:488-500 | the fixed roots have exact orders 2, 4 and 8 |
| CM31Power.ShortcutsArePowersOfW8 | playground/cm31_ntt/src/cm31.rs:168-181 | multiplying by −1 is multiplying by W_8^4, and multiplying by i is multiplying by W_8^2 |
| CM31Sqrt.TwoInv | playground/cm31_ntt/src/cm31.rs:189-191 | one half is the base field's inverse of 2, canonical |
| CM31Sqrt.TwoInvValue | playground/cm31_ntt/src/cm31.rs:189-191 | for p prime, the inverse of 2 exists and is 2^30 = (p + 1)/2 |
| CM31Sqrt.HalfX | playground/cm31_ntt/src/cm31.rs:199 | (a + r)·2⁻¹, reduced; `HalvesAreSquares` states its meaning |
| CM31Sqrt.HalfY | playground/cm31_ntt/src/cm31.rs:213 | (r − a)·2⁻¹, reduced; `HalvesAreSquares` states its meaning |
| CM31Sqrt.HalfRoot | playground/cm31_ntt/src/cm31.rs:200-203 | a half's root is kept only when it is nonzero, and it squares to the half |
| CM31Sqrt.BranchX | playground/cm31_ntt/src/cm31.rs:198-210 | a candidate from the first branch squares to the target |
| CM31Sqrt.BranchY | playground/cm31_ntt/src/cm31.rs:212-223 | a candidate from the second branch squares to the target |
| CM31Sqrt.FromNormRoot | playground/cm31_ntt/src/cm31.rs:198-223 | a candidate from either branch squares to the target |
| CM31Sqrt.TrySqrtAsWritten | playground/cm31_ntt/src/cm31.rs:184-226 | the source's square root returns 0 for zero; it returns none when the norm has no base-field root; any root it returns squares to the input; it never succeeds on an unreduced nonzero input |
| CM31Sqrt.TrySqrt | playground/cm31_ntt/src/cm31.rs:184-226 | the corrected square root returns 0 for zero, returns none when the norm has no base-field root, and any root it returns is canonical and squares to the input |
| CM31Sqrt.CorrectedAgrees | playground/cm31_ntt/src/cm31.rs:184-226 | wherever the source's square root succeeds, the corrected one returns the same root |
| CM31Sqrt.NoNormRootNoSquare | playground/cm31_ntt/src/cm31.rs:195-196 | for p prime, when the norm has no base-field root the input has no square root, so that early return is never a miss |
| CM31Sqrt.TrySqrtComplete | playground/cm31_ntt/src/cm31.rs:184-226 | for p prime, the corrected square root succeeds on every square |
| CM31Sqrt.HalvesAreSquares | playground/cm31_ntt/src/cm31.rs:198-213 | if (x0, y0)² = v and r is the norm root x0² + y0², then (a + r)/2 = x0² and (r − a)/2 = y0² |
| CM31Sqrt.CandidateSquares | playground/cm31_ntt/src/cm31.rs:198-207 | x = √((a + r)/2) with y = b/(2x) squares to (a, b) |
| CM31Sqrt.NoBaseRoot | playground/cm31_ntt/src/cm31.rs:196-214 | for p prime, the base field finds no root of minus a nonzero square |
| CM31Sqrt.AsWrittenMissesRoot | playground/cm31_ntt/src/cm31.rs:196-225 | (2, 2041534867)² = (9, 1723688527); the source's square root returns none for it, and the corrected one returns a root |
| CM31Sqrt.NegatedBaseRoot | playground/cm31_ntt/src/cm31.rs:195-196 | when the norm is q² and q is minus a nonzero square, the base field returns −q |
| CM31Sqrt.AsWrittenMissesTodoInput | playground/cm31_ntt/src/cm31.rs:502-512 | the test's recorded failing input (0x53cd1db6, 0x5ac2fbb3) is a case of the missed sign: the source's square root fails on its square, and the corrected one succeeds |
| CM31Sqrt.AsWrittenRejectsUnreduced | playground/cm31_ntt/src/cm31.rs:206 | W_4_NEG_1 has a root, an 8th root of unity, but the raw comparison rejects it; the corrected square root finds it |
| CM31Roots.GenRootsOfUnity | playground/cm31_ntt/src/cm31.rs:45-56 | the result starts at −1, each entry is the square root of the one before, and all n are produced unless a square root fails; for p prime, at least the first square root succeeds |
| CM31Roots.MinusOneHasRoot | playground/cm31_ntt/src/cm31.rs:45-56 | for p prime, −1 has a square root, so the loop's first step succeeds |
| CM31Roots.TowerPower | playground/cm31_ntt/src/cm31.rs:45-56 | entry k raised to 2^k is −1 |
| CM31Roots.TowerOrders | playground/cm31_ntt/src/cm31.rs:536-543 | entry k is a primitive 2^(k+1)-th root of unity |
| Bn254.Add | provekit/prover/src/witness/witness_builder.rs:45-58 | field addition, (x + y) mod Q, as the Sum fold uses it |
| Bn254.Sub | provekit/prover/src/witness/witness_builder.rs:99-107 | field subtraction, (x − y) mod Q, as the denominators use it |
| Bn254.Mul | provekit/prover/src/witness/witness_builder.rs:59-63 | field multiplication, (x · y) mod Q |
| Bn254.AddSubRoundTrip | provekit/prover/src/witness/witness_builder.rs:45-107 | subtraction undoes addition and addition undoes subtraction |
| Bn254.Inverse | provekit/prover/src/witness/witness_builder.rs:64-67 | a field element has no inverse iff it is zero |
| Bn254.InverseCorrect | provekit/prover/src/witness/witness_builder.rs:64-67 | for Q prime, x · x⁻¹ = 1 |
| Bn254.ProductZero | provekit/prover/src/witness/witness_builder.rs:59-63 | for Q prime, a product is zero iff a factor is zero |
| Bn254.FromNat | provekit/prover/src/witness/witness_builder.rs:91 | a count below Q is stored unchanged |
| Bn254.Limb0 | provekit/prover/src/witness/witness_builder.rs:85-87 | the least-significant 64-bit limb is below 2^64, and equals the value when the value fits in 64 bits |
| Histograms.HistogramCounts | provekit/prover/src/witness/witness_builder.rs:83-89 | the counting loop's entry i is the number of keys equal to i |
| Histograms.HistogramTotal | provekit/prover/src/witness/witness_builder.rs:83-89 | the counts add up to the number of keys |
| Histograms.CountAtMostKeys | provekit/prover/src/witness/witness_builder.rs:83-89 | no count exceeds the number of keys |
| WitnessBuilder.Ready | provekit/prover/src/witness/witness_builder.rs:34-191 | the conditions without which the solver panics: every slot it reads is solved, every index is in range, the inverted operand is nonzero, and the u32 counters cannot overflow |
| WitnessBuilder.TermValue | provekit/prover/src/witness/witness_builder.rs:49-55 | a sum term is its coefficient times the slot, or the slot alone without a coefficient |
| WitnessBuilder.SumOf | provekit/prover/src/witness/witness_builder.rs:45-58 | the term values folded left from zero; `SumOfAppend` and `SumOfTermValues` state its meaning |
| WitnessBuilder.SlotValue | provekit/prover/src/witness/witness_builder.rs:34-167 | the value each single-slot arm stores, term for term as the source computes it; the `…Solved` and `…IsDenominator` lemmas state what each means |
| WitnessBuilder.Counts | provekit/prover/src/witness/witness_builder.rs:82-93 | a multiplicity builder's table has one count per entry: range_size entries, or 2^(2·bits) for binary ops |
| WitnessBuilder.Solved | provekit/prover/src/witness/witness_builder.rs:34-191 | the vector after solving keeps its length; one slot is set, or the counts are stored from start |
| WitnessBuilder.BinOpIndex | provekit/prover/src/witness/witness_builder.rs:183-184 | (lhs limb << bits) + rhs limb, with the shift wrapping at 2^64 |
| WitnessBuilder.RangeKeys | provekit/prover/src/witness/witness_builder.rs:84-88 | key k is the low limb of the k-th value slot |
| WitnessBuilder.BinOpKeys | provekit/prover/src/witness/witness_builder.rs:170-185 | key k is the table index of the k-th operand pair |
| WitnessBuilder.Solve | provekit/prover/src/witness/witness_builder.rs:28-193 | solving updates the witness vector to exactly `Solved` |
| WitnessBuilder.CountRange | provekit/prover/src/witness/witness_builder.rs:83-89 | the loop fills a fresh table with the histogram of the values' low limbs |
| WitnessBuilder.CountBinOps | provekit/prover/src/witness/witness_builder.rs:169-186 | the loop fills a fresh 2^(2·bits) table with the histogram of the pair indices |
| WitnessBuilder.CopyCounts | provekit/prover/src/witness/witness_builder.rs:90-92 | the counts go to the consecutive slots from start, and all other slots are unchanged |
| WitnessProperties.SolvedFrame | provekit/prover/src/witness/witness_builder.rs:34-191 | solving keeps the vector's length, fills every slot the builder writes, and leaves every other slot unchanged |
| WitnessProperties.SumOfTermValues | provekit/prover/src/witness/witness_builder.rs:45-58 | the sum depends only on the term values |
| WitnessProperties.SumImplicitCoefficient | provekit/prover/src/witness/witness_builder.rs:49-54 | a missing coefficient acts as coefficient 1 |
| WitnessProperties.SumOfAppend | provekit/prover/src/witness/witness_builder.rs:45-58 | the sum of concatenated term lists is the sum of their sums |
| WitnessProperties.ProductSolved | provekit/prover/src/witness/witness_builder.rs:59-63 | the product slot is zero iff an operand is zero |
| WitnessProperties.InverseSolved | provekit/prover/src/witness/witness_builder.rs:64-67 | the inverse slot times the operand is 1 |
| WitnessProperties.ProductLinearSolved | provekit/prover/src/witness/witness_builder.rs:108-115 | the slot is the product of the two affine forms, and it is zero iff one of them is zero |
| WitnessProperties.CombinationCons | provekit/prover/src/witness/witness_builder.rs:140-167 | the random linear combination t0 + r·t1 + r²·t2 + … obeys Horner's rule |
| WitnessProperties.DenominatorVanishes | provekit/prover/src/witness/witness_builder.rs:99-107 | a denominator sz − combination is zero iff the challenge sz equals the combination |
| WitnessProperties.LogUpIsDenominator | provekit/prover/src/witness/witness_builder.rs:99-107 | the LogUp slot is sz minus the single-term combination, under any challenge, and it is zero iff sz equals the scaled term |
| WitnessProperties.IndexedLogUpIsDenominator | provekit/prover/src/witness/witness_builder.rs:68-81 | the indexed LogUp slot is sz minus the combination (coeff·index, value) in the challenge rs |
| WitnessProperties.SpiceIsDenominator | provekit/prover/src/witness/witness_builder.rs:119-136 | the Spice slot is sz minus the combination (addr, value, timer) in the challenge rs, with the source's rs·rs·timer term |
| WitnessProperties.BinOpIsDenominator | provekit/prover/src/witness/witness_builder.rs:140-167 | when the squared-challenge slot holds rs², the slot is sz minus the combination (lhs, rhs, output) in rs |
| WitnessProperties.RangeMultiplicities | provekit/prover/src/witness/witness_builder.rs:82-93 | slot start + i holds the number of values whose low limb is i, and the counts add up to the number of values |
| WitnessProperties.BinOpIndexDecodes | provekit/prover/src/witness/witness_builder.rs:183-184 | with limbs below 2^bits and 2·bits < 64, the shift does not wrap, the index fits the table, and the index splits back into the two limbs |
| WitnessProperties.BinOpMultiplicities | provekit/prover/src/witness/witness_builder.rs:168-190 | slot start + l·2^bits + r holds the number of operand pairs with limbs (l, r), and the counts add up to the number of pairs |
| WitnessProperties.KeysCountPairs | provekit/prover/src/witness/witness_builder.rs:170-185 | the number of keys equal to l·2^bits + r is the number of pairs with limbs (l, r) |

## Left out

- `Display` (cm31.rs:365-369), the random `Distribution` (cm31.rs:390-397), the serde derives, and the compound assignments `+=`, `-=`, `*=` (cm31.rs:287-342). The assignments only delegate to the modelled operations.
- The internals of the base field `rm31::RF`. Its file is not part of this model, and its lazy-reduction scheme is not modelled. Each base-field operation is specified by the residue it yields, with a canonical result. `RF::is_zero` is taken to compare residues. Equality of `RF` values is taken to compare stored values, which is how `CF` equality is documented.
- M31.TrySqrt: the root the base field returns is taken to be x^((p+1)/4) mod p. Its file is not part of this model. The concrete inputs of the first finding below depend on that choice. The source's own test records one of them as failing (cm31.rs:503-504), which agrees with it.
- M31.TryInverse: states only that the inverse fails exactly on zero. That the inverse is correct is `M31.InverseCorrect`, which needs p prime.
- The primality of 2^31 − 1 and of the BN254 modulus is not proved. It is a hypothesis of every lemma that needs it.
- CM31.TryInverse: its contract states only the failure on zero and a canonical result. Existence for nonzero input, and x·x⁻¹ = 1, are in `CM31.InverseRoundTrip`.
- The panics become preconditions, not modelled behaviour:
  - `root_of_unity_4` and `root_of_unity_8` with an index out of range;
  - `gen_roots_of_unity` with n ≤ 1;
  - in the witness solver, an unwrap of an unsolved slot, an index out of range, the inverse of zero, and a counter that would overflow its u32 (so fewer than 2^32 counted operands).
- CM31Roots.GenRootsOfUnity: where the source panics on a failed square root, the model stops and returns the roots found so far, with `ok` false. It uses the corrected square root, which agrees with the source's wherever the source's succeeds (`CM31Sqrt.CorrectedAgrees`).
- CM31Roots.GenRootsOfUnity: success is proved only for the first square root. That every n up to 32 succeeds, as the source's test with n = 21 expects, needs the multiplicative group to be cyclic of order p² − 1, which is not proved.
- `usize` and u32 arithmetic are unbounded in the model, except where the source's width matters:
  - a value's least-significant 64-bit limb;
  - the u64 shift that forms a binary-op index.
- `BINOP_ATOMIC_BITS` is defined outside the shown file. It is the parameter `bits`, with 2·bits < 64.
- The witness builders `Acir` (an external witness map), `Challenge` (a transcript squeeze), `DigitalDecomposition` and `SpiceWitnesses` are left out. The last two delegate to solvers that are not part of this model.
- The `Sum` builder's iterator fold is the left fold `SumOf`. There is no separate loop.
- The recursive verifier's circuit types (types.go) and the benchmark compilation test (compiler.rs) are not part of this model.

## Findings

| source | as written | input that shows it | evidently intended | confidence | as-written member | corrected member |
|---|---|---|---|---|---|---|
| playground/cm31_ntt/src/cm31.rs:195-225 | only the base-field root r of the norm is tried. When the root the base field returns is −(x0² + y0²), both (a + r)/2 and (r − a)/2 are minus a square, so neither branch finds a root | v = (9, 1723688527) = (2, 2041534867)²; also the square of (0x53cd1db6, 0x5ac2fbb3), the input the unit test at lines 502-512 records as failing | also try −r, so every square has its root found | proved under the hypothesis that p is prime, and that the base field's root is x^((p+1)/4) mod p, which the test's recorded failure at lines 503-504 supports; not executed | CM31Sqrt.AsWrittenMissesRoot, CM31Sqrt.AsWrittenMissesTodoInput | CM31Sqrt.TrySqrtComplete |
| playground/cm31_ntt/src/cm31.rs:206, 219 | the canonical candidate's square is compared raw against the input, so an unreduced input is never accepted | W_4_NEG_1 = (p, p − 1), whose root is the 8th root of unity (2^15, p − 2^15) | compare against the reduced input | proved under the hypothesis that p is prime; not executed | CM31Sqrt.AsWrittenRejectsUnreduced | CM31Sqrt.TrySqrt |

The rest of the model uses the corrected `CM31Sqrt.TrySqrt`. The source's
version is still sound: any root it returns squares to the input.
