/**
  What solving a witness builder guarantees: which slots change, and what
  the stored values mean.
*/
module WitnessProperties {
  import opened Wrappers
  import NT = NumberTheory
  import opened Bn254
  import opened Histograms
  import opened WitnessBuilder

  // ---------------------------------------------------------------------
  // The write set
  // ---------------------------------------------------------------------

  /** Solving writes exactly the builder's slots, all of them in range, and
      leaves every other slot as it was. */
  lemma SolvedFrame(b: Builder, w: Witness, bits: nat)
    requires Ready(b, w, bits)
    ensures |Solved(b, w, bits)| == |w|
    ensures forall j: nat :: Writes(b, bits, j) ==> j < |w| && Solved(b, w, bits)[j].Some?
    ensures forall j: nat :: j < |w| && !Writes(b, bits, j) ==> Solved(b, w, bits)[j] == w[j]
  {
    if !b.IsSingleSlot() {
      assert |Counts(b, w, bits)| == (if b.MultiplicitiesForRange? then b.rangeSize
                                      else BinOpTableSize(bits));
    }
  }

  // ---------------------------------------------------------------------
  // Field identities
  // ---------------------------------------------------------------------

  lemma AddAssoc(x: Felt, y: Felt, z: Felt)
    ensures Add(Add(x, y), z) == Add(x, Add(y, z))
  {
    var xy, yz := Add(x, y), Add(y, z);
    assert xy == (x + y) % Q && yz == (y + z) % Q;
    assert Add(xy, z) == (xy + z) % Q && Add(x, yz) == (x + yz) % Q;
    NT.AddAssocMod(x, y, z, Q);
  }

  lemma MulAssoc(x: Felt, y: Felt, z: Felt)
    ensures Mul(Mul(x, y), z) == Mul(x, Mul(y, z))
  {
    var xy, yz := Mul(x, y), Mul(y, z);
    assert xy == (x * y) % Q && yz == (y * z) % Q;
    assert Mul(xy, z) == (xy * z) % Q && Mul(x, yz) == (x * yz) % Q;
    MulAssocMod(x, y, z, Q);
  }

  lemma Distributes(r: Felt, v: Felt, u: Felt)
    ensures Mul(r, Add(v, u)) == Add(Mul(r, v), Mul(r, u))
  {
    var s, rv, ru := Add(v, u), Mul(r, v), Mul(r, u);
    assert s == (v + u) % Q && rv == (r * v) % Q && ru == (r * u) % Q;
    assert Mul(r, s) == (r * s) % Q && Add(rv, ru) == (rv + ru) % Q;
    DistributesMod(r, v, u, Q);
  }

  lemma AddZero(x: Felt)
    ensures Add(x, 0) == x
  {
  }

  lemma MulOne(x: Felt)
    ensures Mul(x, 1) == x && Mul(1, x) == x
  {
  }

  lemma MulAssocMod(x: int, y: int, z: int, m: int)
    requires m > 0
    ensures ((x * y) % m * z) % m == (x * ((y * z) % m)) % m
  {
    NT.ModIdem(x * y, m);
    NT.MulCong((x * y) % m, x * y, z, z, m);
    NT.ModIdem(y * z, m);
    NT.MulCong(x, x, (y * z) % m, y * z, m);
    IntMulAssoc(x, y, z);
  }

  lemma IntMulAssoc(x: int, y: int, z: int)
    ensures (x * y) * z == x * (y * z)
  {
  }

  lemma IntDistributes(r: int, v: int, u: int)
    ensures r * (v + u) == r * v + r * u
  {
  }

  lemma DistributesMod(r: int, v: int, u: int, m: int)
    requires m > 0
    ensures (r * ((v + u) % m)) % m == ((r * v) % m + (r * u) % m) % m
  {
    NT.ModIdem(v + u, m);
    NT.MulCong(r, r, (v + u) % m, v + u, m);
    NT.ModIdem(r * v, m);
    NT.ModIdem(r * u, m);
    NT.AddCong((r * v) % m, r * v, (r * u) % m, r * u, m);
    IntDistributes(r, v, u);
  }

  // ---------------------------------------------------------------------
  // Sum
  // ---------------------------------------------------------------------

  /** The sum depends only on the values of its terms. */
  lemma {:induction false} SumOfTermValues(w: Witness, s: seq<SumTerm>, t: seq<SumTerm>)
    requires TermsKnown(w, s) && TermsKnown(w, t) && |s| == |t|
    requires forall k :: 0 <= k < |s| ==> TermValue(w, s[k]) == TermValue(w, t[k])
    ensures SumOf(w, s) == SumOf(w, t)
    decreases |s|
  {
    if |s| > 0 {
      SumOfTermValues(w, s[..|s| - 1], t[..|t| - 1]);
    }
  }

  /** A term without a coefficient counts as the coefficient one. */
  lemma SumImplicitCoefficient(w: Witness, terms: seq<SumTerm>, k: nat)
    requires TermsKnown(w, terms) && k < |terms| && terms[k].coeff.None?
    ensures SumOf(w, terms[k := SumTerm(Some(1), terms[k].idx)]) == SumOf(w, terms)
  {
    var t := terms[k := SumTerm(Some(1), terms[k].idx)];
    assert TermValue(w, t[k]) == TermValue(w, terms[k]);
    SumOfTermValues(w, t, terms);
  }

  /** Summing a concatenation adds the two sums. */
  lemma {:induction false} SumOfAppend(w: Witness, s: seq<SumTerm>, t: seq<SumTerm>)
    requires TermsKnown(w, s) && TermsKnown(w, t)
    ensures TermsKnown(w, s + t)
    ensures SumOf(w, s + t) == Add(SumOf(w, s), SumOf(w, t))
    decreases |t|
  {
    if |t| == 0 {
      assert s + t == s;
      AddZero(SumOf(w, s));
    } else {
      var init, last := t[..|t| - 1], t[|t| - 1];
      SumOfAppend(w, s, init);
      assert (s + t)[..|s + t| - 1] == s + init && (s + t)[|s + t| - 1] == last;
      assert SumOf(w, s + t) == Add(SumOf(w, s + init), TermValue(w, last));
      assert SumOf(w, t) == Add(SumOf(w, init), TermValue(w, last));
      AddAssoc(SumOf(w, s), SumOf(w, init), TermValue(w, last));
    }
  }

  // ---------------------------------------------------------------------
  // Product, inverse and product-linear
  // ---------------------------------------------------------------------

  /** The stored product vanishes exactly when a factor does. */
  lemma ProductSolved(b: Builder, w: Witness, bits: nat)
    requires NT.IsPrime(Q) && b.Product? && Ready(b, w, bits)
    ensures SlotValue(b, w, bits) == 0 <==> Get(w, b.a) == 0 || Get(w, b.b) == 0
  {
    ProductZero(Get(w, b.a), Get(w, b.b));
  }

  /** The stored inverse multiplies the operand to one. */
  lemma InverseSolved(b: Builder, w: Witness, bits: nat)
    requires NT.IsPrime(Q) && b.Inverse? && Ready(b, w, bits)
    ensures Mul(Get(w, b.operand), SlotValue(b, w, bits)) == 1
  {
    InverseCorrect(Get(w, b.operand));
  }

  /** The value of the affine form a * w[idx] + b. */
  function Affine(w: Witness, t: ProductLinearTerm): Felt
    requires Known(w, t.idx)
  {
    Add(Mul(t.a, Get(w, t.idx)), t.b)
  }

  /** The product of two affine forms vanishes exactly when one of them does. */
  lemma ProductLinearSolved(b: Builder, w: Witness, bits: nat)
    requires NT.IsPrime(Q) && b.ProductLinearOperation? && Ready(b, w, bits)
    ensures SlotValue(b, w, bits) == Mul(Affine(w, b.x), Affine(w, b.y))
    ensures SlotValue(b, w, bits) == 0 <==> Affine(w, b.x) == 0 || Affine(w, b.y) == 0
  {
    ProductZero(Affine(w, b.x), Affine(w, b.y));
  }

  // ---------------------------------------------------------------------
  // Denominators
  // ---------------------------------------------------------------------

  /** The random linear combination t0 + r t1 + r^2 t2 + ..., by Horner's rule. */
  function Combination(r: Felt, ts: seq<Felt>): Felt {
    if |ts| == 0 then 0 else Add(ts[0], Mul(r, Combination(r, ts[1..])))
  }

  lemma CombinationSingle(r: Felt, t: Felt)
    ensures Combination(r, [t]) == t
  {
    assert [t][1..] == [];
  }

  lemma CombinationCons(r: Felt, t: Felt, ts: seq<Felt>)
    ensures Combination(r, [t] + ts) == Add(t, Mul(r, Combination(r, ts)))
  {
    assert ([t] + ts)[1..] == ts;
  }

  lemma ThreeTerms(r: Felt, a: Felt, v: Felt, c: Felt)
    ensures Combination(r, [a, v, c]) == Add(a, Mul(r, Add(v, Mul(r, c))))
  {
    CombinationSingle(r, c);
    CombinationCons(r, v, [c]);
    CombinationCons(r, a, [v, c]);
    assert [v] + [c] == [v, c];
    assert [a] + [v, c] == [a, v, c];
  }

  /** A denominator sz minus a combination vanishes exactly when the
      challenge sz equals the combination. */
  lemma DenominatorVanishes(sz: Felt, r: Felt, ts: seq<Felt>)
    ensures Sub(sz, Combination(r, ts)) == 0 <==> sz == Combination(r, ts)
  {
    var c := Combination(r, ts);
    assert Sub(sz, c) == (sz - c) % Q;
    SubZeroMod(sz, c, Q);
  }

  /** Two residues below m differ by a multiple of m only when equal. */
  lemma SubZeroMod(u: int, v: int, m: int)
    requires 0 <= u < m && 0 <= v < m
    ensures (u - v) % m == 0 <==> u == v
  {
    if u >= v {
      NT.DivModUnique(u - v, m, 0, u - v);
    } else {
      NT.DivModUnique(u - v, m, -1, m + (u - v));
    }
  }

  /** The indexed log-up denominator is sz minus the combination of the
      scaled index and the value under the challenge rs. */
  lemma IndexedLogUpIsDenominator(b: Builder, w: Witness, bits: nat)
    requires b.IndexedLogUpDenominator? && Ready(b, w, bits)
    ensures SlotValue(b, w, bits)
            == Sub(Get(w, b.sz), Combination(Get(w, b.rs),
                                             [Mul(b.index.coeff, Get(w, b.index.idx)), Get(w, b.value)]))
  {
    var a, v := Mul(b.index.coeff, Get(w, b.index.idx)), Get(w, b.value);
    CombinationSingle(Get(w, b.rs), v);
    CombinationCons(Get(w, b.rs), a, [v]);
    assert [a] + [v] == [a, v];
  }

  /** The log-up denominator is sz minus the single scaled term, which is
      its combination under any challenge; it vanishes exactly when sz
      equals that term. */
  lemma LogUpIsDenominator(b: Builder, w: Witness, bits: nat, r: Felt)
    requires b.LogUpDenominator? && Ready(b, w, bits)
    ensures var t := Mul(b.term.coeff, Get(w, b.term.idx));
      SlotValue(b, w, bits) == Sub(Get(w, b.sz), Combination(r, [t])) &&
      (SlotValue(b, w, bits) == 0 <==> Get(w, b.sz) == t)
  {
    var t := Mul(b.term.coeff, Get(w, b.term.idx));
    CombinationSingle(r, t);
    DenominatorVanishes(Get(w, b.sz), r, [t]);
  }

  /** The source's order of evaluation for three terms agrees with Horner's rule. */
  lemma SourceIsHorner(a: Felt, v: Felt, c: Felt, r: Felt, rr: Felt, t: Felt)
    requires rr == Mul(r, r)
    ensures Add(Add(a, Mul(r, v)), Mul(Mul(rr, t), c)) == Add(a, Mul(r, Add(v, Mul(r, Mul(t, c)))))
  {
    var x := Mul(t, c);
    Distributes(r, v, Mul(r, x));
    MulAssoc(r, r, x);
    MulAssoc(rr, t, c);
    AddAssoc(a, Mul(r, v), Mul(rr, x));
  }

  /** The spice multiset factor is sz minus the combination of the scaled
      address, the value and the scaled timer under the challenge rs. */
  lemma SpiceIsDenominator(b: Builder, w: Witness, bits: nat)
    requires b.SpiceMultisetFactor? && Ready(b, w, bits)
    ensures SlotValue(b, w, bits)
            == Sub(Get(w, b.sz), Combination(Get(w, b.rs),
                                             [Mul(b.addr.coeff, Get(w, b.addr.idx)), Get(w, b.value),
                                              Mul(b.timer.coeff, Get(w, b.timer.idx))]))
  {
    var r := Get(w, b.rs);
    var a, v := Mul(b.addr.coeff, Get(w, b.addr.idx)), Get(w, b.value);
    var tc, tv := b.timer.coeff, Get(w, b.timer.idx);
    ThreeTerms(r, a, v, Mul(tc, tv));
    SourceIsHorner(a, v, tv, r, Mul(r, r), tc);
  }

  /** The binary-op lookup denominator is sz minus the combination of the
      operands and the result under rs, given that the slot rsSqrd holds rs^2. */
  lemma BinOpIsDenominator(b: Builder, w: Witness, bits: nat)
    requires b.BinOpLookupDenominator? && Ready(b, w, bits)
    requires Get(w, b.rsSqrd) == Mul(Get(w, b.rs), Get(w, b.rs))
    ensures SlotValue(b, w, bits)
            == Sub(Get(w, b.sz), Combination(Get(w, b.rs),
                                             [OperandValue(w, b.lhs), OperandValue(w, b.rhs),
                                              OperandValue(w, b.output)]))
  {
    var r := Get(w, b.rs);
    var l, x, o := OperandValue(w, b.lhs), OperandValue(w, b.rhs), OperandValue(w, b.output);
    ThreeTerms(r, l, x, o);
    SourceIsHorner(l, x, o, r, Mul(r, r), 1);
    MulOne(Get(w, b.rsSqrd));
    MulOne(o);
  }

  // ---------------------------------------------------------------------
  // Multiplicities
  // ---------------------------------------------------------------------

  /** Slot start + i holds the number of values whose low limb is i, and the
      stored counts add up to the number of values. */
  lemma RangeMultiplicities(b: Builder, w: Witness, bits: nat, i: nat)
    requires b.MultiplicitiesForRange? && Ready(b, w, bits) && i < b.rangeSize
    ensures Solved(b, w, bits)[b.start + i] == Some(multiset(RangeKeys(w, b.values))[i])
    ensures Total(Counts(b, w, bits)) == |b.values|
  {
    var keys := RangeKeys(w, b.values);
    HistogramCounts(keys, b.rangeSize, i);
    HistogramTotal(keys, b.rangeSize);
    StoredMultiplicity(b, w, bits, i);
  }

  /** A multiplicity builder stores count i, unchanged, in slot start + i. */
  lemma StoredMultiplicity(b: Builder, w: Witness, bits: nat, i: nat)
    requires Ready(b, w, bits) && !b.IsSingleSlot() && i < |Counts(b, w, bits)|
    ensures b.start + i < |w|
    ensures Solved(b, w, bits)[b.start + i] == Some(Counts(b, w, bits)[i])
  {
    var counts := Counts(b, w, bits);
    if b.MultiplicitiesForRange? {
      CountBelowU32(RangeKeys(w, b.values), b.rangeSize, i);
    } else {
      CountBelowU32(BinOpKeys(w, bits, b.operands), BinOpTableSize(bits), i);
    }
    assert Solved(b, w, bits) == StoreCounts(w, b.start, counts);
    StoredCount(w, b.start, counts, i);
  }

  /** With fewer than 2^32 keys every count fits a u32. */
  lemma CountBelowU32(keys: seq<nat>, n: nat, i: nat)
    requires KeysBelow(keys, n) && i < n && |keys| < U32Limit
    ensures Histogram(keys, n)[i] < U32Limit
  {
    CountAtMostKeys(keys, n, i);
  }

  /** The number of operand pairs whose low limbs are l and r. */
  function PairCount(w: Witness, ops: seq<(ConstantOrWitness, ConstantOrWitness)>, l: nat, r: nat): nat
    requires PairsKnown(w, ops)
  {
    if |ops| == 0 then 0
    else
      var last := ops[|ops| - 1];
      PairCount(w, ops[..|ops| - 1], l, r) +
      (if Limb0(OperandValue(w, last.0)) == l && Limb0(OperandValue(w, last.1)) == r then 1 else 0)
  }

  /** All operand limbs are below 2^bits: the operands are atomic. */
  predicate LimbsBelow(w: Witness, bits: nat, ops: seq<(ConstantOrWitness, ConstantOrWitness)>)
    requires PairsKnown(w, ops)
  {
    forall k :: 0 <= k < |ops| ==>
      Limb0(OperandValue(w, ops[k].0)) < Pow2(bits) && Limb0(OperandValue(w, ops[k].1)) < Pow2(bits)
  }

  lemma {:induction false} Pow2Add(a: nat, c: nat)
    ensures Pow2(a + c) == Pow2(a) * Pow2(c)
    decreases a
  {
    if a > 0 {
      Pow2Add(a - 1, c);
    }
  }

  lemma {:induction false} Pow2Monotone(a: nat, c: nat)
    requires a <= c
    ensures Pow2(a) <= Pow2(c)
    decreases c
  {
    if a < c {
      Pow2Monotone(a, c - 1);
    }
  }

  lemma Pow2Of64()
    ensures Pow2(64) == U64Limit
  {
    assert Pow2(8) == 256;
    Pow2Add(8, 8);
    assert Pow2(16) == 0x1_0000;
    Pow2Add(16, 16);
    assert Pow2(32) == 0x1_0000_0000;
    Pow2Add(32, 32);
  }

  /** The binary-op table fits 64-bit indices. */
  lemma TableFitsU64(bits: nat)
    requires 2 * bits < 64
    ensures Pow2(bits) * Pow2(bits) == BinOpTableSize(bits)
    ensures BinOpTableSize(bits) < U64Limit
  {
    Pow2Add(bits, bits);
    assert bits + bits == 2 * bits;
    Pow2Monotone(2 * bits, 63);
    Pow2Of64();
  }

  /** Two digits below s make a number below s * s. */
  lemma TwoDigits(l: nat, r: nat, s: nat)
    requires l < s && r < s
    ensures l * s + r < s * s
  {
    assert l * s <= (s - 1) * s;
  }

  /** For limbs below 2^bits the index is l * 2^bits + r, with no 64-bit
      wrap-around, and it determines the pair: l and r are its quotient and
      remainder by 2^bits. */
  lemma BinOpIndexDecodes(l: nat, r: nat, bits: nat)
    requires 2 * bits < 64 && l < Pow2(bits) && r < Pow2(bits)
    ensures (l * Pow2(bits)) % U64Limit + r == l * Pow2(bits) + r
    ensures l * Pow2(bits) + r < BinOpTableSize(bits)
    ensures (l * Pow2(bits) + r) / Pow2(bits) == l && (l * Pow2(bits) + r) % Pow2(bits) == r
  {
    TableFitsU64(bits);
    DigitsFit(l, r, Pow2(bits), BinOpTableSize(bits));
  }

  lemma DigitsFit(l: nat, r: nat, s: nat, t: nat)
    requires l < s && r < s && s * s == t && t < U64Limit
    ensures (l * s) % U64Limit + r == l * s + r
    ensures l * s + r < t
    ensures (l * s + r) / s == l && (l * s + r) % s == r
  {
    TwoDigits(l, r, s);
    NoWrap(l * s);
    DecodeDigits(l, r, s);
  }

  lemma NoWrap(x: nat)
    requires x < U64Limit
    ensures x % U64Limit == x
  {
  }

  lemma DecodeDigits(l: nat, r: nat, s: nat)
    requires r < s
    ensures (l * s + r) / s == l && (l * s + r) % s == r
  {
    NT.DivModUnique(l * s + r, s, l, r);
  }

  /** With atomic operands, slot start + (l * 2^bits + r) holds the number
      of operand pairs whose limbs are l and r. */
  lemma BinOpMultiplicities(b: Builder, w: Witness, bits: nat, l: nat, r: nat)
    requires b.MultiplicitiesForBinOp? && Ready(b, w, bits)
    requires LimbsBelow(w, bits, b.operands) && l < Pow2(bits) && r < Pow2(bits)
    ensures var i, s := l * Pow2(bits) + r, Solved(b, w, bits);
      i < BinOpTableSize(bits) && b.start + i < |s| && s[b.start + i] == Some(PairCount(w, b.operands, l, r))
    ensures Total(Counts(b, w, bits)) == |b.operands|
  {
    var i := IndexOf(l, r, Pow2(bits));
    HistogramTotal(BinOpKeys(w, bits, b.operands), BinOpTableSize(bits));
    PairCountStored(w, bits, b.operands, l, r, i);
    assert Counts(b, w, bits) == Histogram(BinOpKeys(w, bits, b.operands), BinOpTableSize(bits));
    StoredMultiplicity(b, w, bits, i);
  }

  /** Entry l * 2^bits + r of the table counts the pairs with limbs (l, r). */
  lemma PairCountStored(w: Witness, bits: nat, ops: seq<(ConstantOrWitness, ConstantOrWitness)>,
                        l: nat, r: nat, i: nat)
    requires 2 * bits < 64 && PairsKnown(w, ops) && LimbsBelow(w, bits, ops)
    requires KeysBelow(BinOpKeys(w, bits, ops), BinOpTableSize(bits))
    requires l < Pow2(bits) && r < Pow2(bits) && i == l * Pow2(bits) + r
    ensures i < BinOpTableSize(bits)
    ensures Histogram(BinOpKeys(w, bits, ops), BinOpTableSize(bits))[i] == PairCount(w, ops, l, r)
  {
    BinOpIndexDecodes(l, r, bits);
    HistogramCounts(BinOpKeys(w, bits, ops), BinOpTableSize(bits), i);
    KeysCountPairs(w, bits, ops, l, r);
  }

  /** Slot start + i of the stored counts holds count i. */
  lemma StoredCount(w: Witness, start: nat, counts: seq<nat>, i: nat)
    requires start + |counts| <= |w| && i < |counts| && counts[i] < U32Limit
    ensures StoreCounts(w, start, counts)[start + i] == Some(counts[i])
  {
    assert counts[(start + i) - start] == counts[i];
    assert FromNat(counts[i]) == counts[i];
  }

  /** With atomic operands, the index l * 2^bits + r occurs once per pair
      with limbs l and r. */
  lemma {:induction false} KeysCountPairs(w: Witness, bits: nat, ops: seq<(ConstantOrWitness, ConstantOrWitness)>,
                                          l: nat, r: nat)
    requires 2 * bits < 64 && PairsKnown(w, ops) && LimbsBelow(w, bits, ops)
    requires l < Pow2(bits) && r < Pow2(bits)
    ensures multiset(BinOpKeys(w, bits, ops))[l * Pow2(bits) + r] == PairCount(w, ops, l, r)
    decreases |ops|
  {
    if |ops| > 0 {
      var init := ops[..|ops| - 1];
      assert PairsKnown(w, init) && LimbsBelow(w, bits, init);
      KeysCountPairs(w, bits, init, l, r);
      LastPairCounted(w, bits, ops, l, r);
    }
  }

  /** Appending one pair adds one to the count of index l * 2^bits + r and
      to the pair count of (l, r) exactly when its limbs are l and r. */
  lemma LastPairCounted(w: Witness, bits: nat, ops: seq<(ConstantOrWitness, ConstantOrWitness)>,
                        l: nat, r: nat)
    requires 2 * bits < 64 && PairsKnown(w, ops) && LimbsBelow(w, bits, ops) && |ops| > 0
    requires l < Pow2(bits) && r < Pow2(bits)
    ensures var init, last := ops[..|ops| - 1], ops[|ops| - 1];
      var hit := if Limb0(OperandValue(w, last.0)) == l && Limb0(OperandValue(w, last.1)) == r then 1 else 0;
      PairsKnown(w, init) &&
      multiset(BinOpKeys(w, bits, ops))[l * Pow2(bits) + r] ==
        multiset(BinOpKeys(w, bits, init))[l * Pow2(bits) + r] + hit &&
      PairCount(w, ops, l, r) == PairCount(w, init, l, r) + hit
  {
    var init, last := ops[..|ops| - 1], ops[|ops| - 1];
    assert PairsKnown(w, init);
    var ll, rr := Limb0(OperandValue(w, last.0)), Limb0(OperandValue(w, last.1));
    var k := BinOpIndex(w, bits, last);
    assert k == (ll * Pow2(bits)) % U64Limit + rr;
    var i := IndexOf(l, r, Pow2(bits));
    assert BinOpKeys(w, bits, ops) == BinOpKeys(w, bits, init) + [k];
    SameIndexSameLimbs(ll, rr, l, r, bits);
    CountAppend(BinOpKeys(w, bits, init), k, i);
  }

  /** The table index of digits l and r in base s. */
  lemma IndexOf(l: nat, r: nat, s: nat) returns (i: nat)
    ensures i == l * s + r
  {
    i := l * s + r;
  }

  /** Two pairs of limbs below 2^bits have the same index iff they are equal. */
  lemma SameIndexSameLimbs(ll: nat, rr: nat, l: nat, r: nat, bits: nat)
    requires 2 * bits < 64 && ll < Pow2(bits) && rr < Pow2(bits) && l < Pow2(bits) && r < Pow2(bits)
    ensures (ll * Pow2(bits)) % U64Limit + rr == l * Pow2(bits) + r <==> ll == l && rr == r
  {
    BinOpIndexDecodes(ll, rr, bits);
    BinOpIndexDecodes(l, r, bits);
  }

  lemma CountAppend(keys: seq<nat>, k: nat, i: nat)
    ensures multiset(keys + [k])[i] == multiset(keys)[i] + (if k == i then 1 else 0)
  {
    assert multiset(keys + [k]) == multiset(keys) + multiset{k};
  }
}
