/**
  The witness solver: one witness builder fills one or more slots of the
  witness vector, computing their values from slots filled earlier.

  `Ready` states what the solver demands of the vector (every slot it reads
  is filled, every slot it writes is in range, the operand it inverts is
  nonzero, every counted value fits its table): the source panics when it
  is not met. `Solved` is the vector after solving, and `Solve` is the
  in-place update, proved to produce it.
*/
module WitnessBuilder {
  import opened Wrappers
  import opened Bn254
  import opened Histograms

  /** The witness vector: a slot holds a value once it is solved. */
  type Witness = seq<Option<Felt>>

  /** An operand given either as a constant or as a witness slot. */
  datatype ConstantOrWitness = ConstantOperand(c: Felt) | WitnessOperand(idx: nat)

  /** A term of a sum: an optional coefficient times a slot. */
  datatype SumTerm = SumTerm(coeff: Option<Felt>, idx: nat)

  /** A constant coefficient times a slot. */
  datatype WitnessCoefficient = WitnessCoefficient(coeff: Felt, idx: nat)

  /** The affine form a * w[idx] + b. */
  datatype ProductLinearTerm = ProductLinearTerm(idx: nat, a: Felt, b: Felt)

  /** The witness builders that are modelled, with the source's fields. */
  datatype Builder =
    | Constant(idx: nat, c: Felt)
    | Sum(idx: nat, terms: seq<SumTerm>)
    | Product(idx: nat, a: nat, b: nat)
    | Inverse(idx: nat, operand: nat)
    | IndexedLogUpDenominator(idx: nat, sz: nat, index: WitnessCoefficient, rs: nat, value: nat)
    | MultiplicitiesForRange(start: nat, rangeSize: nat, values: seq<nat>)
    | LogUpDenominator(idx: nat, sz: nat, term: WitnessCoefficient)
    | ProductLinearOperation(idx: nat, x: ProductLinearTerm, y: ProductLinearTerm)
    | SpiceMultisetFactor(idx: nat, sz: nat, rs: nat, addr: WitnessCoefficient, value: nat,
                          timer: WitnessCoefficient)
    | BinOpLookupDenominator(idx: nat, sz: nat, rs: nat, rsSqrd: nat,
                             lhs: ConstantOrWitness, rhs: ConstantOrWitness, output: ConstantOrWitness)
    | MultiplicitiesForBinOp(start: nat, operands: seq<(ConstantOrWitness, ConstantOrWitness)>)
  {
    /** The builders that write one slot, `idx`. */
    predicate IsSingleSlot() {
      !MultiplicitiesForRange? && !MultiplicitiesForBinOp?
    }
  }

  const U32Limit: nat := 0x1_0000_0000
  const U64Limit: nat := 0x1_0000_0000_0000_0000

  function Pow2(k: nat): (r: nat)
    ensures r > 0
  {
    if k == 0 then 1 else 2 * Pow2(k - 1)
  }

  // ---------------------------------------------------------------------
  // Reading operands
  // ---------------------------------------------------------------------

  /** Slot i exists and is solved. */
  predicate Known(w: Witness, i: nat) {
    i < |w| && w[i].Some?
  }

  /** The value of a solved slot. */
  function Get(w: Witness, i: nat): Felt
    requires Known(w, i)
  {
    w[i].value
  }

  predicate OperandKnown(w: Witness, o: ConstantOrWitness) {
    o.WitnessOperand? ==> Known(w, o.idx)
  }

  function OperandValue(w: Witness, o: ConstantOrWitness): Felt
    requires OperandKnown(w, o)
  {
    match o
    case ConstantOperand(c) => c
    case WitnessOperand(i) => Get(w, i)
  }

  predicate TermsKnown(w: Witness, terms: seq<SumTerm>) {
    forall k :: 0 <= k < |terms| ==> Known(w, terms[k].idx)
  }

  /** A term's value: a missing coefficient stands for the slot's value alone. */
  function TermValue(w: Witness, t: SumTerm): Felt
    requires Known(w, t.idx)
  {
    match t.coeff
    case Some(c) => Mul(c, Get(w, t.idx))
    case None => Get(w, t.idx)
  }

  /** The terms folded left to right from zero. */
  function SumOf(w: Witness, terms: seq<SumTerm>): Felt
    requires TermsKnown(w, terms)
  {
    if |terms| == 0 then 0
    else Add(SumOf(w, terms[..|terms| - 1]), TermValue(w, terms[|terms| - 1]))
  }

  predicate PairsKnown(w: Witness, ops: seq<(ConstantOrWitness, ConstantOrWitness)>) {
    forall k :: 0 <= k < |ops| ==> OperandKnown(w, ops[k].0) && OperandKnown(w, ops[k].1)
  }

  /** The table index of a binary-op operand pair: the low limb of the left
      operand shifted left by `bits` in 64-bit arithmetic, plus the low limb
      of the right operand. */
  function BinOpIndex(w: Witness, bits: nat, pair: (ConstantOrWitness, ConstantOrWitness)): nat
    requires OperandKnown(w, pair.0) && OperandKnown(w, pair.1)
  {
    (Limb0(OperandValue(w, pair.0)) * Pow2(bits)) % U64Limit + Limb0(OperandValue(w, pair.1))
  }

  /** The table indices of the operand pairs, in order. */
  function BinOpKeys(w: Witness, bits: nat, ops: seq<(ConstantOrWitness, ConstantOrWitness)>): (keys: seq<nat>)
    requires PairsKnown(w, ops)
    ensures |keys| == |ops|
    ensures forall k :: 0 <= k < |ops| ==> keys[k] == BinOpIndex(w, bits, ops[k])
  {
    if |ops| == 0 then []
    else BinOpKeys(w, bits, ops[..|ops| - 1]) + [BinOpIndex(w, bits, ops[|ops| - 1])]
  }

  predicate ValuesKnown(w: Witness, values: seq<nat>) {
    forall k :: 0 <= k < |values| ==> Known(w, values[k])
  }

  /** The low limbs of the counted values, in order. */
  function RangeKeys(w: Witness, values: seq<nat>): (keys: seq<nat>)
    requires ValuesKnown(w, values)
    ensures |keys| == |values|
    ensures forall k :: 0 <= k < |values| ==> keys[k] == Limb0(Get(w, values[k]))
  {
    if |values| == 0 then []
    else RangeKeys(w, values[..|values| - 1]) + [Limb0(Get(w, values[|values| - 1]))]
  }

  // ---------------------------------------------------------------------
  // What solving demands, writes and produces
  // ---------------------------------------------------------------------

  /** The size of the binary-op multiplicity table. */
  function BinOpTableSize(bits: nat): nat {
    Pow2(2 * bits)
  }

  /** What the solver demands: without it the source panics (an unwrap of an
      unsolved slot, an index out of range, the inverse of zero, an
      overflowing native integer). `bits` is the width of a binary-op limb. */
  predicate Ready(b: Builder, w: Witness, bits: nat) {
    match b
    case Constant(idx, _) => idx < |w|
    case Sum(idx, terms) => idx < |w| && TermsKnown(w, terms)
    case Product(idx, x, y) => idx < |w| && Known(w, x) && Known(w, y)
    case Inverse(idx, x) => idx < |w| && Known(w, x) && Get(w, x) != 0
    case IndexedLogUpDenominator(idx, sz, index, rs, value) =>
      idx < |w| && Known(w, sz) && Known(w, index.idx) && Known(w, rs) && Known(w, value)
    case MultiplicitiesForRange(start, size, values) =>
      start + size <= |w| && ValuesKnown(w, values) && |values| < U32Limit &&
      KeysBelow(RangeKeys(w, values), size)
    case LogUpDenominator(idx, sz, value) => idx < |w| && Known(w, sz) && Known(w, value.idx)
    case ProductLinearOperation(idx, x, y) => idx < |w| && Known(w, x.idx) && Known(w, y.idx)
    case SpiceMultisetFactor(idx, sz, rs, addr, value, timer) =>
      idx < |w| && Known(w, sz) && Known(w, rs) && Known(w, addr.idx) && Known(w, value) &&
      Known(w, timer.idx)
    case BinOpLookupDenominator(idx, sz, rs, rsSqrd, lhs, rhs, output) =>
      idx < |w| && Known(w, sz) && Known(w, rs) && Known(w, rsSqrd) &&
      OperandKnown(w, lhs) && OperandKnown(w, rhs) && OperandKnown(w, output)
    case MultiplicitiesForBinOp(start, ops) =>
      2 * bits < 64 && start + BinOpTableSize(bits) <= |w| && PairsKnown(w, ops) &&
      |ops| < U32Limit && KeysBelow(BinOpKeys(w, bits, ops), BinOpTableSize(bits))
  }

  /** The value a single-slot builder stores. */
  function SlotValue(b: Builder, w: Witness, bits: nat): Felt
    requires Ready(b, w, bits) && b.IsSingleSlot()
  {
    match b
    case Constant(_, c) => c
    case Sum(_, terms) => SumOf(w, terms)
    case Product(_, x, y) => Mul(Get(w, x), Get(w, y))
    case Inverse(_, x) => Bn254.Inverse(Get(w, x)).value
    case IndexedLogUpDenominator(_, sz, index, rs, value) =>
      Sub(Get(w, sz), Add(Mul(index.coeff, Get(w, index.idx)), Mul(Get(w, rs), Get(w, value))))
    case LogUpDenominator(_, sz, value) =>
      Sub(Get(w, sz), Mul(value.coeff, Get(w, value.idx)))
    case ProductLinearOperation(_, x, y) =>
      Mul(Add(Mul(x.a, Get(w, x.idx)), x.b), Add(Mul(y.a, Get(w, y.idx)), y.b))
    case SpiceMultisetFactor(_, sz, rs, addr, value, timer) =>
      var r := Get(w, rs);
      Sub(Get(w, sz),
          Add(Add(Mul(addr.coeff, Get(w, addr.idx)), Mul(r, Get(w, value))),
              Mul(Mul(Mul(r, r), timer.coeff), Get(w, timer.idx))))
    case BinOpLookupDenominator(_, sz, rs, rsSqrd, lhs, rhs, output) =>
      Sub(Get(w, sz),
          Add(Add(OperandValue(w, lhs), Mul(Get(w, rs), OperandValue(w, rhs))),
              Mul(Get(w, rsSqrd), OperandValue(w, output))))
  }

  /** The counts a multiplicity builder computes, one per table entry. */
  function Counts(b: Builder, w: Witness, bits: nat): (counts: seq<nat>)
    requires Ready(b, w, bits) && !b.IsSingleSlot()
    ensures b.MultiplicitiesForRange? ==> |counts| == b.rangeSize
    ensures b.MultiplicitiesForBinOp? ==> |counts| == BinOpTableSize(bits)
  {
    match b
    case MultiplicitiesForRange(_, size, values) => Histogram(RangeKeys(w, values), size)
    case MultiplicitiesForBinOp(_, ops) => Histogram(BinOpKeys(w, bits, ops), BinOpTableSize(bits))
  }

  /** w with counts stored in the consecutive slots from start. */
  function StoreCounts(w: Witness, start: nat, counts: seq<nat>): (r: Witness)
    ensures |r| == |w|
  {
    seq(|w|, j requires 0 <= j < |w| =>
      if start <= j < start + |counts| then Some(FromNat(counts[j - start])) else w[j])
  }

  /** Whether a builder writes slot j. */
  predicate Writes(b: Builder, bits: nat, j: nat) {
    match b
    case MultiplicitiesForRange(start, size, _) => start <= j < start + size
    case MultiplicitiesForBinOp(start, _) => start <= j < start + BinOpTableSize(bits)
    case _ => j == b.idx
  }

  /** The witness vector after solving. */
  function Solved(b: Builder, w: Witness, bits: nat): (r: Witness)
    requires Ready(b, w, bits)
    ensures |r| == |w|
  {
    if b.IsSingleSlot() then w[b.idx := Some(SlotValue(b, w, bits))]
    else StoreCounts(w, b.start, Counts(b, w, bits))
  }

  // ---------------------------------------------------------------------
  // The in-place solver
  // ---------------------------------------------------------------------

  /** Solves one builder, updating the witness vector in place. */
  method Solve(b: Builder, slots: array<Option<Felt>>, bits: nat)
    requires Ready(b, slots[..], bits)
    modifies slots
    ensures slots[..] == Solved(b, old(slots[..]), bits)
  {
    if b.IsSingleSlot() {
      slots[b.idx] := Some(SlotValue(b, slots[..], bits));
    } else if b.MultiplicitiesForRange? {
      var multiplicities := CountRange(slots, b.rangeSize, b.values);
      CopyCounts(slots, b.start, multiplicities);
    } else {
      var multiplicities := CountBinOps(slots, bits, b.operands);
      CopyCounts(slots, b.start, multiplicities);
    }
  }

  /** Counts the low limbs of the values in a table of `size` counters. */
  method CountRange(slots: array<Option<Felt>>, size: nat, values: seq<nat>)
    returns (multiplicities: array<nat>)
    requires ValuesKnown(slots[..], values) && KeysBelow(RangeKeys(slots[..], values), size)
    ensures fresh(multiplicities)
    ensures multiplicities[..] == Histogram(RangeKeys(slots[..], values), size)
  {
    ghost var keys := RangeKeys(slots[..], values);
    multiplicities := new nat[size](_ => 0);
    for k := 0 to |values|
      invariant KeysBelow(keys[..k], size)
      invariant multiplicities[..] == Histogram(keys[..k], size)
      modifies multiplicities
    {
      var value := Limb0(slots[values[k]].value);
      HistogramStep(keys, size, k);
      multiplicities[value] := multiplicities[value] + 1;
    }
    assert keys[..|values|] == keys;
  }

  /** Counts the table indices of the operand pairs. */
  method CountBinOps(slots: array<Option<Felt>>, bits: nat,
                     ops: seq<(ConstantOrWitness, ConstantOrWitness)>)
    returns (multiplicities: array<nat>)
    requires PairsKnown(slots[..], ops)
    requires KeysBelow(BinOpKeys(slots[..], bits, ops), BinOpTableSize(bits))
    ensures fresh(multiplicities)
    ensures multiplicities[..] == Histogram(BinOpKeys(slots[..], bits, ops), BinOpTableSize(bits))
  {
    var size := BinOpTableSize(bits);
    ghost var keys := BinOpKeys(slots[..], bits, ops);
    multiplicities := new nat[size](_ => 0);
    for k := 0 to |ops|
      invariant KeysBelow(keys[..k], size)
      invariant multiplicities[..] == Histogram(keys[..k], size)
      modifies multiplicities
    {
      var index := BinOpIndex(slots[..], bits, ops[k]);
      HistogramStep(keys, size, k);
      multiplicities[index] := multiplicities[index] + 1;
    }
    assert keys[..|ops|] == keys;
  }

  /** Stores the counts in consecutive slots from start. */
  method CopyCounts(slots: array<Option<Felt>>, start: nat, counts: array<nat>)
    requires start + counts.Length <= slots.Length
    modifies slots
    ensures slots[..] == StoreCounts(old(slots[..]), start, counts[..])
  {
    for i := 0 to counts.Length
      invariant forall j :: 0 <= j < slots.Length ==>
        slots[j] == if start <= j < start + i then Some(FromNat(counts[j - start])) else old(slots[j])
    {
      slots[start + i] := Some(FromNat(counts[i]));
    }
  }
}
