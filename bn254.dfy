/**
  The scalar field of the BN254 curve, the field of the prover's witness
  values. It is a library type of the prover; only the operations the
  witness solver uses are modelled, on canonical representatives in [0, Q).
*/
module Bn254 {
  import opened Wrappers
  import NT = NumberTheory

  /** The order of the BN254 scalar field. */
  const Q: nat := 0x3064_4e72_e131_a029_b850_45b6_8181_585d_2833_e848_79b9_7091_43e1_f593_f000_0001

  /** A field element, by its canonical representative. */
  type Felt = x: nat | x < Q

  function Add(x: Felt, y: Felt): Felt {
    (x + y) % Q
  }

  function Sub(x: Felt, y: Felt): Felt {
    (x - y) % Q
  }

  function Mul(x: Felt, y: Felt): Felt {
    (x * y) % Q
  }

  /** Subtraction undoes addition, and addition undoes subtraction. */
  lemma AddSubRoundTrip(x: Felt, y: Felt)
    ensures Sub(Add(x, y), y) == x
    ensures Add(Sub(x, y), y) == x
  {
    NT.AddSubMod(x, y, Q);
    NT.SubAddMod(x, y, Q);
  }

  /** The inverse as x^(Q-2); absent for zero. */
  function Inverse(x: Felt): (r: Option<Felt>)
    ensures r.None? <==> x == 0
  {
    if x == 0 then None else Some(NT.Pow(x, Q - 2) % Q)
  }

  /** The embedding of a native unsigned integer. */
  function FromNat(c: nat): (r: Felt)
    ensures c < Q ==> r == c
  {
    c % Q
  }

  /** The least significant 64-bit limb of the element's integer representation. */
  function Limb0(x: Felt): (r: nat)
    ensures r < 0x1_0000_0000_0000_0000
    ensures x < 0x1_0000_0000_0000_0000 ==> r == x
  {
    x % 0x1_0000_0000_0000_0000
  }

  /** An inverse that is returned multiplies the element to one. */
  lemma InverseCorrect(x: Felt)
    requires NT.IsPrime(Q) && x != 0
    ensures Inverse(x).Some? && Mul(x, Inverse(x).value) == 1
  {
    var w := NT.Pow(x, Q - 2);
    NT.FermatUnit(Q, x);
    assert NT.Pow(x, Q - 1) == x * w;
    NT.ModIdem(w, Q);
    NT.MulCong(x, x, w % Q, w, Q);
  }

  /** A product vanishes only when a factor does. */
  lemma ProductZero(x: Felt, y: Felt)
    requires NT.IsPrime(Q)
    ensures Mul(x, y) == 0 <==> x == 0 || y == 0
  {
    if Mul(x, y) == 0 {
      NT.EuclidLemma(Q, x, y);
    }
  }
}
