/**
  The base field GF(P), P = 2^31 - 1, as the extension field sees it.

  The base field type is an outside collaborator of the extension field:
  only its boundary is modelled. An element holds a raw value `val` and
  stands for the residue `val % P`; the raw value need not be reduced
  (the constant with value P is a legal representation of zero). Every
  arithmetic operation here returns the canonical representative in
  [0, P). Inversion and square root are given bodies built from
  exponentiation. Most of the model relies only on their contracts and the
  lemmas below. The concrete inputs on which the extension field's square
  root is shown to fail are the exception: they unfold the body of
  `TrySqrt`, so they rest on the base field returning x^((P+1)/4) mod P as
  the root, not its negation.
*/
module M31 {
  import opened Wrappers
  import NT = NumberTheory

  /** The Mersenne prime 2^31 - 1. */
  const P: nat := 0x7fff_ffff

  /** A native unsigned 32-bit integer. */
  type U32 = x: nat | x < 0x1_0000_0000

  /** A base-field element in its raw, possibly unreduced, representation. */
  datatype RF = RF(val: nat)

  /** The residue modulo P that an element stands for. */
  function Value(x: RF): nat {
    x.val % P
  }

  predicate IsCanonical(x: RF) {
    x.val < P
  }

  /** Lifts a native integer into the field without reducing it. */
  function New(v: U32): (r: RF)
    ensures Value(r) == v % P
  {
    RF(v)
  }

  /** Canonical elements that stand for the same residue are equal. */
  lemma CanonicalEq(x: RF, y: RF)
    requires IsCanonical(x) && IsCanonical(y) && Value(x) == Value(y)
    ensures x == y
  {
  }

  function Reduce(x: RF): (r: RF)
    ensures IsCanonical(r) && Value(r) == Value(x)
  {
    RF(x.val % P)
  }

  function Add(x: RF, y: RF): (r: RF)
    ensures IsCanonical(r) && Value(r) == (Value(x) + Value(y)) % P
  {
    NT.AddCong(x.val, Value(x), y.val, Value(y), P);
    NT.ModIdem(x.val, P);
    NT.ModIdem(y.val, P);
    RF((x.val + y.val) % P)
  }

  function Sub(x: RF, y: RF): (r: RF)
    ensures IsCanonical(r) && Value(r) == (Value(x) - Value(y)) % P
  {
    NT.SubCong(x.val, Value(x), y.val, Value(y), P);
    NT.ModIdem(x.val, P);
    NT.ModIdem(y.val, P);
    RF((x.val - y.val) % P)
  }

  function Neg(x: RF): (r: RF)
    ensures IsCanonical(r) && Value(r) == (-(Value(x) as int)) % P
    ensures (Value(x) + Value(r)) % P == 0
  {
    NT.NegCong(x.val, Value(x), P);
    NT.ModIdem(x.val, P);
    NT.AddCong(Value(x), Value(x), -(Value(x) as int), (-(Value(x) as int)) % P, P);
    NT.ModIdem(-(Value(x) as int), P);
    RF((-(x.val as int)) % P)
  }

  function Mul(x: RF, y: RF): (r: RF)
    ensures IsCanonical(r) && Value(r) == (Value(x) * Value(y)) % P
  {
    NT.MulCong(x.val, Value(x), y.val, Value(y), P);
    NT.ModIdem(x.val, P);
    NT.ModIdem(y.val, P);
    RF((x.val * y.val) % P)
  }

  /** Whether the element stands for zero, whatever its representation. */
  predicate IsZero(x: RF) {
    Value(x) == 0
  }

  /** Multiplication by 2^15 as a 31-bit rotation of the reduced value. */
  function MulBy2_15(x: RF): (r: RF)
    ensures r == Mul(x, New(0x8000))
  {
    var v := Value(x);
    var lo, hi := v % 0x1_0000, v / 0x1_0000;
    RotationIsShift(v, lo, hi, 0x8000, 0x1_0000);
    NT.MulCong(x.val, v, 0x8000, 0x8000, P);
    NT.ModIdem(x.val, P);
    RF(lo * 0x8000 + hi)
  }

  /** Multiplication by 2^16 as a 31-bit rotation of the reduced value. */
  function MulBy2_16(x: RF): (r: RF)
    ensures r == Mul(x, New(0x1_0000))
  {
    var v := Value(x);
    var lo, hi := v % 0x8000, v / 0x8000;
    RotationIsShift(v, lo, hi, 0x1_0000, 0x8000);
    NT.MulCong(x.val, v, 0x1_0000, 0x1_0000, P);
    NT.ModIdem(x.val, P);
    RF(lo * 0x1_0000 + hi)
  }

  /** Rotating the 31-bit value v left by k bits (2^k == s, 2^(31-k) == t)
      is multiplication by 2^k modulo 2^31 - 1. */
  lemma RotationIsShift(v: nat, lo: nat, hi: nat, s: nat, t: nat)
    requires (s == 0x8000 && t == 0x1_0000) || (s == 0x1_0000 && t == 0x8000)
    requires v < P && lo == v % t && hi == v / t
    ensures lo * s + hi < P
    ensures (v * s) % P == lo * s + hi
  {
    assert v == hi * t + lo;
    assert s * t == P + 1;
    assert v * s == hi * P + (lo * s + hi) by {
      calc {
        v * s;
        (hi * t + lo) * s;
        hi * (t * s) + lo * s;
        hi * (P + 1) + lo * s;
      }
    }
    NT.DivModUnique(v * s, P, hi, lo * s + hi);
  }

  /** The inverse as x^(P-2); absent exactly for elements that stand for zero. */
  function TryInverse(x: RF): (r: Option<RF>)
    ensures r.None? <==> IsZero(x)
    ensures r.Some? ==> IsCanonical(r.value)
  {
    if IsZero(x) then None else Some(RF(NT.Pow(Value(x), P - 2) % P))
  }

  /** A square root, x^((P+1)/4), returned only after checking that it squares to x. */
  function TrySqrt(x: RF): (r: Option<RF>)
    ensures r.Some? ==> IsCanonical(r.value) && Mul(r.value, r.value) == Reduce(x)
  {
    var c := NT.Pow(Value(x), (P + 1) / 4) % P;
    NT.ModIdem(c, P);
    if (c * c) % P == Value(x) then Some(RF(c)) else None
  }

  // ---------------------------------------------------------------------
  // Consequences of P being prime
  // ---------------------------------------------------------------------

  /** An inverse that is returned multiplies the element to one. */
  lemma InverseCorrect(x: RF)
    requires NT.IsPrime(P) && !IsZero(x)
    ensures TryInverse(x).Some? && Mul(x, TryInverse(x).value) == RF(1)
  {
    var v := Value(x);
    var w := NT.Pow(v, P - 2);
    NT.ModIdem(x.val, P);
    NT.FermatUnit(P, v);
    assert NT.Pow(v, P - 1) == v * w;
    NT.ModIdem(w, P);
    NT.MulCong(v, v, w % P, w, P);
  }

  /** A nonzero element has a nonzero square. */
  lemma SquareOfNonzero(x: RF)
    requires NT.IsPrime(P) && !IsZero(x)
    ensures !IsZero(Mul(x, x))
  {
    if Value(x) * Value(x) % P == 0 {
      NT.EuclidLemma(P, Value(x), Value(x));
      NT.ModIdem(x.val, P);
    }
  }

  /** Completeness: the square root is found for every square. */
  lemma SqrtComplete(x: RF, y: RF)
    requires NT.IsPrime(P) && Mul(y, y) == Reduce(x)
    ensures TrySqrt(x).Some?
  {
    var v, u := Value(x), Value(y);
    var e := (P + 1) / 4;
    var c := NT.Pow(v, e) % P;
    NT.ModIdem(x.val, P);
    NT.ModIdem(y.val, P);
    assert v == (u * u) % P;
    // c * c is congruent to v^(2e) = v^((P+1)/2), and v is congruent to u^2.
    NT.ModIdem(NT.Pow(v, e), P);
    NT.MulCong(c, NT.Pow(v, e), c, NT.Pow(v, e), P);
    NT.PowAdd(v, e, e);
    NT.ModIdem(u * u, P);
    NT.PowCong(v, u * u, e + e, P);
    assert NT.Pow(u, 2) == u * u by {
      assert NT.Pow(u, 1) == u;
    }
    NT.PowMul(u, 2, e + e);
    assert 2 * (e + e) == 2 + (P - 1);
    NT.PowAdd(u, 2, P - 1);
    // so c * c is congruent to u^2 * u^(P-1)
    if u == 0 {
      NT.PowOfZero(P - 1);
    } else {
      NT.FermatUnit(P, u);
      NT.MulCong(u * u, u * u, NT.Pow(u, P - 1), 1, P);
    }
    assert (c * c) % P == v;
  }
}
