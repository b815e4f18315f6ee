/**
  The complex extension CM31 = GF(P)[i] / (i^2 + 1) of the Mersenne-31 field.

  An element `CF(a, b)` stands for a + b*i. Its two components are base-field
  elements in their raw representation, so two elements that stand for the
  same field value may differ as data (the source's constant for -i stores
  its real part as P). Arithmetic returns canonical components, and equality
  (`Equals`) compares representations, as the source does.
*/
module CM31 {
  import opened Wrappers
  import NT = NumberTheory
  import F = M31

  const P: nat := F.P

  datatype CF = CF(a: F.RF, b: F.RF)

  /** The real part as a residue. */
  function Re(x: CF): nat {
    F.Value(x.a)
  }

  /** The imaginary part as a residue. */
  function Im(x: CF): nat {
    F.Value(x.b)
  }

  predicate IsCanonical(x: CF) {
    F.IsCanonical(x.a) && F.IsCanonical(x.b)
  }

  /** The primitive 8th root of unity (2^15, 2^15). */
  const W8: CF := CF(F.RF(0x0000_8000), F.RF(0x0000_8000))
  /** Its negation. */
  const W8Neg: CF := CF(F.RF(0x7fff_7fff), F.RF(0x7fff_7fff))
  /** The imaginary unit i = (0, 1), a primitive 4th root of unity. */
  const W4: CF := CF(F.RF(0x0000_0000), F.RF(0x0000_0001))
  /** The source's constant for -i, with its real part stored unreduced as P. */
  const W4Neg: CF := CF(F.RF(0x7fff_ffff), F.RF(0x7fff_fffe))

  /** Two canonical elements with the same residues are the same data. */
  lemma CanonicalEq(x: CF, y: CF)
    requires IsCanonical(x) && IsCanonical(y)
    requires Re(x) == Re(y) && Im(x) == Im(y)
    ensures x == y
  {
  }

  // ---------------------------------------------------------------------
  // Construction and conversion
  // ---------------------------------------------------------------------

  function New(re: F.U32, im: F.U32): (r: CF)
    ensures Re(r) == re % P && Im(r) == im % P
  {
    CF(F.New(re), F.New(im))
  }

  function Zero(): (r: CF)
    ensures IsCanonical(r) && Re(r) == 0 && Im(r) == 0
  {
    New(0, 0)
  }

  function One(): (r: CF)
    ensures IsCanonical(r) && Re(r) == 1 && Im(r) == 0
  {
    New(1, 0)
  }

  /** Whether the element stands for zero, whatever its representation. */
  predicate IsZero(x: CF): (r: bool)
    ensures r <==> Reduce(x) == Zero()
  {
    F.IsZero(x.a) && F.IsZero(x.b)
  }

  /** The element with the given canonical components and the same value. */
  function Reduce(x: CF): (r: CF)
    ensures IsCanonical(r) && Re(r) == Re(x) && Im(r) == Im(x)
    ensures IsCanonical(x) ==> r == x
  {
    CF(F.Reduce(x.a), F.Reduce(x.b))
  }

  /** A native integer as a purely real element. */
  function FromU32(v: F.U32): (r: CF)
    ensures Re(r) == v % P && Im(r) == 0
    ensures v < P ==> ToPair(r) == (v, 0)
  {
    New(v, 0)
  }

  /** A pair of native integers as (real, imaginary), kept unreduced. */
  function FromPair(p: (F.U32, F.U32)): (r: CF)
    ensures Re(r) == p.0 % P && Im(r) == p.1 % P
  {
    CF(F.New(p.0), F.New(p.1))
  }

  /** The canonical components as a pair of native integers. */
  function ToPair(x: CF): (r: (F.U32, F.U32))
    ensures r.0 == Re(x) && r.1 == Im(x)
  {
    (F.Reduce(x.a).val, F.Reduce(x.b).val)
  }

  /** Converting to a pair and back reduces; converting a pair in and out
      reduces its components. */
  lemma PairRoundTrip(x: CF, p: (F.U32, F.U32))
    ensures FromPair(ToPair(x)) == Reduce(x)
    ensures ToPair(FromPair(p)) == (p.0 % P, p.1 % P)
    ensures p.0 < P && p.1 < P ==> ToPair(FromPair(p)) == p
  {
  }

  // ---------------------------------------------------------------------
  // Ring operations
  // ---------------------------------------------------------------------

  function Add(x: CF, y: CF): (r: CF)
    ensures IsCanonical(r)
    ensures Re(r) == (Re(x) + Re(y)) % P && Im(r) == (Im(x) + Im(y)) % P
  {
    CF(F.Add(x.a, y.a), F.Add(x.b, y.b))
  }

  function Sub(x: CF, y: CF): (r: CF)
    ensures IsCanonical(r)
    ensures Re(r) == (Re(x) - Re(y)) % P && Im(r) == (Im(x) - Im(y)) % P
  {
    CF(F.Sub(x.a, y.a), F.Sub(x.b, y.b))
  }

  function Neg(x: CF): (r: CF)
    ensures IsCanonical(r) && Add(x, r) == Zero()
  {
    CanonicalEq(Add(x, CF(F.Neg(x.a), F.Neg(x.b))), Zero());
    CF(F.Neg(x.a), F.Neg(x.b))
  }

  /** Subtracting what was added gives the element back, reduced. */
  lemma AddThenSub(x: CF, y: CF)
    ensures Sub(Add(x, y), y) == Reduce(x)
  {
    var s := Add(x, y);
    AddSubArith(Re(x), Re(y), Re(s));
    AddSubArith(Im(x), Im(y), Im(s));
    CanonicalEq(Sub(s, y), Reduce(x));
  }

  /** Adding what was subtracted gives the element back, reduced. */
  lemma SubThenAdd(x: CF, y: CF)
    ensures Add(Sub(x, y), y) == Reduce(x)
  {
    var d := Sub(x, y);
    SubAddArith(Re(x), Re(y), Re(d));
    SubAddArith(Im(x), Im(y), Im(d));
    CanonicalEq(Add(d, y), Reduce(x));
  }

  lemma AddSubArith(a: int, c: int, s: int)
    requires 0 <= a < P && s == (a + c) % P
    ensures (s - c) % P == a
  {
    NT.ModOfDifference(s - c, a, -((a + c) / P), P);
  }

  lemma SubAddArith(a: int, c: int, d: int)
    requires 0 <= a < P && d == (a - c) % P
    ensures (d + c) % P == a
  {
    NT.ModOfDifference(d + c, a, (a - c) / P * -1, P);
  }

  /** Addition commutes. */
  lemma AddComm(x: CF, y: CF)
    ensures Add(x, y) == Add(y, x)
  {
    CanonicalEq(Add(x, y), Add(y, x));
  }

  /** Zero is the additive identity, up to reduction. */
  lemma AddZero(x: CF)
    ensures Add(x, Zero()) == Reduce(x)
    ensures Add(Zero(), x) == Reduce(x)
  {
    CanonicalEq(Add(x, Zero()), Reduce(x));
    CanonicalEq(Add(Zero(), x), Reduce(x));
  }

  /** Addition is associative. */
  lemma AddAssoc(x: CF, y: CF, z: CF)
    ensures Add(Add(x, y), z) == Add(x, Add(y, z))
  {
    var l, r := Add(Add(x, y), z), Add(x, Add(y, z));
    AddAssocParts(Re(x), Re(y), Re(z), Re(Add(x, y)), Re(Add(y, z)), Re(l), Re(r));
    AddAssocParts(Im(x), Im(y), Im(z), Im(Add(x, y)), Im(Add(y, z)), Im(l), Im(r));
    CanonicalEq(l, r);
  }

  lemma AddAssocParts(a: int, c: int, e: int, ac: int, ce: int, u: int, v: int)
    requires ac == (a + c) % P && ce == (c + e) % P
    requires u == (ac + e) % P && v == (a + ce) % P
    ensures u == v
  {
    NT.AddAssocMod(a, c, e, P);
  }

  /** The negation is the difference from zero. */
  lemma NegIsSubFromZero(x: CF)
    ensures Sub(Zero(), x) == Neg(x)
  {
    NegResidues(x);
    CanonicalEq(Sub(Zero(), x), Neg(x));
  }

  /** The residues of a negation. */
  lemma NegResidues(x: CF)
    ensures Re(Neg(x)) == (-(Re(x) as int)) % P
    ensures Im(Neg(x)) == (-(Im(x) as int)) % P
  {
  }

  /** The real part of (a + b*i)(c + d*i), reduced. */
  function ProdRe(a: int, b: int, c: int, d: int): int {
    (a * c - b * d) % P
  }

  /** The imaginary part of (a + b*i)(c + d*i), reduced. */
  function ProdIm(a: int, b: int, c: int, d: int): int {
    (a * d + b * c) % P
  }

  /** Karatsuba's three products give the schoolbook product modulo P:
      with ac = a*c, bd = b*d and m = (a + b)(c + d) reduced, ac - bd is
      the real part and m - ac - bd the imaginary part. */
  lemma KaratsubaCorrect(a: int, b: int, c: int, d: int, ac: int, bd: int, m: int, t: int)
    requires ac == (a * c) % P && bd == (b * d) % P
    requires m == (((a + b) % P) * ((c + d) % P)) % P && t == (m - ac) % P
    ensures (ac - bd) % P == ProdRe(a, b, c, d)
    ensures (t - bd) % P == ProdIm(a, b, c, d)
  {
    NT.SubMod(a * c, b * d, P);
    KaratsubaIm(a, b, c, d, ac, bd, m, t);
  }

  lemma KaratsubaIm(a: int, b: int, c: int, d: int, ac: int, bd: int, m: int, t: int)
    requires ac == (a * c) % P && bd == (b * d) % P
    requires m == (((a + b) % P) * ((c + d) % P)) % P && t == (m - ac) % P
    ensures (t - bd) % P == ProdIm(a, b, c, d)
  {
    var s := KaratsubaIdentity(a, b, c, d);
    NT.MulMod(a + b, c + d, P);
    assert m == s % P;
    NT.SubMod(s, a * c, P);
    assert t == (s - a * c) % P;
    NT.SubMod(s - a * c, b * d, P);
  }

  lemma KaratsubaIdentity(a: int, b: int, c: int, d: int) returns (s: int)
    ensures s == (a + b) * (c + d) && s - a * c - b * d == a * d + b * c
  {
    s := (a + b) * (c + d);
  }

  /** The product by Karatsuba's method: three base-field products instead of four. */
  function Mul(x: CF, y: CF): (r: CF)
    ensures IsCanonical(r)
  {
    var ac := F.Mul(x.a, y.a);
    var bd := F.Mul(x.b, y.b);
    CF(F.Sub(ac, bd), F.Sub(F.Sub(F.Mul(F.Add(x.a, x.b), F.Add(y.a, y.b)), ac), bd))
  }

  /** Karatsuba's product is the schoolbook product (a + b*i)(c + d*i). */
  lemma MulParts(x: CF, y: CF)
    ensures Re(Mul(x, y)) == ProdRe(Re(x), Im(x), Re(y), Im(y))
    ensures Im(Mul(x, y)) == ProdIm(Re(x), Im(x), Re(y), Im(y))
  {
    var a, b, c, d := Re(x), Im(x), Re(y), Im(y);
    var ac, bd := F.Mul(x.a, y.a), F.Mul(x.b, y.b);
    var m := F.Mul(F.Add(x.a, x.b), F.Add(y.a, y.b));
    var t := F.Sub(m, ac);
    assert F.Value(ac) == (a * c) % P && F.Value(bd) == (b * d) % P;
    assert F.Value(m) == (((a + b) % P) * ((c + d) % P)) % P;
    assert F.Value(t) == (F.Value(m) - F.Value(ac)) % P;
    assert Mul(x, y) == CF(F.Sub(ac, bd), F.Sub(t, bd));
    assert F.Value(F.Sub(ac, bd)) == (F.Value(ac) - F.Value(bd)) % P;
    assert F.Value(F.Sub(t, bd)) == (F.Value(t) - F.Value(bd)) % P;
    KaratsubaCorrect(a, b, c, d, F.Value(ac), F.Value(bd), F.Value(m), F.Value(t));
  }

  /** Multiplication by a base-field scalar. */
  function MulByF(x: CF, f: F.RF): (r: CF)
    ensures r == Mul(x, CF(f, F.RF(0)))
  {
    var r := CF(F.Mul(f, x.a), F.Mul(f, x.b));
    var g := CF(f, F.RF(0));
    assert Im(g) == 0;
    ScalarArith(Re(x), Im(x), F.Value(f));
    MulParts(x, g);
    CanonicalEq(r, Mul(x, g));
    r
  }

  lemma ScalarArith(u: int, v: int, w: int)
    ensures ProdRe(u, v, w, 0) == (w * u) % P
    ensures ProdIm(u, v, w, 0) == (w * v) % P
  {
  }

  /** Multiplication by W8 = (2^15, 2^15) with the products done as rotations. */
  function MulByW8(x: CF): (r: CF)
    ensures r == Mul(x, W8)
  {
    var ac := F.MulBy2_15(x.a);
    var bd := F.MulBy2_15(x.b);
    CF(F.Sub(ac, bd), F.Sub(F.Sub(F.MulBy2_16(F.Add(x.a, x.b)), ac), bd))
  }

  /** Multiplication by -1 as a componentwise negation. */
  function MulNeg1(x: CF): (r: CF)
    ensures r == Mul(x, RootOfUnity2())
    ensures r == Neg(x)
  {
    var r := CF(F.Neg(x.a), F.Neg(x.b));
    NegArith(Re(x), Im(x));
    MulParts(x, RootOfUnity2());
    CanonicalEq(r, Mul(x, RootOfUnity2()));
    r
  }

  lemma NegArith(u: int, v: int)
    ensures ProdRe(u, v, P - 1, 0) == (-u) % P
    ensures ProdIm(u, v, P - 1, 0) == (-v) % P
  {
    NT.ModOfDifference(u * (P - 1), -u, u, P);
    NT.ModOfDifference(v * (P - 1), -v, v, P);
  }

  /** Multiplication by i as the swap (a, b) -> (-b, a); the real part of
      the input is carried over without being reduced. */
  function MulJ(x: CF): (r: CF)
    ensures Reduce(r) == Mul(x, W4)
    ensures F.IsCanonical(x.a) ==> r == Mul(x, W4)
  {
    var r := CF(F.Neg(x.b), x.a);
    assert Re(W4) == 0 && Im(W4) == 1;
    SwapArith(Re(x), Im(x));
    MulParts(x, W4);
    CanonicalEq(Reduce(r), Mul(x, W4));
    r
  }

  lemma SwapArith(u: int, v: int)
    requires 0 <= u < P
    ensures ProdRe(u, v, 0, 1) == (-v) % P
    ensures ProdIm(u, v, 0, 1) == u
  {
  }

  /** Equality of representations, as the source compares elements. */
  predicate Equals(x: CF, y: CF): (r: bool)
    ensures r <==> x == y
    ensures r ==> Reduce(x) == Reduce(y)
    ensures IsCanonical(x) && IsCanonical(y) ==> (r <==> Re(x) == Re(y) && Im(x) == Im(y))
  {
    x.a.val == y.a.val && x.b.val == y.b.val
  }

  /** The constants are what their names say; the one for -i stands for -i
      but is not equal to it as data. */
  lemma Constants()
    ensures Mul(W8, W8) == W4
    ensures W8Neg == Neg(W8)
    ensures Reduce(W4Neg) == Neg(W4) && !Equals(W4Neg, Neg(W4))
  {
    W8Square();
    var n8, n4 := Neg(W8), Neg(W4);
    assert Re(W8) == 0x8000 && Im(W8) == 0x8000;
    assert Re(n8) == (-0x8000) % P && Im(n8) == (-0x8000) % P;
    CanonicalEq(W8Neg, n8);
    assert Re(W4) == 0 && Im(W4) == 1;
    assert Re(n4) == 0 && Im(n4) == (-1) % P;
    CanonicalEq(Reduce(W4Neg), n4);
  }

  lemma W8Square()
    ensures Mul(W8, W8) == W4
  {
    assert Re(W8) == 0x8000 && Im(W8) == 0x8000;
    MulParts(W8, W8);
    W8Arith();
    CanonicalEq(Mul(W8, W8), W4);
  }

  lemma W8Arith()
    ensures ProdRe(0x8000, 0x8000, 0x8000, 0x8000) == 0
    ensures ProdIm(0x8000, 0x8000, 0x8000, 0x8000) == 1
  {
  }

  // ---------------------------------------------------------------------
  // Ring laws
  // ---------------------------------------------------------------------

  lemma MulComm(x: CF, y: CF)
    ensures Mul(x, y) == Mul(y, x)
  {
    CommArith(Re(x), Im(x), Re(y), Im(y));
    CanonicalEq(Mul(x, y), Mul(y, x));
  }

  lemma CommArith(a: int, b: int, c: int, d: int)
    ensures ProdRe(a, b, c, d) == ProdRe(c, d, a, b)
    ensures ProdIm(a, b, c, d) == ProdIm(c, d, a, b)
  {
  }

  /** The product depends only on the values of its operands. */
  lemma MulReduce(x: CF, y: CF)
    ensures Mul(Reduce(x), y) == Mul(x, y)
    ensures Mul(x, Reduce(y)) == Mul(x, y)
  {
    MulParts(x, y);
    MulParts(Reduce(x), y);
    MulParts(x, Reduce(y));
    CanonicalEq(Mul(Reduce(x), y), Mul(x, y));
    CanonicalEq(Mul(x, Reduce(y)), Mul(x, y));
  }

  lemma MulOne(x: CF)
    ensures Mul(One(), x) == Reduce(x)
    ensures Mul(x, One()) == Reduce(x)
  {
    OneArith(Re(x), Im(x));
    MulParts(One(), x);
    MulParts(x, One());
    CanonicalEq(Mul(One(), x), Reduce(x));
    CanonicalEq(Mul(x, One()), Reduce(x));
  }

  lemma OneArith(u: int, v: int)
    requires 0 <= u < P && 0 <= v < P
    ensures ProdRe(1, 0, u, v) == u && ProdIm(1, 0, u, v) == v
    ensures ProdRe(u, v, 1, 0) == u && ProdIm(u, v, 1, 0) == v
  {
  }

  /** Replacing the factors of a bilinear combination by congruent ones. */
  lemma BilinearCong(u: int, v: int, e: int, f: int)
    ensures ((u % P) * e - (v % P) * f) % P == (u * e - v * f) % P
    ensures ((u % P) * f + (v % P) * e) % P == (u * f + v * e) % P
    ensures (e * (u % P) - f * (v % P)) % P == (e * u - f * v) % P
    ensures (e * (v % P) + f * (u % P)) % P == (e * v + f * u) % P
  {
    NT.ModIdem(u, P);
    NT.ModIdem(v, P);
    NT.MulCong(u % P, u, e, e, P);
    NT.MulCong(v % P, v, f, f, P);
    NT.SubCong((u % P) * e, u * e, (v % P) * f, v * f, P);
    NT.MulCong(u % P, u, f, f, P);
    NT.MulCong(v % P, v, e, e, P);
    NT.AddCong((u % P) * f, u * f, (v % P) * e, v * e, P);
    NT.SubCong(e * (u % P), e * u, f * (v % P), f * v, P);
    NT.AddCong(e * (v % P), e * v, f * (u % P), f * u, P);
  }

  /** Multiplication distributes over addition. */
  lemma MulDistributes(x: CF, y: CF, z: CF)
    ensures Mul(x, Add(y, z)) == Add(Mul(x, y), Mul(x, z))
  {
    DistribArith(Re(x), Im(x), Re(y), Im(y), Re(z), Im(z));
    MulParts(x, Add(y, z));
    MulParts(x, y);
    MulParts(x, z);
    CanonicalEq(Mul(x, Add(y, z)), Add(Mul(x, y), Mul(x, z)));
  }

  lemma DistribArith(a: int, b: int, c: int, d: int, e: int, f: int)
    ensures ProdRe(a, b, (c + e) % P, (d + f) % P) == (ProdRe(a, b, c, d) + ProdRe(a, b, e, f)) % P
    ensures ProdIm(a, b, (c + e) % P, (d + f) % P) == (ProdIm(a, b, c, d) + ProdIm(a, b, e, f)) % P
  {
    DistribMod(a, b, c, d, e, f, P);
  }

  lemma DistribMod(a: int, b: int, c: int, d: int, e: int, f: int, m: int)
    requires m > 0
    ensures (a * ((c + e) % m) - b * ((d + f) % m)) % m == ((a * c - b * d) % m + (a * e - b * f) % m) % m
    ensures (a * ((d + f) % m) + b * ((c + e) % m)) % m == ((a * d + b * c) % m + (a * f + b * e) % m) % m
  {
    LinearCong(a, b, c + e, d + f, m);
    NT.AddMod(a * c - b * d, a * e - b * f, m);
    NT.AddMod(a * d + b * c, a * f + b * e, m);
    DistribIdentity(a, b, c, d, e, f);
  }

  /** Reducing the factors u and v of a linear form does not change its residue. */
  lemma LinearCong(a: int, b: int, u: int, v: int, m: int)
    requires m > 0
    ensures (a * (u % m) - b * (v % m)) % m == (a * u - b * v) % m
    ensures (a * (v % m) + b * (u % m)) % m == (a * v + b * u) % m
  {
    NT.ModIdem(u, m);
    NT.ModIdem(v, m);
    NT.MulCong(a, a, u % m, u, m);
    NT.MulCong(b, b, v % m, v, m);
    NT.SubCong(a * (u % m), a * u, b * (v % m), b * v, m);
    NT.MulCong(a, a, v % m, v, m);
    NT.MulCong(b, b, u % m, u, m);
    NT.AddCong(a * (v % m), a * v, b * (u % m), b * u, m);
  }

  lemma DistribIdentity(a: int, b: int, c: int, d: int, e: int, f: int)
    ensures a * (c + e) - b * (d + f) == (a * c - b * d) + (a * e - b * f)
    ensures a * (d + f) + b * (c + e) == (a * d + b * c) + (a * f + b * e)
  {
  }

  lemma MulAssoc(x: CF, y: CF, z: CF)
    ensures Mul(Mul(x, y), z) == Mul(x, Mul(y, z))
  {
    AssocArith(Re(x), Im(x), Re(y), Im(y), Re(z), Im(z));
    MulParts(x, y);
    MulParts(Mul(x, y), z);
    MulParts(y, z);
    MulParts(x, Mul(y, z));
    CanonicalEq(Mul(Mul(x, y), z), Mul(x, Mul(y, z)));
  }

  lemma AssocArith(a: int, b: int, c: int, d: int, e: int, f: int)
    ensures ProdRe(ProdRe(a, b, c, d), ProdIm(a, b, c, d), e, f)
         == ProdRe(a, b, ProdRe(c, d, e, f), ProdIm(c, d, e, f))
    ensures ProdIm(ProdRe(a, b, c, d), ProdIm(a, b, c, d), e, f)
         == ProdIm(a, b, ProdRe(c, d, e, f), ProdIm(c, d, e, f))
  {
    BilinearCong(a * c - b * d, a * d + b * c, e, f);
    BilinearCong(c * e - d * f, c * f + d * e, a, b);
    AssocIdentity(a, b, c, d, e, f);
  }

  lemma AssocIdentity(a: int, b: int, c: int, d: int, e: int, f: int)
    ensures (a * c - b * d) * e - (a * d + b * c) * f == a * (c * e - d * f) - b * (c * f + d * e)
    ensures (a * c - b * d) * f + (a * d + b * c) * e == a * (c * f + d * e) + b * (c * e - d * f)
  {
  }

  // ---------------------------------------------------------------------
  // Inversion
  // ---------------------------------------------------------------------

  /** The norm a^2 + b^2 of a + b*i, a base-field element. */
  function Norm(x: CF): (r: F.RF)
    ensures F.IsCanonical(r) && F.Value(r) == (Re(x) * Re(x) + Im(x) * Im(x)) % P
  {
    NT.AddMod(Re(x) * Re(x), Im(x) * Im(x), P);
    F.Reduce(F.Add(F.Mul(x.a, x.a), F.Mul(x.b, x.b)))
  }

  /** The norm is multiplicative: N(xy) = N(x) N(y). */
  lemma NormOfProduct(x: CF, y: CF)
    ensures F.Value(Norm(Mul(x, y))) == (F.Value(Norm(x)) * F.Value(Norm(y))) % P
  {
    NormProductArith(Re(x), Im(x), Re(y), Im(y));
    MulParts(x, y);
  }

  lemma NormProductArith(a: int, b: int, c: int, d: int)
    ensures (ProdRe(a, b, c, d) * ProdRe(a, b, c, d) + ProdIm(a, b, c, d) * ProdIm(a, b, c, d)) % P
         == (((a * a + b * b) % P) * ((c * c + d * d) % P)) % P
  {
    var u, w := a * c - b * d, a * d + b * c;
    SumOfSquaresMod(u, w);
    TwoSquareIdentity(a, b, c, d);
    NT.MulMod(a * a + b * b, c * c + d * d, P);
  }

  /** Reducing before squaring does not change a sum of two squares modulo P. */
  lemma SumOfSquaresMod(u: int, w: int)
    ensures ((u % P) * (u % P) + (w % P) * (w % P)) % P == (u * u + w * w) % P
  {
    NT.MulMod(u, u, P);
    NT.MulMod(w, w, P);
    NT.AddMod((u % P) * (u % P), (w % P) * (w % P), P);
    NT.AddMod(u * u, w * w, P);
  }

  /** Brahmagupta-Fibonacci: a product of sums of two squares is one. */
  lemma TwoSquareIdentity(a: int, b: int, c: int, d: int)
    ensures (a * c - b * d) * (a * c - b * d) + (a * d + b * c) * (a * d + b * c)
         == (a * a + b * b) * (c * c + d * d)
  {
  }

  /** The inverse (a - b*i) / (a^2 + b^2). An element whose representation is
      all zero, or whose norm is zero, has none. */
  function TryInverse(x: CF): (r: Option<CF>)
    ensures IsZero(x) ==> r.None?
    ensures r.Some? ==> IsCanonical(r.value)
  {
    if x.a.val == 0 && x.b.val == 0 then None
    else
      var norm := Norm(x);
      if F.IsZero(norm) then None
      else
        var normInv := F.Reduce(F.TryInverse(norm).value);
        Some(MulByF(CF(x.a, F.Neg(x.b)), normInv))
  }

  /** Over GF(P), P prime and 3 mod 4, a^2 + b^2 vanishes only when both do. */
  lemma SumOfSquaresNonzero(a: int, b: int)
    requires NT.IsPrime(P) && (a % P != 0 || b % P != 0)
    ensures (a * a + b * b) % P != 0
  {
    if (a * a + b * b) % P == 0 {
      if b % P == 0 {
        NT.MulCong(b, 0, b, 0, P);
        NT.AddCong(a * a, a * a, b * b, 0, P);
        NT.EuclidLemma(P, a, a);
        assert false;
      } else {
        var bi := NT.Pow(b, P - 2);
        NT.FermatUnit(P, b);
        assert NT.Pow(b, P - 1) == b * bi;
        var t := a * bi;
        NT.MulCong(b * bi, 1, b * bi, 1, P);
        NT.AddCong(t * t, t * t, (b * bi) * (b * bi), 1, P);
        assert t * t + (b * bi) * (b * bi) == (bi * bi) * (a * a + b * b);
        NT.MulCong(bi * bi, bi * bi, a * a + b * b, 0, P);
        NT.MinusOneIsNotSquare(P, t);
        assert false;
      }
    }
  }

  /** The norm of a nonzero element is nonzero, so the inverse's second
      check for a zero norm never fires for an element that stands for a
      nonzero value. */
  lemma NormOfNonzero(x: CF)
    requires NT.IsPrime(P) && !IsZero(x)
    ensures !F.IsZero(Norm(x))
  {
    if Re(x) == 0 && Im(x) == 0 {
      CanonicalEq(Reduce(x), Zero());
    }
    SumOfSquaresNonzero(Re(x), Im(x));
  }

  /** The arithmetic of the inverse: with N*I == 1 and N == a^2 + b^2,
      (a, b) * (I*a, -I*b) == (1, 0). */
  lemma InverseArith(a: int, b: int, n: int, i: int, r1: int, r2: int)
    requires n % P == (a * a + b * b) % P && (n * i) % P == 1
    requires r1 == (i * a) % P && r2 == (i * ((-b) % P)) % P
    ensures ProdRe(a, b, r1, r2) == 1
    ensures ProdIm(a, b, r1, r2) == 0
  {
    NT.ModIdem(-b, P);
    NT.MulCong(i, i, (-b) % P, -b, P);
    NT.ModIdem(i * ((-b) % P), P);
    NT.ModIdem(i * a, P);
    InverseArithRe(a, b, n, i, r1, r2);
    InverseArithIm(a, b, i, r1, r2);
  }

  lemma InverseArithRe(a: int, b: int, n: int, i: int, r1: int, r2: int)
    requires n % P == (a * a + b * b) % P && (n * i) % P == 1
    requires r1 % P == (i * a) % P && r2 % P == (i * (-b)) % P
    ensures (a * r1 - b * r2) % P == 1
  {
    NT.MulCong(a, a, r1, i * a, P);
    NT.MulCong(b, b, r2, i * (-b), P);
    NT.SubCong(a * r1, a * (i * a), b * r2, b * (i * (-b)), P);
    var s := ScaledNormIdentity(a, b, i, n);
    NT.MulCong(i, i, s, n, P);
  }

  lemma ScaledNormIdentity(a: int, b: int, i: int, n: int) returns (s: int)
    ensures s == a * a + b * b && a * (i * a) - b * (i * (-b)) == i * s && i * n == n * i
  {
    s := a * a + b * b;
  }

  lemma InverseArithIm(a: int, b: int, i: int, r1: int, r2: int)
    requires r1 % P == (i * a) % P && r2 % P == (i * (-b)) % P
    ensures (a * r2 + b * r1) % P == 0
  {
    NT.MulCong(a, a, r2, i * (-b), P);
    NT.MulCong(b, b, r1, i * a, P);
    NT.AddCong(a * r2, a * (i * (-b)), b * r1, b * (i * a), P);
    assert a * (i * (-b)) + b * (i * a) == 0;
  }

  /** With P prime, exactly the nonzero elements have an inverse, and it is one. */
  lemma InverseRoundTrip(x: CF)
    requires NT.IsPrime(P)
    ensures TryInverse(x).Some? <==> !IsZero(x)
    ensures TryInverse(x).Some? ==> Mul(x, TryInverse(x).value) == One()
  {
    if !IsZero(x) {
      var a, b := Re(x), Im(x);
      SumOfSquaresNonzero(a, b);
      var norm := Norm(x);
      F.InverseCorrect(norm);
      var inv := F.TryInverse(norm).value;
      var normInv := F.Reduce(inv);
      assert (F.Value(norm) * F.Value(normInv)) % P == 1;
      var r := MulByF(CF(x.a, F.Neg(x.b)), normInv);
      assert TryInverse(x) == Some(r);
      InverseArith(a, b, F.Value(norm), F.Value(normInv), Re(r), Im(r));
      MulParts(x, r);
      CanonicalEq(Mul(x, r), One());
    }
  }

  // ---------------------------------------------------------------------
  // Roots of unity
  // ---------------------------------------------------------------------

  /** -1, the square root of unity other than one. */
  function RootOfUnity2(): (r: CF)
    ensures r == Neg(One()) && Mul(r, r) == One()
  {
    New(0x7fff_fffe, 0)
  }

  /** The two primitive 4th roots of unity, i and -i. */
  function RootOfUnity4(i: F.U32): (r: CF)
    requires i < 2
    ensures Mul(r, r) == RootOfUnity2()
  {
    if i == 0 then New(0, 1) else New(0, P - 1)
  }

  /** The four primitive 8th roots of unity (+-2^15, +-2^15). */
  function RootOfUnity8(i: F.U32): (r: CF)
    requires i < 4
    ensures Mul(r, r) == RootOfUnity4(if i == 0 || i == 3 then 0 else 1)
  {
    var v := 0x8000;
    var negV := P - v;
    match i
    case 0 => RootOfUnity8Square(v, v, 0); New(v, v)
    case 1 => RootOfUnity8Square(v, negV, 1); New(v, negV)
    case 2 => RootOfUnity8Square(negV, v, 1); New(negV, v)
    case 3 => RootOfUnity8Square(negV, negV, 0); New(negV, negV)
  }

  /** (+-2^15, +-2^15) squares to i when the signs agree and to -i otherwise. */
  lemma RootOfUnity8Square(u: F.U32, w: F.U32, j: F.U32)
    requires u == 0x8000 || u == P - 0x8000
    requires w == 0x8000 || w == P - 0x8000
    requires j == (if u == w then 0 else 1)
    ensures Mul(New(u, w), New(u, w)) == RootOfUnity4(j)
  {
    var s := Mul(New(u, w), New(u, w));
    SquareArith(u, w);
    MulParts(New(u, w), New(u, w));
    CanonicalEq(s, RootOfUnity4(j));
  }

  lemma SquareArith(u: int, w: int)
    requires u == 0x8000 || u == P - 0x8000
    requires w == 0x8000 || w == P - 0x8000
    ensures ProdRe(u % P, w % P, u % P, w % P) == 0
    ensures ProdIm(u % P, w % P, u % P, w % P) == if u == w then 1 else P - 1
  {
  }

  /** The worked products from the source's unit tests. */
  lemma ArithmeticExamples()
    ensures Add(New(P - 1, P - 1), New(1, 2)) == New(0, 1)
    ensures Neg(New(1, 2)) == New(P - 1, P - 2)
    ensures Mul(New(2, 2), New(4, 5)) == New(P - 2, 18)
  {
    CanonicalEq(Add(New(P - 1, P - 1), New(1, 2)), New(0, 1));
    CanonicalEq(Neg(New(1, 2)), New(P - 1, P - 2));
    MulExample(New(2, 2), New(4, 5));
  }

  lemma MulExample(x: CF, y: CF)
    requires Re(x) == 2 && Im(x) == 2 && Re(y) == 4 && Im(y) == 5
    ensures Mul(x, y) == New(P - 2, 18)
  {
    MulParts(x, y);
    ExampleArith();
    NewCanonical(P - 2, 18);
    CanonicalEq(Mul(x, y), New(P - 2, 18));
  }

  lemma NewCanonical(re: F.U32, im: F.U32)
    requires re < P && im < P
    ensures IsCanonical(New(re, im)) && Re(New(re, im)) == re && Im(New(re, im)) == im
  {
  }

  lemma ExampleArith()
    ensures ProdRe(2, 2, 4, 5) == P - 2 && ProdIm(2, 2, 4, 5) == 18
  {
  }
}
