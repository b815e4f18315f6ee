/**
  Square roots in CM31.

  To find s = x + y*i with s^2 = a + b*i, the method first takes a
  base-field square root r of the norm a^2 + b^2. When r = x^2 + y^2, the
  halves (a + r)/2 and (r - a)/2 are x^2 and y^2: one of x, y is the base-
  field root of its half, and the other is b divided by twice it. Each
  candidate is accepted only after squaring it back.

  The base-field root of the norm is fixed only up to sign, and the source
  tries only the sign the base field returns. `TrySqrtAsWritten` models
  that and is shown to miss roots; `TrySqrt` also tries -r and compares
  against the reduced input, and is shown to find a root of every square.
*/
module CM31Sqrt {
  import opened Wrappers
  import NT = NumberTheory
  import F = M31
  import opened CM31

  /** One half in the base field, as the source obtains it: the inverse of 2. */
  function TwoInv(): (r: F.RF)
    ensures F.IsCanonical(r)
  {
    F.TryInverse(F.New(2)).value
  }

  /** With P prime, the inverse of 2 is (P + 1) / 2 = 2^30. */
  lemma TwoInvValue()
    requires NT.IsPrime(P)
    ensures TwoInv().val == 0x4000_0000
  {
    F.InverseCorrect(F.New(2));
    var t := TwoInv().val;
    assert (2 * t) % P == 1;
    var k := NT.CongruentDiffers(2 * t, 1, P);
    assert 2 * t == P * k + 1;
  }

  /** From the half h, its root s (nonzero) and the partner component
      b / (2 s); absent when h has no root or the root is zero. */
  function HalfRoot(b: F.RF, h: F.RF): (r: Option<(F.RF, F.RF)>)
    ensures r.Some? ==> F.IsCanonical(r.value.0) && F.IsCanonical(r.value.1)
    ensures r.Some? ==> !F.IsZero(r.value.0) && F.Mul(r.value.0, r.value.0) == F.Reduce(h)
  {
    match F.TrySqrt(h)
    case None => None
    case Some(s) =>
      if F.IsZero(s) then None
      else Some((s, F.Reduce(F.Mul(F.Mul(b, TwoInv()), F.TryInverse(s).value))))
  }

  /** (a + r) / 2, the square of the real part when r = x^2 + y^2. */
  function HalfX(v: CF, r: F.RF): F.RF {
    F.Reduce(F.Mul(F.Add(v.a, r), TwoInv()))
  }

  /** (r - a) / 2, the square of the imaginary part when r = x^2 + y^2. */
  function HalfY(v: CF, r: F.RF): F.RF {
    F.Reduce(F.Mul(F.Sub(r, v.a), TwoInv()))
  }

  /** The first candidate: x = sqrt((a + r)/2), y = b / (2x). */
  function BranchX(v: CF, r: F.RF, target: CF): (c: Option<CF>)
    ensures c.Some? ==> IsCanonical(c.value) && Equals(Mul(c.value, c.value), target)
  {
    match HalfRoot(v.b, HalfX(v, r))
    case None => None
    case Some((x, y)) =>
      var c := Reduce(CF(x, y));
      if Equals(Mul(c, c), target) then Some(c) else None
  }

  /** The second candidate: y = sqrt((r - a)/2), x = b / (2y). */
  function BranchY(v: CF, r: F.RF, target: CF): (c: Option<CF>)
    ensures c.Some? ==> IsCanonical(c.value) && Equals(Mul(c.value, c.value), target)
  {
    match HalfRoot(v.b, HalfY(v, r))
    case None => None
    case Some((y, x)) =>
      var c := Reduce(CF(x, y));
      if Equals(Mul(c, c), target) then Some(c) else None
  }

  /** The two candidates for a given root r of the norm, in the source's order. */
  function FromNormRoot(v: CF, r: F.RF, target: CF): (c: Option<CF>)
    ensures c.Some? ==> IsCanonical(c.value) && Equals(Mul(c.value, c.value), target)
  {
    var c := BranchX(v, r, target);
    if c.Some? then c else BranchY(v, r, target)
  }

  /** The square root as the source computes it: only the base field's own
      root of the norm is tried, and a candidate must square to the input
      as stored, unreduced. */
  function TrySqrtAsWritten(v: CF): (r: Option<CF>)
    ensures IsZero(v) ==> r == Some(Zero())
    ensures r.Some? ==> Mul(r.value, r.value) == Reduce(v)
    ensures r.Some? && !IsZero(v) ==> IsCanonical(v)
    ensures !IsZero(v) && F.TrySqrt(Norm(v)).None? ==> r.None?
  {
    if IsZero(v) then Some(Zero())
    else match F.TrySqrt(Norm(v))
      case None => None
      case Some(r) => FromNormRoot(v, r, v)
  }

  /** The square root with both signs of the norm's root tried and the
      candidate compared with the reduced input. */
  function TrySqrt(v: CF): (r: Option<CF>)
    ensures IsZero(v) ==> r == Some(Zero())
    ensures r.Some? ==> IsCanonical(r.value) && Mul(r.value, r.value) == Reduce(v)
    ensures !IsZero(v) && F.TrySqrt(Norm(v)).None? ==> r.None?
  {
    if IsZero(v) then Some(Zero())
    else match F.TrySqrt(Norm(v))
      case None => None
      case Some(r) =>
        var c := FromNormRoot(v, r, Reduce(v));
        if c.Some? then c else FromNormRoot(v, F.Neg(r), Reduce(v))
  }

  /** Wherever the source's square root succeeds, the corrected one returns
      the same root. */
  lemma CorrectedAgrees(v: CF)
    ensures TrySqrtAsWritten(v).Some? ==> TrySqrt(v) == TrySqrtAsWritten(v)
  {
    if TrySqrtAsWritten(v).Some? && !IsZero(v) {
      assert IsCanonical(v);
      assert Reduce(v) == v;
    }
  }

  // ---------------------------------------------------------------------
  // The algebra of one candidate
  // ---------------------------------------------------------------------

  /** (2t)^2 (s si)^2 is one when 2t and s si are. */
  lemma UnitSquares(t: int, s: int, si: int)
    requires (2 * t) % P == 1 && (s * si) % P == 1
    ensures ((2 * t) * (2 * t) * ((s * si) * (s * si))) % P == 1
  {
    NT.MulCong(2 * t, 1, 2 * t, 1, P);
    NT.MulCong(s * si, 1, s * si, 1, P);
    NT.MulCong((2 * t) * (2 * t), 1, (s * si) * (s * si), 1, P);
  }

  /** 4 s^2 y^2 is b^2 when y = b t / s. */
  lemma FourS2Y2(b: int, t: int, s: int, si: int, y: int)
    requires (2 * t) % P == 1 && (s * si) % P == 1
    requires y % P == (b * t * si) % P
    ensures (4 * (s * s) * (y * y)) % P == (b * b) % P
  {
    var u := b * t * si;
    NT.MulCong(y, u, y, u, P);
    NT.MulCong(4 * (s * s), 4 * (s * s), y * y, u * u, P);
    var x := (2 * t) * (2 * t) * ((s * si) * (s * si));
    assert 4 * (s * s) * (u * u) == (b * b) * x;
    UnitSquares(t, s, si);
    NT.MulCong(b * b, b * b, x, 1, P);
  }

  /** 4 s^4 is (a + rho)^2 when s^2 = (a + rho) t. */
  lemma FourS4(a: int, rho: int, t: int, s: int)
    requires (2 * t) % P == 1
    requires (s * s) % P == ((a + rho) * t) % P
    ensures (4 * (s * s) * (s * s)) % P == ((a + rho) * (a + rho)) % P
  {
    var w := (a + rho) * t;
    NT.MulCong(s * s, w, s * s, w, P);
    NT.MulCong(4, 4, (s * s) * (s * s), w * w, P);
    assert 4 * (w * w) == ((a + rho) * (a + rho)) * ((2 * t) * (2 * t));
    NT.MulCong(2 * t, 1, 2 * t, 1, P);
    NT.MulCong((a + rho) * (a + rho), (a + rho) * (a + rho), (2 * t) * (2 * t), 1, P);
    assert 4 * (s * s) * (s * s) == 4 * ((s * s) * (s * s));
  }

  /** 4 a s^2 is 2 a (a + rho) when s^2 = (a + rho) t. */
  lemma FourAS2(a: int, rho: int, t: int, s: int)
    requires (2 * t) % P == 1
    requires (s * s) % P == ((a + rho) * t) % P
    ensures (4 * a * (s * s)) % P == (2 * a * (a + rho)) % P
  {
    NT.MulCong(4 * a, 4 * a, s * s, (a + rho) * t, P);
    assert 4 * a * ((a + rho) * t) == (2 * a * (a + rho)) * (2 * t);
    NT.MulCong(2 * a * (a + rho), 2 * a * (a + rho), 2 * t, 1, P);
  }

  /** 4 s^2 (s^2 - y^2 - a) vanishes: it is rho^2 - a^2 - b^2. */
  lemma ScaledRealPart(a: int, b: int, rho: int, t: int, s: int, si: int, y: int)
    requires (2 * t) % P == 1 && (s * si) % P == 1
    requires (rho * rho) % P == (a * a + b * b) % P
    requires (s * s) % P == ((a + rho) * t) % P
    requires y % P == (b * t * si) % P
    ensures (4 * (s * s) * (s * s - y * y - a)) % P == 0
  {
    FourS2Y2(b, t, s, si, y);
    FourS4(a, rho, t, s);
    FourAS2(a, rho, t, s);
    var p4, p2, pa := 4 * (s * s) * (s * s), 4 * (s * s) * (y * y), 4 * a * (s * s);
    var q4, q2, qa := (a + rho) * (a + rho), b * b, 2 * a * (a + rho);
    NT.SubCong(p4, q4, p2, q2, P);
    NT.SubCong(p4 - p2, q4 - q2, pa, qa, P);
    var n := a * a + b * b;
    RealPartIdentity(a, b, rho);
    NT.SubCong(rho * rho, n, n, n, P);
    ScaledExpansion(s, y, a);
  }

  lemma RealPartIdentity(a: int, b: int, rho: int)
    ensures (a + rho) * (a + rho) - b * b - 2 * a * (a + rho) == rho * rho - (a * a + b * b)
  {
  }

  lemma ScaledExpansion(s: int, y: int, a: int)
    ensures 4 * (s * s) * (s * s - y * y - a)
         == 4 * (s * s) * (s * s) - 4 * (s * s) * (y * y) - 4 * a * (s * s)
  {
  }

  /** The candidate (s, b t / s) squares to (a, b) whenever s^2 = (a + rho)/2
      for a root rho of the norm a^2 + b^2. */
  lemma CandidateSquares(a: int, b: int, rho: int, t: int, s: int, si: int, y: int)
    requires (2 * t) % P == 1 && (s * si) % P == 1
    requires (rho * rho) % P == (a * a + b * b) % P
    requires (s * s) % P == ((a + rho) * t) % P
    requires y % P == (b * t * si) % P
    ensures (s * s - y * y) % P == a % P
    ensures (s * y + y * s) % P == b % P
  {
    var d := s * s - y * y - a;
    ScaledRealPart(a, b, rho, t, s, si, y);
    var x := (2 * t) * (2 * t) * ((s * si) * (s * si));
    UnitSquares(t, s, si);
    assert 1 % P == 1;
    NT.MulCong(d, d, x, 1, P);
    var e := UnitScaling(s, t, si, d);
    NT.MulCong(4 * (s * s) * d, 0, e, e, P);
    assert 0 % P == 0;
    var k := NT.CongruentDiffers(d, 0, P);
    NT.ModOfDifference(s * s - y * y, a, k, P);
    var u := b * t * si;
    NT.MulCong(2 * s, 2 * s, y, u, P);
    ImaginaryIdentity(b, t, s, si, y);
    NT.MulCong(2 * t, 1, s * si, 1, P);
    NT.MulCong(b, b, (2 * t) * (s * si), 1, P);
  }

  lemma UnitScaling(s: int, t: int, si: int, d: int) returns (e: int)
    ensures e == t * t * (si * si)
    ensures d * ((2 * t) * (2 * t) * ((s * si) * (s * si))) == (4 * (s * s) * d) * e
  {
    e := t * t * (si * si);
  }

  lemma ImaginaryIdentity(b: int, t: int, s: int, si: int, y: int)
    ensures 2 * s * (b * t * si) == b * ((2 * t) * (s * si))
    ensures s * y + y * s == 2 * s * y
  {
  }

  /** CandidateSquares with the reductions the base field makes. */
  lemma ReducedCandidateSquares(a: int, b: int, rho: int, t: int, s: int, si: int, y: int)
    requires (2 * t) % P == 1 && (s * si) % P == 1
    requires (rho * rho) % P == (a * a + b * b) % P
    requires (s * s) % P == (((a + rho) % P) * t) % P
    requires y % P == (((b * t) % P) * si) % P
    ensures (s * s - y * y) % P == a % P
    ensures (s * y + y * s) % P == b % P
  {
    NT.ModIdem(a + rho, P);
    NT.MulCong((a + rho) % P, a + rho, t, t, P);
    NT.ModIdem(b * t, P);
    NT.MulCong((b * t) % P, b * t, si, si, P);
    CandidateSquares(a, b, rho, t, s, si, y);
  }

  /** The candidate (b t / s, s) squares to (a, b) whenever s^2 = (rho - a)/2
      for a root rho of the norm, with the reductions the base field makes. */
  lemma SwappedCandidateSquares(a: int, b: int, rho: int, t: int, s: int, si: int, y: int)
    requires (2 * t) % P == 1 && (s * si) % P == 1
    requires (rho * rho) % P == (a * a + b * b) % P
    requires (s * s) % P == (((rho - a) % P) * t) % P
    requires y % P == (((b * t) % P) * si) % P
    ensures (y * y - s * s) % P == a % P
    ensures (y * s + s * y) % P == b % P
  {
    NT.ModIdem(rho - a, P);
    NT.MulCong((rho - a) % P, -a + rho, t, t, P);
    NT.ModIdem(b * t, P);
    NT.MulCong((b * t) % P, b * t, si, si, P);
    assert (-a) * (-a) == a * a;
    CandidateSquares(-a, b, rho, t, s, si, y);
    NT.NegCong(s * s - y * y, -a, P);
    assert y * s + s * y == s * y + y * s;
  }

  /** The halves are the squares of the components when r = x0^2 + y0^2. */
  lemma HalvesAreSquares(a: int, x0: int, y0: int, r: int, t: int)
    requires (2 * t) % P == 1
    requires a % P == (x0 * x0 - y0 * y0) % P
    requires r % P == (x0 * x0 + y0 * y0) % P
    ensures (((a + r) % P) * t) % P == (x0 * x0) % P
    ensures (((r - a) % P) * t) % P == (y0 * y0) % P
  {
    var p, q := x0 * x0, y0 * y0;
    NT.AddCong(a, p - q, r, p + q, P);
    NT.SubCong(r, p + q, a, p - q, P);
    NT.ModIdem(a + r, P);
    NT.ModIdem(r - a, P);
    NT.MulCong((a + r) % P, 2 * p, t, t, P);
    NT.MulCong((r - a) % P, 2 * q, t, t, P);
    assert 2 * p * t == p * (2 * t);
    assert 2 * q * t == q * (2 * t);
    NT.MulCong(p, p, 2 * t, 1, P);
    NT.MulCong(q, q, 2 * t, 1, P);
  }

  // ---------------------------------------------------------------------
  // Soundness of each branch and completeness
  // ---------------------------------------------------------------------

  /** The facts about one half's root that the candidate algebra needs. */
  lemma HalfRootFacts(b: F.RF, h: F.RF)
    requires NT.IsPrime(P) && HalfRoot(b, h).Some?
    ensures var s := HalfRoot(b, h).value.0;
            var si := F.TryInverse(s).value;
            (F.Value(s) * F.Value(si)) % P == 1 &&
            (F.Value(s) * F.Value(s)) % P == F.Value(h) &&
            F.Value(HalfRoot(b, h).value.1) % P ==
              (((F.Value(b) * F.Value(TwoInv())) % P) * F.Value(si)) % P
  {
    var s := HalfRoot(b, h).value.0;
    F.InverseCorrect(s);
    NT.ModIdem(F.Value(HalfRoot(b, h).value.1), P);
  }

  lemma TwoInvFacts()
    requires NT.IsPrime(P)
    ensures (2 * F.Value(TwoInv())) % P == 1
  {
    TwoInvValue();
  }

  lemma HalfValues(v: CF, rho: F.RF)
    ensures F.Value(HalfX(v, rho)) == (((Re(v) + F.Value(rho)) % P) * F.Value(TwoInv())) % P
    ensures F.Value(HalfY(v, rho)) == (((F.Value(rho) - Re(v)) % P) * F.Value(TwoInv())) % P
  {
  }

  lemma NormRootValue(v: CF, rho: F.RF)
    requires F.Mul(rho, rho) == Norm(v)
    ensures (F.Value(rho) * F.Value(rho)) % P == (Re(v) * Re(v) + Im(v) * Im(v)) % P
  {
  }

  /** A pair of components whose square has the right residues squares to v. */
  lemma PairSquares(x: F.RF, y: F.RF, v: CF)
    requires (F.Value(x) * F.Value(x) - F.Value(y) * F.Value(y)) % P == Re(v) % P
    requires (F.Value(x) * F.Value(y) + F.Value(y) * F.Value(x)) % P == Im(v) % P
    ensures Equals(Mul(Reduce(CF(x, y)), Reduce(CF(x, y))), Reduce(v))
  {
    var c := Reduce(CF(x, y));
    assert Re(c) == F.Value(x) && Im(c) == F.Value(y);
    MulParts(c, c);
    CanonicalEq(Mul(c, c), Reduce(v));
  }

  /** When (a + r)/2 has a nonzero root and r^2 is the norm, the first
      candidate squares to the input. */
  lemma BranchXSquares(v: CF, rho: F.RF)
    requires NT.IsPrime(P)
    requires F.Mul(rho, rho) == Norm(v)
    requires HalfRoot(v.b, HalfX(v, rho)).Some?
    ensures BranchX(v, rho, Reduce(v)).Some?
  {
    var (x, y) := HalfRoot(v.b, HalfX(v, rho)).value;
    HalfRootFacts(v.b, HalfX(v, rho));
    TwoInvFacts();
    HalfValues(v, rho);
    NormRootValue(v, rho);
    ReducedCandidateSquares(Re(v), Im(v), F.Value(rho), F.Value(TwoInv()), F.Value(x),
                            F.Value(F.TryInverse(x).value), F.Value(y));
    PairSquares(x, y, v);
  }

  /** When (r - a)/2 has a nonzero root and r^2 is the norm, the second
      candidate squares to the input. */
  lemma BranchYSquares(v: CF, rho: F.RF)
    requires NT.IsPrime(P)
    requires F.Mul(rho, rho) == Norm(v)
    requires HalfRoot(v.b, HalfY(v, rho)).Some?
    ensures BranchY(v, rho, Reduce(v)).Some?
  {
    var (y, x) := HalfRoot(v.b, HalfY(v, rho)).value;
    HalfRootFacts(v.b, HalfY(v, rho));
    TwoInvFacts();
    HalfValues(v, rho);
    NormRootValue(v, rho);
    SwappedCandidateSquares(Re(v), Im(v), F.Value(rho), F.Value(TwoInv()), F.Value(y),
                            F.Value(F.TryInverse(y).value), F.Value(x));
    PairSquares(x, y, v);
  }

  /** The norm of a root squares to the norm of the input. */
  lemma NormSquare(v: CF, s0: CF)
    requires Mul(s0, s0) == Reduce(v)
    ensures F.Mul(Norm(s0), Norm(s0)) == Norm(v)
  {
    NormOfProduct(s0, s0);
    F.CanonicalEq(F.Mul(Norm(s0), Norm(s0)), Norm(v));
  }

  /** Any element standing for the norm of a root squares to the input's norm. */
  lemma RootSquare(v: CF, s0: CF, rho: F.RF)
    requires Mul(s0, s0) == Reduce(v) && F.Value(rho) == F.Value(Norm(s0))
    ensures F.Mul(rho, rho) == Norm(v)
  {
    NormSquare(v, s0);
    F.CanonicalEq(F.Mul(rho, rho), F.Mul(Norm(s0), Norm(s0)));
  }

  /** With rho = x0^2 + y0^2, the halves are the squares of the root's components. */
  lemma HalvesOfRoot(v: CF, s0: CF, rho: F.RF)
    requires NT.IsPrime(P)
    requires Mul(s0, s0) == Reduce(v) && F.Value(rho) == F.Value(Norm(s0))
    ensures F.Mul(s0.a, s0.a) == F.Reduce(HalfX(v, rho))
    ensures F.Mul(s0.b, s0.b) == F.Reduce(HalfY(v, rho))
  {
    var x0, y0 := Re(s0), Im(s0);
    MulParts(s0, s0);
    TwoInvFacts();
    HalfValues(v, rho);
    assert Re(v) == (x0 * x0 - y0 * y0) % P;
    NT.ModIdem(x0 * x0 - y0 * y0, P);
    NT.ModIdem(x0 * x0 + y0 * y0, P);
    HalvesAreSquares(Re(v), x0, y0, F.Value(rho), F.Value(TwoInv()));
    F.CanonicalEq(F.Mul(s0.a, s0.a), F.Reduce(HalfX(v, rho)));
    F.CanonicalEq(F.Mul(s0.b, s0.b), F.Reduce(HalfY(v, rho)));
  }

  /** A half that is the square of a nonzero element has a nonzero root. */
  lemma HalfRootExists(b: F.RF, h: F.RF, z: F.RF)
    requires NT.IsPrime(P) && F.Mul(z, z) == F.Reduce(h) && !F.IsZero(z)
    ensures HalfRoot(b, h).Some?
  {
    F.SqrtComplete(h, z);
    F.SquareOfNonzero(z);
  }

  /** A root of the norm equal to x0^2 + y0^2 for a root (x0, y0) of the input
      leads one of the two branches to a root. */
  lemma RootFound(v: CF, s0: CF, rho: F.RF)
    requires NT.IsPrime(P) && Mul(s0, s0) == Reduce(v) && !IsZero(v)
    requires F.Value(rho) == F.Value(Norm(s0))
    ensures FromNormRoot(v, rho, Reduce(v)).Some?
  {
    RootSquare(v, s0, rho);
    HalvesOfRoot(v, s0, rho);
    if !F.IsZero(s0.a) {
      HalfRootExists(v.b, HalfX(v, rho), s0.a);
      BranchXSquares(v, rho);
    } else {
      if F.IsZero(s0.b) {
        ZeroPairSquare(s0);
        assert false;
      }
      HalfRootExists(v.b, HalfY(v, rho), s0.b);
      BranchYSquares(v, rho);
    }
  }

  /** (0, 0) squares to zero. */
  lemma ZeroPairSquare(s0: CF)
    requires F.IsZero(s0.a) && F.IsZero(s0.b)
    ensures IsZero(Mul(s0, s0))
  {
    MulParts(s0, s0);
    CanonicalEq(Mul(s0, s0), Zero());
  }

  /** Completeness: every square has a root that the corrected method finds. */
  lemma TrySqrtComplete(v: CF, s0: CF)
    requires NT.IsPrime(P) && Mul(s0, s0) == Reduce(v)
    ensures TrySqrt(v).Some?
  {
    if !IsZero(v) {
      NormSquare(v, s0);
      F.SqrtComplete(Norm(v), Norm(s0));
      NormRootFound(v, s0, F.TrySqrt(Norm(v)).value);
    }
  }

  /** The base field's root of the norm is x0^2 + y0^2 or its negation, and
      either way one of the two tries finds a root. */
  lemma NormRootFound(v: CF, s0: CF, r: F.RF)
    requires NT.IsPrime(P) && Mul(s0, s0) == Reduce(v) && !IsZero(v)
    requires F.TrySqrt(Norm(v)) == Some(r)
    ensures TrySqrt(v).Some?
  {
    var n := F.Value(Norm(s0));
    NormSquare(v, s0);
    assert (F.Value(r) * F.Value(r)) % P == (n * n) % P;
    SignChoice(F.Value(r), n);
    if F.Value(r) == n {
      RootFound(v, s0, r);
    } else {
      RootFound(v, s0, F.Neg(r));
    }
  }

  /** For p prime, a norm with no base-field root means no square root at
      all, so the failure of either square root on it is no miss. */
  lemma NoNormRootNoSquare(v: CF, s0: CF)
    requires NT.IsPrime(P) && F.TrySqrt(Norm(v)).None?
    ensures Mul(s0, s0) != Reduce(v)
  {
    if Mul(s0, s0) == Reduce(v) {
      NormSquare(v, s0);
      F.SqrtComplete(Norm(v), Norm(s0));
      assert false;
    }
  }


  /** A residue with the same square as n is n or -n. */
  lemma SignChoice(c: int, n: int)
    requires NT.IsPrime(P) && 0 <= c < P && 0 <= n < P && (c * c) % P == (n * n) % P
    ensures c == n || (-c) % P == n
  {
    NT.SquareRootsUpToSign(P, c, n);
    SignOfResidue(c, n);
  }

  lemma SignOfResidue(c: int, n: int)
    requires 0 <= c < P && 0 <= n < P && (c % P == n % P || c % P == (-n) % P)
    ensures c == n || (-c) % P == n
  {
    if c != n {
      assert c % P == (-n) % P;
      NT.NegCong(c, -n, P);
    }
  }

  // ---------------------------------------------------------------------
  // Where the source's method falls short
  // ---------------------------------------------------------------------

  /** h has no base-field root when h + z^2 vanishes for a nonzero z,
      since -1 is not a square modulo P. */
  lemma NoBaseRoot(h: F.RF, z: int)
    requires NT.IsPrime(P) && z % P != 0 && (F.Value(h) + z * z) % P == 0
    ensures F.TrySqrt(h).None?
  {
    if F.TrySqrt(h).Some? {
      var c := F.TrySqrt(h).value;
      SumOfSquaresNonzero(c.val, z);
      NT.AddCong(c.val * c.val, F.Value(h), z * z, z * z, P);
      assert false;
    }
  }

  /** s0 = 2 + 2041534867 i, a root whose x0^2 + y0^2 is -1. */
  const MissedRoot := CF(F.RF(2), F.RF(2041534867))

  /** v = s0^2 = 9 + 1723688527 i, whose norm is 1. */
  const MissedSquare := CF(F.RF(9), F.RF(1723688527))

  lemma MissedSquareArith()
    ensures (2 * 2 - 2041534867 * 2041534867) % P == 9
    ensures (2 * 2041534867 + 2041534867 * 2) % P == 1723688527
    ensures (9 * 9 + 1723688527 * 1723688527) % P == 1
  {
  }

  lemma MissedHalvesArith()
    ensures (((9 + 1) % P) * 0x4000_0000) % P == 5
    ensures (((1 - 9) % P) * 0x4000_0000) % P == P - 4
    ensures (5 + 2041534867 * 2041534867) % P == 0
    ensures ((P - 4) + 2 * 2) % P == 0
  {
  }

  lemma MissedSquareValues()
    ensures Mul(MissedRoot, MissedRoot) == MissedSquare
    ensures Norm(MissedSquare) == F.RF(1)
  {
    MissedSquareArith();
    MulParts(MissedRoot, MissedRoot);
    CanonicalEq(Mul(MissedRoot, MissedRoot), MissedSquare);
    F.CanonicalEq(Norm(MissedSquare), F.RF(1));
  }

  lemma MissedHalves()
    requires NT.IsPrime(P)
    ensures F.TrySqrt(HalfX(MissedSquare, F.RF(1))).None?
    ensures F.TrySqrt(HalfY(MissedSquare, F.RF(1))).None?
  {
    TwoInvValue();
    HalfValues(MissedSquare, F.RF(1));
    MissedHalvesArith();
    NoBaseRoot(HalfX(MissedSquare, F.RF(1)), 2041534867);
    NoBaseRoot(HalfY(MissedSquare, F.RF(1)), 2);
  }

  /** s0 squares to v, the base field returns the root 1 of v's norm, but
      x0^2 + y0^2 is -1: the halves 5 and -4 are not squares, so the
      source's method reports no root, while the corrected one finds one. */
  lemma AsWrittenMissesRoot()
    requires NT.IsPrime(P)
    ensures Mul(MissedRoot, MissedRoot) == MissedSquare
    ensures TrySqrtAsWritten(MissedSquare).None?
    ensures TrySqrt(MissedSquare).Some?
  {
    MissedSquareValues();
    CanonicalEq(Reduce(MissedSquare), MissedSquare);
    TrySqrtComplete(MissedSquare, MissedRoot);
    NT.PowOfOne((P + 1) / 4);
    assert F.TrySqrt(Norm(MissedSquare)) == Some(F.RF(1));
    MissedHalves();
  }

  /** The base field's root x^((P+1)/4) is itself a square, of x^((P+1)/8). */
  lemma BaseRootIsSquare(h: F.RF) returns (u: int)
    ensures F.TrySqrt(h).Some? ==> (u * u) % P == F.TrySqrt(h).value.val
  {
    var v := F.Value(h);
    u := NT.Pow(v, 0x1000_0000);
    assert (P + 1) / 4 == 0x1000_0000 * 2;
    NT.PowMul(v, 0x1000_0000, 2);
    assert NT.Pow(u, 2) == u * u by {
      assert NT.Pow(u, 1) == u;
    }
  }

  /** The input recorded as failing in the source's square-root test, and its square. */
  const TodoRoot := CF(F.RF(0x53cd_1db6), F.RF(0x5ac2_fbb3))
  const TodoSquare := CF(F.RF(1152134779), F.RF(1607086497))

  lemma TodoArith()
    ensures (0x53cd_1db6 * 0x53cd_1db6 - 0x5ac2_fbb3 * 0x5ac2_fbb3) % P == 1152134779
    ensures (0x53cd_1db6 * 0x5ac2_fbb3 + 0x5ac2_fbb3 * 0x53cd_1db6) % P == 1607086497
    ensures (0x53cd_1db6 * 0x53cd_1db6 + 0x5ac2_fbb3 * 0x5ac2_fbb3) % P == 1659626175
    ensures (1659626175 + 2060669443 * 2060669443) % P == 0
  {
  }

  lemma TodoHalvesArith()
    ensures (((1152134779 + 487857472) % P) * 0x4000_0000) % P == 1893737949
    ensures (((487857472 - 1152134779) % P) * 0x4000_0000) % P == 741603170
    ensures (1893737949 + 1522727859 * 1522727859) % P == 0
    ensures (741603170 + 1405951414 * 1405951414) % P == 0
  {
  }

  lemma TodoSquareValues()
    ensures Mul(TodoRoot, TodoRoot) == TodoSquare
    ensures F.Value(Norm(TodoRoot)) == 1659626175
  {
    TodoArith();
    MulParts(TodoRoot, TodoRoot);
    CanonicalEq(Mul(TodoRoot, TodoRoot), TodoSquare);
  }

  /** A square root c of q^2 that is itself a square is -q when q is minus
      a nonzero square. */
  lemma NegatedRootArith(c: int, u: int, q: int, z: int)
    requires NT.IsPrime(P) && 0 <= c < P && 0 < q < P && z % P != 0
    requires (u * u) % P == c && (c * c) % P == (q * q) % P
    requires (q + z * z) % P == 0
    ensures c == P - q
  {
    NT.SquareRootsUpToSign(P, c, q);
    if c % P == q % P {
      NT.AddCong(u * u, q, z * z, z * z, P);
      SumOfSquaresNonzero(u, z);
      assert false;
    }
    NegatedResidue(c, q);
  }

  lemma NegatedResidue(c: int, q: int)
    requires 0 <= c < P && 0 < q < P && c % P == (-q) % P
    ensures c == P - q
  {
    NT.DivModUnique(-q, P, -1, P - q);
  }

  /** When q^2 is the norm and q is minus a nonzero square, the base field
      returns -q: its root is a square, and q is not one. */
  lemma NegatedBaseRoot(h: F.RF, q: int, z: int)
    requires NT.IsPrime(P) && 0 < q < P && z % P != 0
    requires F.TrySqrt(h).Some? && F.Value(h) == (q * q) % P
    requires (q + z * z) % P == 0
    ensures F.TrySqrt(h).value.val == P - q
  {
    var c := F.TrySqrt(h).value;
    assert (c.val * c.val) % P == (q * q) % P;
    var u := BaseRootIsSquare(h);
    NegatedRootArith(c.val, u, q, z);
  }

  /** The base field returns -(x0^2 + y0^2) as the root of the norm: the
      other root, x0^2 + y0^2, is minus a square and so not a square itself. */
  lemma TodoNormRoot()
    requires NT.IsPrime(P)
    ensures F.TrySqrt(Norm(TodoSquare)) == Some(F.RF(487857472))
  {
    var v, n0 := TodoSquare, Norm(TodoRoot);
    TodoSquareValues();
    TodoArith();
    NormSquare(v, TodoRoot);
    assert F.Value(Norm(v)) == (1659626175 * 1659626175) % P;
    F.SqrtComplete(Norm(v), n0);
    NegatedBaseRoot(Norm(v), 1659626175, 2060669443);
  }

  /** The source's own recorded failing input is a case of the missed sign:
      its square has a root, the source's method finds none, and the
      corrected one finds one. */
  lemma AsWrittenMissesTodoInput()
    requires NT.IsPrime(P)
    ensures Mul(TodoRoot, TodoRoot) == TodoSquare
    ensures TrySqrtAsWritten(TodoSquare).None?
    ensures TrySqrt(TodoSquare).Some?
  {
    var r := F.RF(487857472);
    TodoSquareValues();
    TodoNormRoot();
    TwoInvValue();
    HalfValues(TodoSquare, r);
    TodoHalvesArith();
    NoBaseRoot(HalfX(TodoSquare, r), 1522727859);
    NoBaseRoot(HalfY(TodoSquare, r), 1405951414);
    CanonicalEq(Reduce(TodoSquare), TodoSquare);
    TrySqrtComplete(TodoSquare, TodoRoot);
  }

  /** The source's own constant for -i is stored unreduced. -i has the root
      RootOfUnity8(1), but the source's method compares the candidate's
      square with the stored representation and reports no root; the
      corrected one finds one. */
  lemma AsWrittenRejectsUnreduced()
    requires NT.IsPrime(P)
    ensures Mul(RootOfUnity8(1), RootOfUnity8(1)) == Reduce(W4Neg)
    ensures TrySqrtAsWritten(W4Neg).None?
    ensures TrySqrt(W4Neg).Some?
  {
    CanonicalEq(RootOfUnity4(1), Reduce(W4Neg));
    TrySqrtComplete(W4Neg, RootOfUnity8(1));
  }
}
