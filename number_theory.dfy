/**
  Arithmetic modulo an arbitrary modulus `m`, and the facts about a prime
  modulus that the two field models rely on: Euclid's lemma (a prime that
  divides a product divides a factor), Fermat's little theorem, and that -1
  has no square root modulo a prime congruent to 3 mod 4.

  Throughout, "x is congruent to y" is written `x % m == y % m`; Dafny's `%`
  is Euclidean, so `x % m` is the canonical residue in [0, m) also for
  negative `x`.
*/
module NumberTheory {

  /** `d` divides `n`. */
  predicate Divides(d: int, n: int) {
    d != 0 && n % d == 0
  }

  /** A prime: greater than one, and no number strictly between one and it divides it. */
  ghost predicate IsPrime(p: int) {
    p > 1 && forall d :: 1 < d < p ==> !Divides(d, p)
  }

  /** `x` raised to the `n`-th power, over the integers. */
  function Pow(x: int, n: nat): int {
    if n == 0 then 1 else x * Pow(x, n - 1)
  }

  // ---------------------------------------------------------------------
  // Division with remainder and congruences
  // ---------------------------------------------------------------------

  lemma MulAtLeast(m: int, k: int)
    requires m > 0 && k >= 1
    ensures m * k >= m
  {
    assert m * k == m + m * (k - 1);
  }

  /** Quotient and remainder are determined by `n == m * q + r` with `0 <= r < m`. */
  lemma DivModUnique(n: int, m: int, q: int, r: int)
    requires m > 0 && 0 <= r < m && n == m * q + r
    ensures n % m == r && n / m == q
  {
    var q', r' := n / m, n % m;
    assert m * q' + r' == m * q + r;
    assert m * (q - q') == r' - r;
    if q > q' {
      MulAtLeast(m, q - q');
    } else if q < q' {
      MulAtLeast(m, q' - q);
    }
  }

  /** Adding a multiple of the modulus does not change the residue. */
  lemma ModAddMultiple(u: int, t: int, m: int)
    requires m > 0
    ensures (u + m * t) % m == u % m
  {
    var q, r := u / m, u % m;
    assert u + m * t == m * (q + t) + r;
    DivModUnique(u + m * t, m, q + t, r);
  }

  /** Numbers whose difference is a multiple of the modulus are congruent. */
  lemma ModOfDifference(u: int, v: int, k: int, m: int)
    requires m > 0 && u - v == m * k
    ensures u % m == v % m
  {
    ModAddMultiple(v, k, m);
  }

  /** A multiple of the modulus has residue zero. */
  lemma MultipleMod(m: int, k: int)
    requires m > 0
    ensures (m * k) % m == 0
  {
    ModAddMultiple(0, k, m);
  }

  /** Congruent numbers differ by a multiple of the modulus. */
  lemma CongruentDiffers(u: int, v: int, m: int) returns (k: int)
    requires m > 0 && u % m == v % m
    ensures u - v == m * k
  {
    k := u / m - v / m;
    assert u == m * (u / m) + u % m;
    assert v == m * (v / m) + v % m;
  }

  lemma ModIdem(u: int, m: int)
    requires m > 0
    ensures (u % m) % m == u % m
  {
    DivModUnique(u % m, m, 0, u % m);
  }

  lemma AddCong(u: int, u': int, v: int, v': int, m: int)
    requires m > 0 && u % m == u' % m && v % m == v' % m
    ensures (u + v) % m == (u' + v') % m
  {
    var k1 := CongruentDiffers(u, u', m);
    var k2 := CongruentDiffers(v, v', m);
    ModOfDifference(u + v, u' + v', k1 + k2, m);
  }

  lemma SubCong(u: int, u': int, v: int, v': int, m: int)
    requires m > 0 && u % m == u' % m && v % m == v' % m
    ensures (u - v) % m == (u' - v') % m
  {
    var k1 := CongruentDiffers(u, u', m);
    var k2 := CongruentDiffers(v, v', m);
    ModOfDifference(u - v, u' - v', k1 - k2, m);
  }

  lemma MulCong(u: int, u': int, v: int, v': int, m: int)
    requires m > 0 && u % m == u' % m && v % m == v' % m
    ensures (u * v) % m == (u' * v') % m
  {
    var k1 := CongruentDiffers(u, u', m);
    var k2 := CongruentDiffers(v, v', m);
    MulDifference(u', v', m, k1, k2);
    ModOfDifference(u * v, u' * v', k1 * v' + u' * k2 + m * k1 * k2, m);
  }

  /** (u + m k1)(v + m k2) - u v is a multiple of m. */
  lemma MulDifference(u: int, v: int, m: int, k1: int, k2: int)
    ensures (u + m * k1) * (v + m * k2) - u * v == m * (k1 * v + u * k2 + m * k1 * k2)
  {
  }

  lemma NegCong(u: int, u': int, m: int)
    requires m > 0 && u % m == u' % m
    ensures (-u) % m == (-u') % m
  {
    SubCong(0, 0, u, u', m);
  }

  /** Addition modulo m is associative. */
  lemma AddAssocMod(x: int, y: int, z: int, m: int)
    requires m > 0
    ensures ((x + y) % m + z) % m == (x + (y + z) % m) % m
  {
    ModIdem(x + y, m);
    AddCong((x + y) % m, x + y, z, z, m);
    ModIdem(y + z, m);
    AddCong(x, x, (y + z) % m, y + z, m);
  }

  /** Subtracting c undoes adding c, for a reduced a. */
  lemma AddSubMod(a: int, c: int, m: int)
    requires 0 <= a < m
    ensures ((a + c) % m - c) % m == a
  {
    var q := (a + c) / m;
    assert a + c == m * q + (a + c) % m;
    ModOfDifference((a + c) % m - c, a, -q, m);
    DivModUnique(a, m, 0, a);
  }

  /** Adding c undoes subtracting c, for a reduced a. */
  lemma SubAddMod(a: int, c: int, m: int)
    requires 0 <= a < m
    ensures ((a - c) % m + c) % m == a
  {
    var q := (a - c) / m;
    assert a - c == m * q + (a - c) % m;
    ModOfDifference((a - c) % m + c, a, -q, m);
    DivModUnique(a, m, 0, a);
  }

  /** Reducing the operands first does not change the residue of a sum. */
  lemma AddMod(u: int, v: int, m: int)
    requires m > 0
    ensures ((u % m) + (v % m)) % m == (u + v) % m
  {
    ModIdem(u, m);
    ModIdem(v, m);
    AddCong(u % m, u, v % m, v, m);
  }

  /** Reducing the operands first does not change the residue of a difference. */
  lemma SubMod(u: int, v: int, m: int)
    requires m > 0
    ensures ((u % m) - (v % m)) % m == (u - v) % m
  {
    ModIdem(u, m);
    ModIdem(v, m);
    SubCong(u % m, u, v % m, v, m);
  }

  /** Reducing the operands first does not change the residue of a product. */
  lemma MulMod(u: int, v: int, m: int)
    requires m > 0
    ensures ((u % m) * (v % m)) % m == (u * v) % m
  {
    ModIdem(u, m);
    ModIdem(v, m);
    MulCong(u % m, u, v % m, v, m);
  }

  // ---------------------------------------------------------------------
  // Powers
  // ---------------------------------------------------------------------

  lemma {:induction false} PowAdd(x: int, a: nat, b: nat)
    ensures Pow(x, a + b) == Pow(x, a) * Pow(x, b)
    decreases a
  {
    if a > 0 {
      PowAdd(x, a - 1, b);
      assert Pow(x, a + b) == x * Pow(x, a - 1 + b);
    }
  }

  lemma {:induction false} PowMul(x: int, a: nat, b: nat)
    ensures Pow(x, a * b) == Pow(Pow(x, a), b)
    decreases b
  {
    if b > 0 {
      PowMul(x, a, b - 1);
      assert a * b == a + a * (b - 1);
      PowAdd(x, a, a * (b - 1));
    }
  }

  lemma {:induction false} PowOfOne(n: nat)
    ensures Pow(1, n) == 1
  {
    if n > 0 {
      PowOfOne(n - 1);
    }
  }

  lemma {:induction false} PowOfZero(n: nat)
    requires n > 0
    ensures Pow(0, n) == 0
  {
  }

  /** (-1) to an odd power is -1. */
  lemma {:induction false} PowMinusOneOdd(n: nat)
    requires n % 2 == 1
    ensures Pow(-1, n) == -1
    decreases n
  {
    if n > 1 {
      PowMinusOneOdd(n - 2);
      assert Pow(-1, n) == -1 * (-1 * Pow(-1, n - 2));
    }
  }

  lemma {:induction false} PowCong(x: int, y: int, n: nat, m: int)
    requires m > 0 && x % m == y % m
    ensures Pow(x, n) % m == Pow(y, n) % m
  {
    if n > 0 {
      PowCong(x, y, n - 1, m);
      MulCong(x, y, Pow(x, n - 1), Pow(y, n - 1), m);
    }
  }

  // ---------------------------------------------------------------------
  // Bezout's identity and Euclid's lemma
  // ---------------------------------------------------------------------

  lemma DivisorAtMost(d: int, n: int)
    requires d > 0 && n > 0 && n % d == 0
    ensures d <= n
  {
    DivModUnique(n, d, n / d, 0);
    assert n / d >= 1;
    MulAtLeast(d, n / d);
  }

  /** The extended Euclidean algorithm: a common divisor `g` of `a` and `b` that is
      an integer combination of them. */
  lemma {:induction false} Bezout(a: nat, b: nat) returns (g: nat, s: int, t: int)
    requires a > 0 || b > 0
    ensures g > 0 && a % g == 0 && b % g == 0
    ensures s * a + t * b == g
    decreases b
  {
    if b == 0 {
      g, s, t := a, 1, 0;
      MultipleMod(a, 1);
      MultipleMod(a, 0);
    } else {
      var q, r := a / b, a % b;
      var g', s', t' := Bezout(b, r);
      g, s, t := g', t', s' - t' * q;
      assert a == b * q + r;
      calc {
        s * a + t * b;
        t' * (b * q + r) + (s' - t' * q) * b;
        s' * b + t' * r;
        g;
      }
      var k1 := CongruentDiffers(b, 0, g);
      var k2 := CongruentDiffers(r, 0, g);
      assert a == g * (k1 * q + k2);
      MultipleMod(g, k1 * q + k2);
    }
  }

  /** Euclid's lemma: a prime that divides a product divides one of the factors. */
  lemma EuclidLemma(p: int, a: int, b: int)
    requires IsPrime(p) && (a * b) % p == 0
    ensures a % p == 0 || b % p == 0
  {
    if a % p != 0 {
      var g, s, t := Bezout(a % p, p);
      DivisorAtMost(g, a % p);
      if g > 1 {
        assert Divides(g, p);
        assert false;
      }
      assert s * (a % p) + t * p == 1;
      // (a % p) * b is congruent to a * b, hence a multiple of p.
      ModIdem(a, p);
      MulCong(a % p, a, b, b, p);
      UnitFactorDivides(p, a % p, b, s, t);
    }
  }

  /** If s c + t p = 1 and p divides c b, then p divides b. */
  lemma UnitFactorDivides(p: int, c: int, b: int, s: int, t: int)
    requires p > 1 && s * c + t * p == 1 && (c * b) % p == 0
    ensures b % p == 0
  {
    var k := CongruentDiffers(c * b, 0, p);
    EuclidAlgebra(c, b, s, t, p, k);
    MultipleMod(p, s * k + t * b);
  }

  lemma EuclidAlgebra(c: int, b: int, s: int, t: int, p: int, k: int)
    requires s * c + t * p == 1 && c * b - 0 == p * k
    ensures b == p * (s * k + t * b)
  {
    calc {
      b;
      (s * c + t * p) * b;
      s * (c * b) + p * (t * b);
      p * (s * k + t * b);
    }
  }

  /** In a prime modulus two numbers with the same square are equal up to sign. */
  lemma SquareRootsUpToSign(p: int, x: int, y: int)
    requires IsPrime(p) && (x * x) % p == (y * y) % p
    ensures x % p == y % p || x % p == (-y) % p
  {
    var k := CongruentDiffers(x * x, y * y, p);
    assert (x - y) * (x + y) == p * k;
    MultipleMod(p, k);
    EuclidLemma(p, x - y, x + y);
    if (x - y) % p == 0 {
      ModOfDifference(x, y, (x - y) / p, p);
    } else {
      assert (x + y) % p == 0;
      ModOfDifference(x, -y, (x + y) / p, p);
    }
  }

  // ---------------------------------------------------------------------
  // Binomial coefficients and Fermat's little theorem
  // ---------------------------------------------------------------------

  /** The binomial coefficient "n choose k", by Pascal's rule. */
  function Binom(n: nat, k: nat): nat {
    if k == 0 then 1 else if n == 0 then 0 else Binom(n - 1, k - 1) + Binom(n - 1, k)
  }

  lemma {:induction false} BinomAbove(n: nat, k: nat)
    requires k > n
    ensures Binom(n, k) == 0
  {
    if n > 0 {
      BinomAbove(n - 1, k - 1);
      BinomAbove(n - 1, k);
    }
  }

  lemma {:induction false} BinomDiagonal(n: nat)
    ensures Binom(n, n) == 1
  {
    if n > 0 {
      BinomDiagonal(n - 1);
      BinomAbove(n - 1, n);
    }
  }

  /** The absorption identity k * C(n, k) == n * C(n - 1, k - 1). */
  lemma {:induction false} Absorption(n: nat, k: nat)
    requires n >= 1 && k >= 1
    ensures k * Binom(n, k) == n * Binom(n - 1, k - 1)
    decreases n
  {
    if n == 1 {
      if k >= 2 {
        assert Binom(0, k - 1) == 0 && Binom(0, k) == 0;
      }
    } else if k == 1 {
      Absorption(n - 1, 1);
    } else {
      Absorption(n - 1, k);
      Absorption(n - 1, k - 1);
      AbsorptionStep(n, k, Binom(n - 1, k - 1), Binom(n - 1, k), Binom(n - 2, k - 2), Binom(n - 2, k - 1));
    }
  }

  lemma AbsorptionStep(n: int, k: int, a: int, b: int, c: int, d: int)
    requires a == c + d && k * b == (n - 1) * d && (k - 1) * a == (n - 1) * c
    ensures k * (a + b) == n * a
  {
    calc {
      k * (a + b);
      (k - 1) * a + a + k * b;
      (n - 1) * c + a + (n - 1) * d;
      (n - 1) * (c + d) + a;
      n * a;
    }
  }

  /** A prime divides every binomial coefficient C(p, k) with 0 < k < p. */
  lemma PrimeDividesBinom(p: nat, k: nat)
    requires IsPrime(p) && 0 < k < p
    ensures Binom(p, k) % p == 0
  {
    Absorption(p, k);
    MultipleMod(p, Binom(p - 1, k - 1));
    EuclidLemma(p, k, Binom(p, k));
    DivModUnique(k, p, 0, k);
  }

  /** The partial binomial sum C(n,0) x^0 + ... + C(n,k) x^k. */
  function BinomSum(n: nat, x: int, k: nat): int {
    if k == 0 then 1 else BinomSum(n, x, k - 1) + Binom(n, k) * Pow(x, k)
  }

  lemma {:induction false} BinomSumPascal(n: nat, x: int, k: nat)
    requires k >= 1
    ensures BinomSum(n + 1, x, k) == BinomSum(n, x, k) + x * BinomSum(n, x, k - 1)
  {
    if k > 1 {
      BinomSumPascal(n, x, k - 1);
      var s1, s2 := BinomSum(n, x, k - 1), BinomSum(n, x, k - 2);
      var c1, c2 := Binom(n, k - 1), Binom(n, k);
      var y1, y2 := Pow(x, k - 1), Pow(x, k);
      assert y2 == x * y1;
      assert Binom(n + 1, k) == c1 + c2;
      assert BinomSum(n + 1, x, k) == BinomSum(n + 1, x, k - 1) + (c1 + c2) * y2;
      assert BinomSum(n + 1, x, k - 1) == s1 + x * s2;
      assert s1 == s2 + c1 * y1;
      assert BinomSum(n, x, k) == s1 + c2 * y2;
      PascalSumStep(x, s1, s2, c1, c2, y1, y2);
    } else {
      assert Binom(n + 1, 1) == Binom(n, 0) + Binom(n, 1);
      assert Pow(x, 1) == x;
      assert BinomSum(n + 1, x, 1) == 1 + Binom(n + 1, 1) * x;
      assert BinomSum(n, x, 1) == 1 + Binom(n, 1) * x;
    }
  }

  lemma PascalSumStep(x: int, s1: int, s2: int, c1: int, c2: int, y1: int, y2: int)
    requires y2 == x * y1 && s1 == s2 + c1 * y1
    ensures s1 + x * s2 + (c1 + c2) * y2 == s1 + c2 * y2 + x * s1
  {
    calc {
      s1 + x * s2 + (c1 + c2) * y2;
      s1 + c2 * y2 + x * s2 + c1 * (x * y1);
      s1 + c2 * y2 + x * (s2 + c1 * y1);
    }
  }

  /** The binomial theorem at (x + 1)^n. */
  lemma {:induction false} BinomialTheorem(n: nat, x: int)
    ensures BinomSum(n, x, n) == Pow(x + 1, n)
  {
    if n > 0 {
      BinomialTheorem(n - 1, x);
      BinomSumPascal(n - 1, x, n);
      BinomAbove(n - 1, n);
      var s := BinomSum(n - 1, x, n - 1);
      assert BinomSum(n - 1, x, n) == s + 0 * Pow(x, n);
      assert BinomSum(n, x, n) == s + x * s;
      assert Pow(x + 1, n) == (x + 1) * Pow(x + 1, n - 1);
      Distribute(x, s);
    }
  }

  lemma Distribute(x: int, s: int)
    ensures s + x * s == (x + 1) * s
  {
  }

  lemma {:induction false} InnerBinomTermsVanish(p: nat, x: int, k: nat)
    requires IsPrime(p) && k < p
    ensures BinomSum(p, x, k) % p == 1 % p
  {
    if k > 0 {
      InnerBinomTermsVanish(p, x, k - 1);
      PrimeDividesBinom(p, k);
      MulCong(Binom(p, k), 0, Pow(x, k), Pow(x, k), p);
      AddCong(BinomSum(p, x, k - 1), 1, Binom(p, k) * Pow(x, k), 0, p);
    }
  }

  /** (x + 1)^p is congruent to x^p + 1 modulo a prime p. */
  lemma FreshmansDream(p: nat, x: int)
    requires IsPrime(p)
    ensures Pow(x + 1, p) % p == (Pow(x, p) + 1) % p
  {
    BinomialTheorem(p, x);
    BinomDiagonal(p);
    InnerBinomTermsVanish(p, x, p - 1);
    AddCong(BinomSum(p, x, p - 1), 1, Pow(x, p), Pow(x, p), p);
  }

  lemma {:induction false} FermatNat(p: nat, x: nat)
    requires IsPrime(p)
    ensures Pow(x, p) % p == x % p
  {
    if x == 0 {
      PowOfZero(p);
    } else {
      FermatNat(p, x - 1);
      FreshmansDream(p, x - 1);
      AddCong(Pow(x - 1, p), x - 1, 1, 1, p);
    }
  }

  /** Fermat's little theorem: x^p is congruent to x modulo a prime p. */
  lemma Fermat(p: nat, x: int)
    requires IsPrime(p)
    ensures Pow(x, p) % p == x % p
  {
    ModIdem(x, p);
    PowCong(x, x % p, p, p);
    FermatNat(p, x % p);
  }

  /** For x not divisible by the prime p, x^(p-1) is congruent to 1. */
  lemma FermatUnit(p: nat, x: int)
    requires IsPrime(p) && x % p != 0
    ensures Pow(x, p - 1) % p == 1
  {
    Fermat(p, x);
    assert Pow(x, p) == x * Pow(x, p - 1);
    var k := CongruentDiffers(Pow(x, p), x, p);
    assert x * (Pow(x, p - 1) - 1) == p * k;
    MultipleMod(p, k);
    EuclidLemma(p, x, Pow(x, p - 1) - 1);
    ModOfDifference(Pow(x, p - 1), 1, (Pow(x, p - 1) - 1) / p, p);
    DivModUnique(1, p, 0, 1);
  }

  /** -1 has no square root modulo a prime congruent to 3 mod 4. */
  lemma MinusOneIsNotSquare(p: nat, y: int)
    requires IsPrime(p) && p % 4 == 3
    ensures (y * y + 1) % p != 0
  {
    if (y * y + 1) % p == 0 {
      if y % p == 0 {
        MulCong(y, 0, y, 0, p);
        AddCong(y * y, 0, 1, 1, p);
        DivModUnique(1, p, 0, 1);
      } else {
        NotSquareOfUnit(p, y);
      }
    }
  }

  lemma HalfOfPrime(p: nat) returns (h: nat)
    requires p % 4 == 3
    ensures p - 1 == 2 * h && h % 2 == 1
  {
    h := (p - 1) / 2;
  }

  lemma NotSquareOfUnit(p: nat, y: int)
    requires IsPrime(p) && p % 4 == 3 && y % p != 0
    ensures (y * y + 1) % p != 0
  {
    var s := y * y;
    if (s + 1) % p == 0 {
      var h := HalfOfPrime(p);
      FermatUnit(p, y);
      PowMul(y, 2, h);
      assert Pow(y, 1) == y;
      assert Pow(y, 2) == s;
      assert 0 % p == 0;
      var k := CongruentDiffers(s + 1, 0, p);
      ModOfDifference(s, -1, k, p);
      PowCong(s, -1, h, p);
      PowMinusOneOdd(h);
      // So 1 is congruent to -1, whose residue is p - 1: then p == 2.
      DivModUnique(-1, p, -1, p - 1);
      assert false;
    }
  }
}
