/**
  Exponentiation in CM31 and the orders of its roots of unity.

  `Power` is the specification: x multiplied by itself n times, starting
  from one. `Pow` is the source's square-and-multiply loop, proved to
  compute it.
*/
module CM31Power {
  import opened CM31

  /** x^n by repeated multiplication. */
  function Power(x: CF, n: nat): (r: CF)
    ensures IsCanonical(r)
  {
    if n == 0 then One() else Mul(Power(x, n - 1), x)
  }

  /** 2^k. */
  function Pow2(k: nat): nat {
    if k == 0 then 1 else 2 * Pow2(k - 1)
  }

  /** A canonical element is its own reduction. */
  lemma ReduceCanonical(c: CF)
    requires IsCanonical(c)
    ensures Reduce(c) == c
  {
    CanonicalEq(Reduce(c), c);
  }

  /** Square-and-multiply: the bits of the exponent are consumed from the
      least significant end while the base is squared. */
  method Pow(x: CF, exp: nat) returns (result: CF)
    ensures result == Power(x, exp)
  {
    result := One();
    var base := x;
    var e := exp;
    MulOne(Power(x, exp));
    ReduceCanonical(Power(x, exp));
    while e > 0
      invariant IsCanonical(result)
      invariant Mul(result, Power(base, e)) == Power(x, exp)
      decreases e
    {
      var k := e / 2;
      SquaringStep(result, base, e, k);
      if e % 2 == 1 {
        result := Mul(result, base);
      }
      base := Mul(base, base);
      e := k;
    }
    MulOne(result);
    ReduceCanonical(result);
  }

  /** One step of square-and-multiply keeps result * base^e unchanged. */
  lemma SquaringStep(result: CF, base: CF, e: nat, k: nat)
    requires k == e / 2
    ensures e % 2 == 1 ==> Mul(Mul(result, base), Power(Mul(base, base), k)) == Mul(result, Power(base, e))
    ensures e % 2 == 0 ==> Power(Mul(base, base), k) == Power(base, e)
  {
    var h := Power(Mul(base, base), k);
    PowerOfSquare(base, k);
    if e % 2 == 1 {
      assert Power(base, e) == Mul(Power(base, 2 * k), base);
      MulAssoc(result, base, h);
      MulComm(base, h);
    } else {
      assert e == 2 * k;
    }
  }

  lemma {:induction false} PowerAdd(x: CF, m: nat, n: nat)
    ensures Power(x, m + n) == Mul(Power(x, m), Power(x, n))
    decreases n
  {
    var a := Power(x, m);
    if n == 0 {
      MulOne(a);
      ReduceCanonical(a);
      assert Power(x, m + n) == a && Power(x, n) == One();
    } else {
      var b := Power(x, n - 1);
      PowerAdd(x, m, n - 1);
      assert Power(x, m + n) == Mul(Power(x, m + (n - 1)), x);
      assert Power(x, n) == Mul(b, x);
      MulAssoc(a, b, x);
    }
  }

  lemma {:induction false} PowerMul(x: CF, a: nat, b: nat)
    ensures Power(x, a * b) == Power(Power(x, a), b)
    decreases b
  {
    var n := ProductIsNat(a, b);
    if b == 0 {
      assert n == 0;
    } else {
      var m := ProductIsNat(a, b - 1);
      ProductStep(a, b, m, n);
      PowerMul(x, a, b - 1);
      PowerStep(x, Power(x, a), a, b, m, n);
    }
  }

  lemma PowerStep(x: CF, y: CF, a: nat, b: nat, m: nat, n: nat)
    requires b > 0 && n == m + a && y == Power(x, a)
    requires Power(x, m) == Power(y, b - 1)
    ensures Power(x, n) == Power(y, b)
  {
    PowerAdd(x, m, a);
    assert Power(x, n) == Mul(Power(x, m), y);
  }

  lemma ProductStep(a: nat, b: nat, m: nat, n: nat)
    requires b > 0 && m == a * (b - 1) && n == a * b
    ensures n == m + a
  {
  }

  lemma ProductIsNat(a: nat, c: nat) returns (m: nat)
    ensures m == a * c
  {
    m := a * c;
  }

  /** Powers of the square are the even powers. */
  lemma PowerOfSquare(x: CF, i: nat)
    ensures Power(Mul(x, x), i) == Power(x, 2 * i)
  {
    assert Power(x, 1) == Mul(One(), x);
    MulOne(x);
    MulReduce(x, x);
    assert Power(x, 2) == Mul(x, x);
    PowerMul(x, 2, i);
  }

  lemma {:induction false} PowerOfOne(n: nat)
    ensures Power(One(), n) == One()
  {
    if n > 0 {
      PowerOfOne(n - 1);
      MulOne(One());
      ReduceCanonical(One());
    }
  }

  /** (-1)^n is -1 for odd n and one for even n. */
  lemma PowerOfMinusOne(n: nat)
    ensures Power(RootOfUnity2(), n) == if n % 2 == 1 then RootOfUnity2() else One()
  {
    var m1 := RootOfUnity2();
    var k := n / 2;
    PowerOfSquare(m1, k);
    PowerOfOne(k);
    if n % 2 == 1 {
      assert n == 2 * k + 1;
      MulOne(m1);
      ReduceCanonical(m1);
    } else {
      assert n == 2 * k;
    }
  }

  /** w has multiplicative order exactly n. */
  ghost predicate HasOrder(w: CF, n: nat) {
    n > 0 && Power(w, n) == One() && forall j :: 0 < j < n ==> Power(w, j) != One()
  }

  /** An element whose 2^k-th power is -1 has order 2^(k+1). */
  lemma OrderFromHalf(w: CF, k: nat)
    requires Power(w, Pow2(k)) == RootOfUnity2()
    ensures HasOrder(w, Pow2(k + 1))
  {
    HalfSquared(w, k);
    forall j | 0 < j < Pow2(k + 1)
      ensures Power(w, j) != One()
    {
      NotOneBelow(w, k, j);
    }
  }

  lemma HalfSquared(w: CF, k: nat)
    requires Power(w, Pow2(k)) == RootOfUnity2()
    ensures Power(w, Pow2(k + 1)) == One()
  {
    var h := Pow2(k);
    assert Pow2(k + 1) == h + h;
    PowerTwiceHalf(w, h, RootOfUnity2());
  }

  /** If w^h squares to one, so does w^(h + h). */
  lemma PowerTwiceHalf(w: CF, h: nat, y: CF)
    requires Power(w, h) == y && Mul(y, y) == One()
    ensures Power(w, h + h) == One()
  {
    PowerAdd(w, h, h);
  }

  lemma {:induction false} NotOneBelow(w: CF, k: nat, j: nat)
    requires Power(w, Pow2(k)) == RootOfUnity2()
    requires 0 < j < Pow2(k + 1)
    ensures Power(w, j) != One()
    decreases k, 1
  {
    if j % 2 == 1 {
      OddPowerNotOne(w, k, j);
    } else {
      EvenPowerNotOne(w, k, j);
    }
  }

  /** An even power w^(2i) is the power (w^2)^i, and w^2 has half the order. */
  lemma {:induction false} EvenPowerNotOne(w: CF, k: nat, j: nat)
    requires Power(w, Pow2(k)) == RootOfUnity2()
    requires 0 < j < Pow2(k + 1) && j % 2 == 0
    ensures Power(w, j) != One()
    decreases k, 0
  {
    var i := j / 2;
    assert Pow2(k + 1) == 2 * Pow2(k);
    assert k > 0 && Pow2(k) == 2 * Pow2(k - 1);
    assert 0 < i < Pow2(k) && j == 2 * i;
    PowerOfSquare(w, i);
    SquareHalfPower(w, k);
    NotOneBelow(Mul(w, w), k - 1, i);
  }

  /** If w^(2^k) is -1 then so is (w^2)^(2^(k-1)). */
  lemma SquareHalfPower(w: CF, k: nat)
    requires k > 0 && Power(w, Pow2(k)) == RootOfUnity2()
    ensures Power(Mul(w, w), Pow2(k - 1)) == RootOfUnity2()
  {
    var h := Pow2(k - 1);
    PowerOfSquare(w, h);
    assert 2 * h == Pow2(k);
  }

  /** If w^(2^k) is -1, no odd power of w is one: raising it to 2^k would give -1. */
  lemma OddPowerNotOne(w: CF, k: nat, j: nat)
    requires Power(w, Pow2(k)) == RootOfUnity2()
    requires j % 2 == 1
    ensures Power(w, j) != One()
  {
    PowerMul(w, j, Pow2(k));
    PowerOfOne(Pow2(k));
    PowerMul(w, Pow2(k), j);
    assert j * Pow2(k) == Pow2(k) * j;
    PowerOfMinusOne(j);
  }

  /** The fixed roots are primitive roots of unity of orders 2, 4 and 8. */
  lemma RootOrders(i: nat, l: nat)
    requires i < 2 && l < 4
    ensures HasOrder(RootOfUnity2(), 2)
    ensures HasOrder(RootOfUnity4(i), 4)
    ensures HasOrder(RootOfUnity8(l), 8)
  {
    assert Power(RootOfUnity2(), 1) == RootOfUnity2() by {
      MulOne(RootOfUnity2());
      ReduceCanonical(RootOfUnity2());
    }
    OrderFromHalf(RootOfUnity2(), 0);
    var r := RootOfUnity4(i);
    assert Power(r, 2) == RootOfUnity2() by {
      PowerOfSquare(r, 1);
      PowerOfSquare(RootOfUnity2(), 0);
      MulOne(Mul(r, r));
      ReduceCanonical(Mul(r, r));
    }
    OrderFromHalf(r, 1);
    var s := RootOfUnity8(l);
    assert Power(s, 4) == RootOfUnity2() by {
      PowerOfSquare(s, 2);
      var t := Mul(s, s);
      assert t == RootOfUnity4(if l == 0 || l == 3 then 0 else 1);
      PowerOfSquare(t, 1);
      MulOne(Mul(t, t));
      ReduceCanonical(Mul(t, t));
    }
    OrderFromHalf(s, 2);
  }

  /** The shortcut multiplications agree with multiplying by powers of W8:
      W8^4 is -1 and W8^2 is i. */
  lemma ShortcutsArePowersOfW8(x: CF)
    ensures MulNeg1(x) == Mul(x, Power(W8, 4))
    ensures Reduce(MulJ(x)) == Mul(x, Power(W8, 2))
  {
    Constants();
    PowerOfSquare(W8, 1);
    MulOne(Mul(W8, W8));
    ReduceCanonical(W4);
    assert Power(W8, 2) == W4;
    PowerOfSquare(W8, 2);
    PowerOfSquare(W4, 1);
    MulOne(Mul(W4, W4));
    assert W4 == RootOfUnity4(0);
    ReduceCanonical(RootOfUnity2());
    assert Power(W8, 4) == RootOfUnity2();
  }
}
