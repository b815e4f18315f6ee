/**
  The tower of power-of-two roots of unity: -1 followed by successive
  square roots.
*/
module CM31Roots {
  import opened CM31
  import opened CM31Power
  import CM31Sqrt
  import NT = NumberTheory

  /** roots[0] is -1 and each entry is a square root of the one before it. */
  ghost predicate IsRootTower(roots: seq<CF>) {
    |roots| > 0 && roots[0] == RootOfUnity2() &&
    (forall k :: 0 <= k < |roots| ==> IsCanonical(roots[k])) &&
    (forall k :: 0 <= k < |roots| - 1 ==> Mul(roots[k + 1], roots[k + 1]) == roots[k])
  }

  /** Starts from -1 and takes n - 1 successive square roots. A square root
      that does not exist ends the loop early with `ok` false (the point at
      which the unwrapping in the source panics). */
  method GenRootsOfUnity(n: nat) returns (roots: seq<CF>, ok: bool)
    requires n > 1
    ensures IsRootTower(roots) && |roots| <= n
    ensures ok <==> |roots| == n
    ensures !ok ==> CM31Sqrt.TrySqrt(roots[|roots| - 1]).None?
    ensures NT.IsPrime(P) ==> |roots| >= 2
  {
    var w := RootOfUnity2();
    roots := [w];
    ok := true;
    for i := 2 to n + 1
      invariant IsRootTower(roots) && |roots| == i - 1
      invariant w == roots[|roots| - 1]
    {
      match CM31Sqrt.TrySqrt(w)
      case None =>
        if NT.IsPrime(P) && i == 2 {
          MinusOneHasRoot();
          assert false;
        }
        ok := false;
        return;
      case Some(r) =>
        ReduceCanonical(w);
        TowerExtends(roots, r);
        w := r;
        roots := roots + [r];
    }
  }

  /** For p prime, -1 has a square root: i squares to it. So the first
      step of the loop always succeeds. */
  lemma MinusOneHasRoot()
    requires NT.IsPrime(P)
    ensures CM31Sqrt.TrySqrt(RootOfUnity2()).Some?
  {
    ReduceCanonical(RootOfUnity2());
    CM31Sqrt.TrySqrtComplete(RootOfUnity2(), RootOfUnity4(0));
  }

  /** A canonical square root of the last entry extends a tower. */
  lemma TowerExtends(roots: seq<CF>, r: CF)
    requires IsRootTower(roots) && IsCanonical(r) && Mul(r, r) == roots[|roots| - 1]
    ensures IsRootTower(roots + [r])
  {
    var t := roots + [r];
    assert forall k :: 0 <= k < |roots| ==> t[k] == roots[k];
  }

  /** Raising the k-th entry of a tower to the 2^k gives -1. */
  lemma {:induction false} TowerPower(roots: seq<CF>, k: nat)
    requires IsRootTower(roots) && k < |roots|
    ensures Power(roots[k], Pow2(k)) == RootOfUnity2()
  {
    if k == 0 {
      MulOne(RootOfUnity2());
      ReduceCanonical(RootOfUnity2());
    } else {
      TowerPower(roots, k - 1);
      PowerOfSquare(roots[k], Pow2(k - 1));
    }
  }

  /** The k-th entry of a tower is a primitive 2^(k+1)-th root of unity. */
  lemma TowerOrders(roots: seq<CF>, k: nat)
    requires IsRootTower(roots) && k < |roots|
    ensures HasOrder(roots[k], Pow2(k + 1))
  {
    TowerPower(roots, k);
    OrderFromHalf(roots[k], k);
  }
}
