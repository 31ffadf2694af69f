// The secp256k1 group as the crate uses it: points are their discrete
// logarithms in Z_n, with 0 the point at infinity, and the x coordinate, the
// parity of y and the lift from x are parameters.

module Curve {
  import opened Wrappers
  import opened Bytes
  import opened Hashing

  datatype Group = Group(n: nat, x: nat -> Digest, odd: nat -> bool, lift: Digest -> Option<nat>) {

    /** A nonzero scalar, and so the logarithm of a finite point. */
    predicate Scalar(k: int) {
      1 <= k < n
    }

    /** The order is odd and fits 32 bytes, exactly one of a point and its
        negation has even y, they and only they share x, and lifting an x
        finds the even one. */
    ghost predicate Valid() {
      && n >= 3 && n % 2 == 1 && n < Pow256(32)
      && (forall k: nat {:trigger Negate(k)} | Scalar(k) :: x(Negate(k)) == x(k) && odd(Negate(k)) != odd(k))
      && (forall j: nat, k: nat | Scalar(j) && Scalar(k) && x(j) == x(k) :: j == k || j == n - k)
      && (forall b: Digest, k: nat :: lift(b) == Some(k) <==> Scalar(k) && x(k) == b && !odd(k))
    }

    function Add(a: nat, b: nat): (r: nat)
      requires n > 0
      ensures r < n
    {
      Reduce(a + b)
    }

    function Reduce(k: nat): (r: nat)
      requires n > 0
      ensures r < n
    {
      k % n
    }

    function Negate(k: nat): (r: nat)
      ensures Scalar(k) ==> r == n - k
    {
      if Scalar(k) then n - k else 0
    }

    function Parity(k: nat): nat {
      if odd(k) then 1 else 0
    }

    /** The logarithm of the even-y point that shares `k`'s x coordinate. */
    function EvenOf(k: nat): nat
      requires Scalar(k)
    {
      if odd(k) then Negate(k) else k
    }

    lemma LiftOfX(k: nat)
      requires Valid() && Scalar(k)
      ensures Scalar(EvenOf(k)) && lift(x(k)) == Some(EvenOf(k))
    {
      assert x(Negate(k)) == x(k);
    }
  }

  /** Points 1 and 2, each the other's negation. */
  function ThreePoints(): Group {
    var only: Digest := seq(32, _ => 0);
    Group(3, _ => only, k => k == 2, b => if b == only then Some(1) else None)
  }

  /** Nothing asked of a group contradicts itself: three points already meet it. */
  lemma GroupsExist()
    ensures ThreePoints().Valid()
  {
    var g := ThreePoints();
    assert g.n < Pow256(32) by {
      assert Pow256(32) == 256 * Pow256(31);
    }
    hide Pow256;
    assert forall j: nat | g.Scalar(j) :: j == 1 || j == 2;
  }
}
