/** Products: the one lemma about their order that nonlinear proofs need, and the product of a vector. */
module Arithmetic {

  lemma MulMonotone(x: int, y: int, p: int)
    requires x <= y && 0 <= p
    ensures x * p <= y * p && p * x <= p * y
  {
    assert 0 <= (y - x) * p;
  }

  lemma MulReorder(a: int, b: int, c: int)
    ensures a * (b * c) == b * (a * c)
  {
    assert a * (b * c) == (a * b) * c;
  }

  lemma MulDistribute(w: int, a: int, b: int)
    ensures w * (a + b) == w * a + w * b
  {
  }

  /** `n` times `size`, as a sum. */
  function Times(n: nat, size: nat): nat {
    if n == 0 then 0 else size + Times(n - 1, size)
  }

  lemma {:induction false} TimesIsProduct(n: nat, size: nat)
    ensures Times(n, size) == n * size
  {
    if n > 0 {
      TimesIsProduct(n - 1, size);
      assert n * size == size + (n - 1) * size;
    }
  }

  function Product(ds: seq<int>): int {
    if ds == [] then 1 else ds[0] * Product(ds[1..])
  }

  lemma ProductFrom(ds: seq<int>, i: nat)
    requires i < |ds|
    ensures Product(ds[i..]) == Product(ds[i + 1..]) * ds[i]
  {
    assert ds[i..][1..] == ds[i + 1..];
  }

  ghost predicate NonNegative(ds: seq<int>) {
    forall i :: 0 <= i < |ds| ==> 0 <= ds[i]
  }

  /** A product of non-negative factors is positive exactly when every factor is. */
  lemma {:induction false} ProductSign(ds: seq<int>)
    requires NonNegative(ds)
    ensures 0 <= Product(ds)
    ensures 0 < Product(ds) <==> forall i :: 0 <= i < |ds| ==> 0 < ds[i]
  {
    if ds != [] {
      ProductSign(ds[1..]);
      assert forall i :: 1 <= i < |ds| ==> ds[i] == ds[1..][i - 1];
    }
  }
}
