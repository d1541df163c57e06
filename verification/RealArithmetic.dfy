/** Facts about products and quotients of reals that the solver needs spelled out. */
module RealArithmetic {

  function Times(x: real, y: real): real {
    x * y
  }

  function Squared(x: real): real {
    x * x
  }

  function Mean(total: real, n: nat): real
    requires n > 0
  {
    total / n as real
  }

  lemma Sign(k: real, d: real)
    requires k > 0.0
    ensures d > 0.0 ==> k * d > 0.0
    ensures d < 0.0 ==> k * d < 0.0
    ensures d == 0.0 ==> k * d == 0.0
  {
  }

  lemma Distribute(k: real, x: real, y: real)
    ensures k * (x - y) == k * x - k * y
    ensures k * (x + y) == k * x + k * y
  {
  }

  lemma Associate(x: real, y: real, z: real)
    ensures (x * y) * z == x * (y * z)
  {
  }

  lemma Compare(k: real, x: real, y: real)
    requires k > 0.0
    ensures k * x <= k * y <==> x <= y
    ensures k * x == k * y <==> x == y
  {
    Sign(k, y - x);
    Distribute(k, y, x);
  }

  lemma TimesSign(x: real, y: real)
    requires x > 0.0 && y > 0.0
    ensures Times(x, y) > 0.0
  {
    Sign(x, y);
  }

  lemma SquaredSign(x: real)
    ensures if x == 0.0 then Squared(x) == 0.0 else Squared(x) > 0.0
  {
    assert Squared(x) == Times(x, x) == Times(-x, -x) && Times(0.0, 0.0) == 0.0;
    hide Squared, Times;
    if x > 0.0 {
      TimesSign(x, x);
    } else if x < 0.0 {
      TimesSign(-x, -x);
    }
  }

  lemma SquaredTimes(x: real, y: real)
    ensures Squared(Times(x, y)) == Times(Squared(x), Squared(y))
  {
    Associate(x, y, x * y);
    Associate(y, x, y);
    Associate(x, x, y * y);
  }

  lemma SquareGrows(x: real, y: real)
    requires 0.0 <= x < y
    ensures x * x < y * y
  {
    Sign(y + x, y - x);
    Distribute(y + x, y, x);
    assert (y + x) * y - (y + x) * x == y * y - x * x;
  }

  lemma RootUnique(x: real, y: real)
    requires x >= 0.0 && y >= 0.0 && Squared(x) == Squared(y)
    ensures x == y
  {
    if x < y {
      SquareGrows(x, y);
    } else if y < x {
      SquareGrows(y, x);
    }
  }

  lemma MeanTotal(total: real, n: nat)
    requires n > 0
    ensures n as real * Mean(total, n) == total
  {
  }

  lemma MeanBounds(total: real, n: nat, bound: real)
    requires n > 0
    ensures n as real * bound <= total <==> bound <= Mean(total, n)
    ensures total <= n as real * bound <==> Mean(total, n) <= bound
  {
    MeanTotal(total, n);
    Compare(n as real, bound, Mean(total, n));
    Compare(n as real, Mean(total, n), bound);
  }

  lemma MeanScaled(c: real, total: real, n: nat)
    requires n > 0
    ensures Mean(Times(c, total), n) == Times(c, Mean(total, n))
  {
    var k, mean := n as real, Mean(total, n);
    MeanTotal(total, n);
    MeanTotal(c * total, n);
    Associate(c, k, mean);
    Associate(k, c, mean);
    Compare(k, Mean(c * total, n), c * mean);
  }

  lemma OneMore(n: nat, x: real)
    ensures Times((n + 1) as real, x) == Times(n as real, x) + x
  {
    Distribute(x, n as real, 1.0);
  }
}
