/** Portfolio.h over the reals: weights, diversification index and fitness. */
module GaPortfolio {
  function Sum(p: seq<real>): real {
    if p == [] then 0.0 else Sum(p[..|p| - 1]) + p[|p| - 1]
  }

  function SumOfSquares(p: seq<real>): real {
    if p == [] then 0.0 else SumOfSquares(p[..|p| - 1]) + p[|p| - 1] * p[|p| - 1]
  }

  ghost predicate NonNegative(p: seq<real>) {
    forall i | 0 <= i < |p| :: p[i] >= 0.0
  }

  /** The share of risk of each stock, (weight * sigma)^2. */
  function Risks(weight: seq<real>, sigma: seq<real>): (p: seq<real>)
    requires |sigma| == |weight|
    ensures |p| == |weight|
  {
    seq(|weight|, i requires 0 <= i < |weight| => weight[i] * weight[i] * (sigma[i] * sigma[i]))
  }

  /** The squares of the distances from x add up to something that is not negative. */
  lemma {:induction false} Cross(p: seq<real>, x: real)
    ensures 2.0 * Sum(p) * x <= SumOfSquares(p) + (|p| as real) * x * x
  {
    if p != [] {
      var q, y := p[..|p| - 1], p[|p| - 1];
      Cross(q, x);
      assert (y - x) * (y - x) >= 0.0;
      assert 2.0 * (Sum(q) + y) * x == 2.0 * Sum(q) * x + 2.0 * y * x;
      assert (|p| as real) * x * x == (|q| as real) * x * x + x * x;
    }
  }

  /** Cauchy-Schwarz against the vector of ones. */
  lemma {:induction false} SquareOfSum(p: seq<real>)
    ensures Sum(p) * Sum(p) <= (|p| as real) * SumOfSquares(p)
  {
    if p != [] {
      var q, y := p[..|p| - 1], p[|p| - 1];
      SquareOfSum(q);
      Cross(q, y);
      assert (Sum(q) + y) * (Sum(q) + y) == Sum(q) * Sum(q) + 2.0 * Sum(q) * y + y * y;
      assert (|p| as real) * (SumOfSquares(q) + y * y)
        == (|q| as real) * SumOfSquares(q) + SumOfSquares(q) + (|q| as real) * y * y + y * y;
    }
  }

  lemma {:induction false} SquaresBelowSquare(p: seq<real>)
    requires NonNegative(p)
    ensures 0.0 <= Sum(p) && 0.0 <= SumOfSquares(p) <= Sum(p) * Sum(p)
  {
    if p != [] {
      var q, y := p[..|p| - 1], p[|p| - 1];
      SquaresBelowSquare(q);
      assert (Sum(q) + y) * (Sum(q) + y) == Sum(q) * Sum(q) + 2.0 * (Sum(q) * y) + y * y;
      assert Sum(q) * y >= 0.0 && y * y >= 0.0;
    }
  }

  /** Every element over the total. */
  function Scaled(w: seq<real>, total: real): (s: seq<real>)
    requires total != 0.0
    ensures |s| == |w|
  {
    seq(|w|, i requires 0 <= i < |w| => w[i] / total)
  }

  lemma {:induction false} SumOfScaled(w: seq<real>, total: real)
    requires total != 0.0
    ensures Sum(Scaled(w, total)) == Sum(w) / total
  {
    if w != [] {
      var v, y := w[..|w| - 1], w[|w| - 1];
      SumOfScaled(v, total);
      assert Scaled(w, total)[..|w| - 1] == Scaled(v, total);
      assert (Sum(v) + y) / total == Sum(v) / total + y / total;
    }
  }

  /** A total of 1 is what is left when a sum is divided by itself. */
  lemma Normalised(w: seq<real>)
    requires Sum(w) != 0.0
    ensures Sum(Scaled(w, Sum(w))) == 1.0
  {
    SumOfScaled(w, Sum(w));
    OverItself(Sum(w), Sum(w));
  }

  lemma OverItself(a: real, b: real)
    requires b != 0.0 && a == b
    ensures a / b == 1.0
  {}

  lemma RisksNonNegative(weight: seq<real>, sigma: seq<real>)
    requires |sigma| == |weight|
    ensures NonNegative(Risks(weight, sigma))
  {
    forall i | 0 <= i < |weight| ensures Risks(weight, sigma)[i] >= 0.0 {
      var a, b := weight[i] * weight[i], sigma[i] * sigma[i];
      assert a >= 0.0 && b >= 0.0;
      assert a * b >= 0.0;
    }
  }

  lemma PositiveFactor(x: real, b: real)
    requires b > 0.0 && x * b >= 0.0
    ensures x >= 0.0
  {}

  lemma QuotientAtMost(a: real, b: real, c: real)
    requires b > 0.0 && a <= c * b
    ensures a / b <= c
  {
    var x := a / b;
    assert x * b == a;
    assert (c - x) * b == c * b - x * b;
    PositiveFactor(c - x, b);
  }

  lemma QuotientAtLeast(a: real, b: real, c: real)
    requires b > 0.0 && a >= c * b
    ensures a / b >= c
  {
    var x := a / b;
    assert x * b == a;
    assert (x - c) * b == x * b - c * b;
    PositiveFactor(x - c, b);
  }

  /** pow(x, 2) */
  function Squared(x: real): real {
    x * x
  }

  lemma SquaredIs(x: real)
    ensures Squared(x) == x * x
  {}

  lemma SquaredPositive(x: real)
    requires x > 0.0
    ensures Squared(x) > 0.0
  {
    assert x * x * (1.0 / x) == x;
  }

  /** The index of a vector of shares: at most 1, and at least what it is when all are equal. */
  lemma IndexBetween(p: seq<real>)
    requires NonNegative(p) && Sum(p) > 0.0
    ensures Squared(Sum(p)) > 0.0 && |p| > 0
    ensures 1.0 / (|p| as real) <= SumOfSquares(p) / Squared(Sum(p)) <= 1.0
    ensures SumOfSquares(p) / Squared(Sum(p)) * Squared(Sum(p)) == SumOfSquares(p)
  {
    SquareOfSum(p);
    SquaresBelowSquare(p);
    SquaredPositive(Sum(p));
    assert Squared(Sum(p)) == Sum(p) * Sum(p);
    hide Squared, SumOfSquares;
    Between(|p| as real, Squared(Sum(p)), SumOfSquares(p));
  }

  lemma Between(n: real, t: real, q: real)
    requires n > 0.0 && t > 0.0 && q <= t <= n * q
    ensures 1.0 / n <= q / t <= 1.0
  {
    QuotientAtMost(q, t, 1.0);
    QuotientAtMost(t, n, q);
    assert t / n == 1.0 / n * t;
    QuotientAtLeast(q, t, 1.0 / n);
  }

  lemma InverseBetween(n: real, h: real)
    requires n > 0.0 && 1.0 / n <= h <= 1.0
    ensures h > 0.0 && 1.0 <= 1.0 / h <= n
  {
    var r := 1.0 / n;
    assert r * n == 1.0;
    PositiveFactor(r, n);
    assert r != 0.0;
    assert (h - r) * n >= 0.0;
    QuotientAtLeast(1.0, h, 1.0);
    QuotientAtMost(1.0, h, n);
  }

  class Portfolio {
    const weight: array<real>
    const sigma: seq<real>
    var sharperatio: real
    var diverindex: real
    var dividendyield: real
    var fitness: real

    /** The weights of the ten stocks are divided by their total. */
    constructor (weights: seq<real>, sigma: seq<real>)
      requires |weights| == |sigma| == 10 && Sum(weights) != 0.0
      ensures fresh(weight) && this.sigma == sigma
      ensures weight[..] == Scaled(weights, Sum(weights)) && Sum(weight[..]) == 1.0
    {
      weight := new real[10](i requires 0 <= i < 10 => weights[i]);
      this.sigma := sigma;
      new;
      var total := 0.0;
      for n := 0 to 10
        invariant total == Sum(weights[..n]) && forall k | 0 <= k < 10 :: weight[k] == weights[k]
      {
        assert weights[..n + 1][..n] == weights[..n];
        total := total + weight[n];
      }
      assert weights[..10] == weights;
      for n := 0 to 10
        invariant forall k | 0 <= k < 10 :: weight[k] == if k < n then weights[k] / total else weights[k]
      {
        weight[n] := weight[n] / total;
      }
      assert weight[..] == Scaled(weights, total);
      Normalised(weights);
    }

    /** The sum of the squared shares of risk lies between 1/n, for equal shares, and 1. */
    method SetDiverIndex()
      requires weight.Length == |sigma| > 0 && Sum(Risks(weight[..], sigma)) > 0.0
      modifies this`diverindex
      ensures var p := Risks(weight[..], sigma); diverindex * (Sum(p) * Sum(p)) == SumOfSquares(p)
      ensures 1.0 / (|sigma| as real) <= diverindex <= 1.0
    {
      hide Sum, SumOfSquares, Risks, Squared;
      RisksNonNegative(weight[..], sigma);
      IndexBetween(Risks(weight[..], sigma));
      var total, h := AddUp();
      SquaredIs(total);
      diverindex := h / Squared(total);
    }

    /** The loop of SetDiverIndex. */
    method AddUp() returns (total: real, h: real)
      requires weight.Length == |sigma|
      ensures var p := Risks(weight[..], sigma); total == Sum(p) && h == SumOfSquares(p)
    {
      ghost var risks := Risks(weight[..], sigma);
      total, h := 0.0, 0.0;
      for i := 0 to weight.Length
        invariant total == Sum(risks[..i]) && h == SumOfSquares(risks[..i])
      {
        var p := weight[i] * weight[i] * (sigma[i] * sigma[i]);
        assert risks[..i + 1][..i] == risks[..i] && risks[i] == p;
        total := total + p;
        h := h + p * p;
      }
      assert risks[..weight.Length] == risks;
    }

    /** The term of the diversification in the fitness lies between 0.2 and 0.2 times the number of stocks. */
    method AssignFitness()
      requires |sigma| > 0 && 1.0 / (|sigma| as real) <= diverindex <= 1.0
      modifies this`fitness
      ensures var term := fitness - 60.0 * sharperatio - 20.0 * dividendyield;
        term * diverindex == 0.2 && 0.2 <= term <= 0.2 * (|sigma| as real)
    {
      InverseBetween(|sigma| as real, diverindex);
      fitness := 0.6 * 100.0 * sharperatio + 0.2 * 100.0 * dividendyield + 0.2 * (1.0 / diverindex);
    }
  }
}
