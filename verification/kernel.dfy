/** The kernel functions (src/kernel.rs): a closed choice of pairwise
    similarity over feature vectors of reals. */
module Kernels {

  /** The floating-point primitives the engine calls but which are not
      modelled: `powf`, `exp` and `sqrt`. They are passed in as values, so
      nothing is assumed about them. */
  datatype Transcendentals = Transcendentals(
    powf: (real, real) -> real,
    exp: real -> real,
    sqrt: real -> real)

  datatype Kernel =
    | Linear
    | RationalQuadratic(gamma: real, alpha: real)
    | SquaredExponential(gamma: real)

  function Min(x: nat, y: nat): nat
  {
    if x <= y then x else y
  }

  /** The pairs of corresponding entries of two vectors, as many as the
      shorter vector has (the zip of src/kernel.rs:71, :81 and :93). */
  function Zip(a: seq<real>, b: seq<real>): (z: seq<(real, real)>)
    ensures |z| == Min(|a|, |b|)
    ensures forall i :: 0 <= i < |z| ==> z[i] == (a[i], b[i])
  {
    seq(Min(|a|, |b|), i requires 0 <= i < Min(|a|, |b|) => (a[i], b[i]))
  }

  /** `Kernel::compute`: dispatch on the variant. The linear kernel is the
      dot product; the other two see their arguments only through the
      squared distance (see `ComputeDistanceKernels`). */
  function Compute(k: Kernel, a: seq<real>, b: seq<real>, t: Transcendentals): (r: real)
    ensures k.Linear? ==> r == DotProduct(a, b)
  {
    match k
    case Linear => ComputeLinear(a, b)
    case RationalQuadratic(gamma, alpha) => ComputeRationalQuadratic(a, b, gamma, alpha, t.powf)
    case SquaredExponential(gamma) => ComputeSquaredExponential(a, b, gamma, t.exp)
  }

  /** `compute_linear`: the product fold over the zipped pairs, which is
      the dot product over the positions both vectors have; in particular
      it is zero when either vector is empty. */
  function ComputeLinear(a: seq<real>, b: seq<real>): (r: real)
    ensures r == DotProduct(a, b)
  {
    var z := Zip(a, b);
    assert Products(a, b) == PairProducts(z) by {
      forall i | 0 <= i < |z| ensures Products(a, b)[i] == PairProducts(z)[i] {
        ProductOfPair(a[i], b[i], z[i]);
      }
    }
    FoldProducts(z)
  }

  /** The fold of src/kernel.rs:72: starting from zero, each pair adds the
      product of its two sides to the running sum, from the left. The
      result is the reference sum of those products. */
  function FoldProducts(z: seq<(real, real)>): (r: real)
    ensures r == Sum(PairProducts(z))
  {
    if |z| == 0 then 0.0
    else
      var n := |z|;
      assert PairProducts(z)[..n - 1] == PairProducts(z[..n - 1]) by {
        forall i | 0 <= i < n - 1
          ensures PairProducts(z)[i] == PairProducts(z[..n - 1])[i]
        {
          ProductOfPair(z[i].0, z[i].1, z[..n - 1][i]);
        }
      }
      SumSnoc(PairProducts(z));
      FoldProducts(z[..n - 1]) + z[n - 1].0 * z[n - 1].1
  }

  /** The fold shared by the two distance-based kernels (src/kernel.rs:80-83
      and :92-95): starting from zero, each pair adds the square of the
      difference of its sides to the running sum, from the left. */
  function FoldSquaredDifferences(z: seq<(real, real)>): (r: real)
    ensures r >= 0.0
  {
    if |z| == 0 then 0.0
    else FoldSquaredDifferences(z[..|z| - 1]) + SquaredDifference(z[|z| - 1])
  }

  /** The step of that fold for one pair: `let diff = a - b; diff * diff`. */
  function SquaredDifference(p: (real, real)): (r: real)
    ensures r >= 0.0
  {
    var diff := p.0 - p.1;
    diff * diff
  }

  /** The squared distance both distance-based kernels compute (`ssd`):
      never negative. */
  function SquaredDistance(a: seq<real>, b: seq<real>): (r: real)
    ensures r >= 0.0
  {
    FoldSquaredDifferences(Zip(a, b))
  }

  /** `compute_rational_quadratic`: `(1 + gamma * ssd)^(-alpha)`. It sees
      its arguments only through the symmetric squared distance, and a point
      compared with itself gives `powf(1, -alpha)`. */
  function ComputeRationalQuadratic(a: seq<real>, b: seq<real>, gamma: real, alpha: real,
                                    powf: (real, real) -> real): (r: real)
    ensures r == RationalQuadraticOf(SquaredDistance(b, a), gamma, alpha, powf)
    ensures a == b ==> r == powf(1.0, -alpha)
  {
    SquaredDistanceSymmetric(a, b);
    SquaredDistanceOfAgreeing(a, a);
    RationalQuadraticOf(SquaredDistance(a, b), gamma, alpha, powf)
  }

  /** The rational-quadratic kernel as a function of the squared distance;
      at distance zero the base of the power is exactly one. */
  function RationalQuadraticOf(ssd: real, gamma: real, alpha: real,
                               powf: (real, real) -> real): (r: real)
    ensures ssd == 0.0 ==> r == powf(1.0, -alpha)
  {
    var base := 1.0 + gamma * ssd;
    TimesZero(gamma, ssd);
    assert ssd == 0.0 ==> base == 1.0;
    powf(base, -alpha)
  }

  /** `compute_squared_exponential`: `exp(-gamma * ssd)`. It sees its
      arguments only through the symmetric squared distance, and a point
      compared with itself gives `exp(0)`. */
  function ComputeSquaredExponential(a: seq<real>, b: seq<real>, gamma: real,
                                     exp: real -> real): (r: real)
    ensures r == SquaredExponentialOf(SquaredDistance(b, a), gamma, exp)
    ensures a == b ==> r == exp(0.0)
  {
    SquaredDistanceSymmetric(a, b);
    SquaredDistanceOfAgreeing(a, a);
    SquaredExponentialOf(SquaredDistance(a, b), gamma, exp)
  }

  /** The squared-exponential kernel as a function of the squared distance;
      at distance zero the exponent is exactly zero. */
  function SquaredExponentialOf(ssd: real, gamma: real, exp: real -> real): (r: real)
    ensures ssd == 0.0 ==> r == exp(0.0)
  {
    var e := -gamma * ssd;
    TimesZero(-gamma, ssd);
    assert ssd == 0.0 ==> e == 0.0;
    exp(e)
  }

  /** The sum of a sequence of reals, from the front. */
  function Sum(s: seq<real>): real
  {
    if |s| == 0 then 0.0 else s[0] + Sum(s[1..])
  }

  /** The products `a[i] * b[i]` over every position both vectors have. */
  function Products(a: seq<real>, b: seq<real>): (p: seq<real>)
    ensures |p| == Min(|a|, |b|)
    ensures forall i :: 0 <= i < |p| ==> p[i] == a[i] * b[i]
  {
    seq(Min(|a|, |b|), i requires 0 <= i < Min(|a|, |b|) => a[i] * b[i])
  }

  /** Reference definition of the dot product: the sum of the products of
      corresponding entries. */
  function DotProduct(a: seq<real>, b: seq<real>): real
  {
    Sum(Products(a, b))
  }

  /** Splitting off the last term of a sum. */
  lemma {:induction false} SumSnoc(s: seq<real>)
    requires |s| > 0
    ensures Sum(s) == Sum(s[..|s| - 1]) + s[|s| - 1]
    decreases |s|
  {
    if |s| > 1 {
      SumSnoc(s[1..]);
      assert s[1..][..|s| - 2] == s[..|s| - 1][1..];
    }
  }

  /** The product of each pair. */
  function PairProducts(z: seq<(real, real)>): (p: seq<real>)
    ensures |p| == |z|
    ensures forall i :: 0 <= i < |z| ==> p[i] == z[i].0 * z[i].1
  {
    seq(|z|, i requires 0 <= i < |z| => z[i].0 * z[i].1)
  }

  /** The product of a pair is the product of its two sides. */
  lemma ProductOfPair(x: real, y: real, p: (real, real))
    requires p == (x, y)
    ensures p.0 * p.1 == x * y
  {
  }

  /** The pairs with their two sides exchanged. */
  function Swapped(z: seq<(real, real)>): (s: seq<(real, real)>)
    ensures |s| == |z|
    ensures forall i :: 0 <= i < |z| ==> s[i] == (z[i].1, z[i].0)
  {
    seq(|z|, i requires 0 <= i < |z| => (z[i].1, z[i].0))
  }

  lemma {:induction false} FoldProductsSwapped(z: seq<(real, real)>)
    ensures FoldProducts(Swapped(z)) == FoldProducts(z)
    decreases |z|
  {
    if |z| > 0 {
      assert Swapped(z)[..|z| - 1] == Swapped(z[..|z| - 1]);
      FoldProductsSwapped(z[..|z| - 1]);
    }
  }

  lemma {:induction false} FoldSquaredDifferencesSwapped(z: seq<(real, real)>)
    ensures FoldSquaredDifferences(Swapped(z)) == FoldSquaredDifferences(z)
    decreases |z|
  {
    if |z| > 0 {
      assert Swapped(z)[..|z| - 1] == Swapped(z[..|z| - 1]);
      FoldSquaredDifferencesSwapped(z[..|z| - 1]);
      SquaredDifferenceSwapped(z[|z| - 1], Swapped(z)[|z| - 1]);
    }
  }

  /** A pair and its swap have the same squared difference. */
  lemma SquaredDifferenceSwapped(p: (real, real), q: (real, real))
    requires q == (p.1, p.0)
    ensures SquaredDifference(q) == SquaredDifference(p)
  {
    OppositeSquares(p.0 - p.1, q.0 - q.1);
  }

  /** Anything times zero is zero. */
  lemma TimesZero(x: real, y: real)
    ensures y == 0.0 ==> x * y == 0.0
  {
  }

  /** Opposite numbers have the same square. */
  lemma OppositeSquares(d: real, e: real)
    requires e == -d
    ensures e * e == d * d
  {
  }

  /** The linear kernel does not depend on the order of its arguments. */
  lemma ComputeLinearSymmetric(a: seq<real>, b: seq<real>)
    ensures ComputeLinear(a, b) == ComputeLinear(b, a)
  {
    assert Zip(b, a) == Swapped(Zip(a, b));
    FoldProductsSwapped(Zip(a, b));
  }

  /** The squared distance does not depend on the order of its arguments. */
  lemma SquaredDistanceSymmetric(a: seq<real>, b: seq<real>)
    ensures SquaredDistance(a, b) == SquaredDistance(b, a)
  {
    assert Zip(b, a) == Swapped(Zip(a, b));
    FoldSquaredDifferencesSwapped(Zip(a, b));
  }

  /** The squared-difference fold is zero when every pair is equal. */
  lemma {:induction false} FoldSquaredDifferencesOfEqualPairs(z: seq<(real, real)>)
    requires forall i :: 0 <= i < |z| ==> z[i].0 == z[i].1
    ensures FoldSquaredDifferences(z) == 0.0
    decreases |z|
  {
    if |z| > 0 {
      FoldSquaredDifferencesOfEqualPairs(z[..|z| - 1]);
    }
  }

  /** The squared-difference fold is at least the squared difference of
      each of its pairs. */
  lemma {:induction false} FoldSquaredDifferencesDominates(z: seq<(real, real)>, k: nat)
    requires k < |z|
    ensures FoldSquaredDifferences(z) >= SquaredDifference(z[k])
    decreases |z|
  {
    var n := |z|;
    if k < n - 1 {
      assert z[..n - 1][k] == z[k];
      FoldSquaredDifferencesDominates(z[..n - 1], k);
    }
  }

  /** A vector is at squared distance zero from any vector that agrees with
      it on every position both have; in particular from itself. */
  lemma SquaredDistanceOfAgreeing(a: seq<real>, b: seq<real>)
    requires a[..Min(|a|, |b|)] == b[..Min(|a|, |b|)]
    ensures SquaredDistance(a, b) == 0.0
  {
    var m := Min(|a|, |b|);
    var z := Zip(a, b);
    forall i | 0 <= i < m ensures z[i].0 == z[i].1 {
      assert a[..m][i] == b[..m][i];
    }
    FoldSquaredDifferencesOfEqualPairs(z);
  }

  /** The squared distance is at least the squared difference at any single
      position both vectors have. */
  lemma SquaredDistanceDominates(a: seq<real>, b: seq<real>, k: nat)
    requires k < Min(|a|, |b|)
    ensures SquaredDistance(a, b) >= (a[k] - b[k]) * (a[k] - b[k])
  {
    var z := Zip(a, b);
    FoldSquaredDifferencesDominates(z, k);
    assert z[k] == (a[k], b[k]);
    assert SquaredDifference(z[k]) == (a[k] - b[k]) * (a[k] - b[k]);
  }

  /** The rational-quadratic and squared-exponential variants are
      functions of the squared distance and their parameters alone. */
  lemma ComputeDistanceKernels(k: Kernel, a: seq<real>, b: seq<real>, t: Transcendentals)
    ensures k.RationalQuadratic? ==>
              Compute(k, a, b, t) == RationalQuadraticOf(SquaredDistance(a, b), k.gamma, k.alpha, t.powf)
    ensures k.SquaredExponential? ==>
              Compute(k, a, b, t) == SquaredExponentialOf(SquaredDistance(a, b), k.gamma, t.exp)
  {
  }

  /** Every kernel variant is symmetric: the linear one because products
      commute, the other two because they see their arguments only through
      the symmetric squared distance (see their contracts). */
  lemma ComputeSymmetric(k: Kernel, a: seq<real>, b: seq<real>, t: Transcendentals)
    ensures Compute(k, a, b, t) == Compute(k, b, a, t)
  {
    if k.Linear? {
      ComputeLinearSymmetric(a, b);
    }
  }

  /** Because `zip` stops at the shorter vector, every variant ignores the
      tail of the longer argument. */
  lemma ComputeTruncates(k: Kernel, a: seq<real>, b: seq<real>, t: Transcendentals)
    ensures var m := Min(|a|, |b|); Compute(k, a, b, t) == Compute(k, a[..m], b[..m], t)
  {
    var m := Min(|a|, |b|);
    assert Zip(a, b) == Zip(a[..m], b[..m]);
  }
}
