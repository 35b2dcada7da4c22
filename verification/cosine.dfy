/**
 Cosine similarity of two count vectors, in exact arithmetic.

 `cosineSimilarity` returns `dot / (sqrt(magA) * sqrt(magB))`, or 0 when the
 denominator is 0. The model keeps the exact integers instead of the square
 roots: a `Score` holds `dot` and `magA * magB`, and stands for the cosine
 `dot / sqrt(magA * magB)`. Because counts are non-negative, `dot` is too, so
 the cosine is the non-negative square root of `Squared()` and every
 comparison the engine makes on cosines can be made on `Squared()` instead
 (`CosineOrderIsSquaredOrder`).
 */
module Cosine {

  /** Every component is zero (vacuously so for the empty vector). */
  predicate IsZero(v: seq<nat>) {
    forall i :: 0 <= i < |v| ==> v[i] == 0
  }

  /** `dot`: the sum of `a[i] * b[i]`, accumulated front to back. */
  function Dot(a: seq<nat>, b: seq<nat>): nat
    requires |a| == |b|
  {
    if |a| == 0 then 0 else Dot(a[..|a| - 1], b[..|b| - 1]) + a[|a| - 1] * b[|b| - 1]
  }

  /** `magA`: the sum of the squares, i.e. the dot product with itself. */
  function Norm2(a: seq<nat>): nat {
    Dot(a, a)
  }

  /** A cosine given exactly by its dot product and the product of the squared norms. */
  datatype Score = Score(dot: nat, normProduct: nat) {

    /** The square of the cosine; 0 when the denominator is 0. */
    function Squared(): (r: real)
      ensures r >= 0.0
      ensures normProduct == 0 ==> r == 0.0
    {
      if normProduct == 0 then 0.0 else (dot * dot) as real / normProduct as real
    }
  }

  /** The score `0` that `getBestAnswer` starts from. */
  const Zero := Score(0, 0)

  /** `x` is the cosine that `s` stands for: the non-negative root of `s.Squared()`. */
  ghost predicate IsCosineOf(x: real, s: Score) {
    x >= 0.0 && x * x == s.Squared()
  }

  /**
   Comparing two cosines is comparing their squares, and `cosine < 0.05` is
   `Squared() < 0.0025`; so the model's comparisons agree with the source's.
   */
  lemma CosineOrderIsSquaredOrder(x: real, s: Score, y: real, t: Score)
    requires IsCosineOf(x, s) && IsCosineOf(y, t)
    ensures x > y <==> s.Squared() > t.Squared()
    ensures x < 0.05 <==> s.Squared() < 0.0025
  {
    SquareMonotone(x, y);
    SquareMonotone(0.05, x);
    assert 0.05 * 0.05 == 0.0025;
  }

  lemma SquareMonotone(x: real, y: real)
    requires x >= 0.0 && y >= 0.0
    ensures x > y <==> x * x > y * y
  {
    if x > y {
      assert x * x >= x * y >= y * y;
      assert x * x > y * y by {
        assert x * x - y * y == (x - y) * (x + y);
        assert (x - y) > 0.0 && (x + y) > 0.0;
      }
    } else {
      assert y * y >= y * x >= x * x;
    }
  }

  lemma {:induction false} NormZeroIff(a: seq<nat>)
    ensures Norm2(a) == 0 <==> IsZero(a)
  {
    if |a| > 0 {
      var init := a[..|a| - 1];
      NormZeroIff(init);
      assert forall i :: 0 <= i < |init| ==> init[i] == a[i];
      if a[|a| - 1] > 0 {
        assert a[|a| - 1] * a[|a| - 1] > 0;
      }
    }
  }

  lemma {:induction false} DotWithZero(a: seq<nat>, b: seq<nat>)
    requires |a| == |b| && IsZero(a)
    ensures Dot(a, b) == 0 && Dot(b, a) == 0
  {
    if |a| > 0 {
      DotWithZero(a[..|a| - 1], b[..|b| - 1]);
    }
  }

  lemma {:induction false} DotSymmetric(a: seq<nat>, b: seq<nat>)
    requires |a| == |b|
    ensures Dot(a, b) == Dot(b, a)
  {
    if |a| > 0 {
      DotSymmetric(a[..|a| - 1], b[..|b| - 1]);
      assert a[|a| - 1] * b[|b| - 1] == b[|b| - 1] * a[|a| - 1];
    }
  }

  function Square(z: int): nat {
    SquareNonNegative(z);
    z * z
  }

  lemma SquareNonNegative(z: int)
    ensures z * z >= 0
  {
    if z < 0 {
      assert z * z == (-z) * (-z);
    }
  }

  /** The sum of `(p * b[i] + q * a[i])^2`, a sum of squares. */
  function Quad(a: seq<nat>, b: seq<nat>, p: int, q: int): (r: int)
    requires |a| == |b|
    ensures r >= 0
  {
    if |a| == 0 then 0
    else
      var x, y := a[|a| - 1], b[|b| - 1];
      Quad(a[..|a| - 1], b[..|b| - 1], p, q) + Square(p * y + q * x)
  }

  lemma {:induction false} QuadExpand(a: seq<nat>, b: seq<nat>, p: int, q: int)
    requires |a| == |b|
    ensures Quad(a, b, p, q) == p * p * Norm2(b) + 2 * p * q * Dot(a, b) + q * q * Norm2(a)
  {
    if |a| > 0 {
      var a', b' := a[..|a| - 1], b[..|b| - 1];
      var x, y := a[|a| - 1], b[|b| - 1];
      QuadExpand(a', b', p, q);
      QuadStep(p, q, x, y, Norm2(a'), Norm2(b'), Dot(a', b'));
    }
  }

  /** One term of `QuadExpand`: adding a coordinate keeps the expansion. */
  lemma QuadStep(p: int, q: int, x: int, y: int, a: int, b: int, d: int)
    ensures p * p * b + 2 * p * q * d + q * q * a + (p * y + q * x) * (p * y + q * x)
         == p * p * (b + y * y) + 2 * p * q * (d + x * y) + q * q * (a + x * x)
  {
    assert (p * y + q * x) * (p * y + q * x) == p * p * (y * y) + 2 * p * q * (x * y) + q * q * (x * x);
    assert p * p * (b + y * y) == p * p * b + p * p * (y * y);
    assert 2 * p * q * (d + x * y) == 2 * p * q * d + 2 * p * q * (x * y);
    assert q * q * (a + x * x) == q * q * a + q * q * (x * x);
  }

  /** Cauchy–Schwarz for count vectors: `dot^2 <= magA * magB`. */
  lemma CauchySchwarz(a: seq<nat>, b: seq<nat>)
    requires |a| == |b|
    ensures Dot(a, b) * Dot(a, b) <= Norm2(a) * Norm2(b)
  {
    var A, B, D: int := Norm2(a), Norm2(b), Dot(a, b);
    if A == 0 {
      NormZeroIff(a);
      DotWithZero(a, b);
    } else {
      QuadExpand(a, b, A, -D);
      CauchySchwarzAlgebra(A, B, D);
      NegativeTimesPositive(A, A * B - D * D);
    }
  }

  lemma CauchySchwarzAlgebra(A: int, B: int, D: int)
    ensures A * A * B + 2 * A * (-D) * D + (-D) * (-D) * A == A * (A * B - D * D)
  {
  }

  lemma DivSelf(r: real)
    requires r > 0.0
    ensures r / r == 1.0
  {
  }

  lemma NegativeTimesPositive(k: int, x: int)
    requires k > 0
    ensures x < 0 ==> k * x < 0
  {
    if x < 0 {
      assert k * x <= x;
    }
  }

  /**
   `cosineSimilarity(a, b)`. The denominator is zero exactly when one of the
   vectors is all zero, and then the score is 0; otherwise it lies in [0, 1].
   */
  function CosineSimilarity(a: seq<nat>, b: seq<nat>): (s: Score)
    requires |a| == |b|
    ensures s.normProduct == 0 <==> IsZero(a) || IsZero(b)
    ensures IsZero(a) || IsZero(b) ==> s.Squared() == 0.0
    ensures s.Squared() <= 1.0
  {
    NormZeroIff(a);
    NormZeroIff(b);
    CauchySchwarz(a, b);
    var s := Score(Dot(a, b), Norm2(a) * Norm2(b));
    SquaredAtMostOne(s);
    s
  }

  /** A score whose squared dot product does not exceed its norm product is at most 1. */
  lemma SquaredAtMostOne(s: Score)
    requires s.dot * s.dot <= s.normProduct
    ensures s.Squared() <= 1.0
  {
    if s.normProduct > 0 {
      var n, d := s.normProduct as real, (s.dot * s.dot) as real;
      assert d <= n;
      assert d / n <= 1.0;
    }
  }

  /** The score does not depend on the order of its arguments. */
  lemma CosineSymmetric(a: seq<nat>, b: seq<nat>)
    requires |a| == |b|
    ensures CosineSimilarity(a, b) == CosineSimilarity(b, a)
  {
    DotSymmetric(a, b);
  }

  /** A vector that is not all zero has cosine 1 with itself. */
  lemma CosineSelf(v: seq<nat>)
    requires !IsZero(v)
    ensures CosineSimilarity(v, v).Squared() == 1.0
  {
    NormZeroIff(v);
    var m := Norm2(v);
    assert CosineSimilarity(v, v) == Score(m, m * m);
    assert m * m > 0;
    DivSelf((m * m) as real);
  }

  /** The accumulation loop of `cosineSimilarity`, index by index. */
  method ComputeCosine(a: seq<nat>, b: seq<nat>) returns (s: Score)
    requires |a| == |b|
    ensures s == CosineSimilarity(a, b)
  {
    var dot, magA, magB := 0, 0, 0;
    var i := 0;
    while i < |a|
      invariant 0 <= i <= |a|
      invariant dot == Dot(a[..i], b[..i])
      invariant magA == Norm2(a[..i]) && magB == Norm2(b[..i])
    {
      assert a[..i + 1][..i] == a[..i] && b[..i + 1][..i] == b[..i];
      dot := dot + a[i] * b[i];
      magA := magA + a[i] * a[i];
      magB := magB + b[i] * b[i];
      i := i + 1;
    }
    assert a[..i] == a && b[..i] == b;
    s := Score(dot, magA * magB);
  }
}
