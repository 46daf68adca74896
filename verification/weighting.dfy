/**
 * Order facts about the weighted sum `(1 - w) * a + w * f`, kept apart from the reward module so
 * that the products are proved without the string theory around them.
 */
module Weighting {
  /** `(1 - w) * a + w * f`: weight `w` on the second term, the rest on the first. */
  function Weighted(w: real, a: real, f: real): real
  {
    (1.0 - w) * a + w * f
  }

  /** With `w` in [0, 1] the weighted sum lies between its two terms. */
  lemma WeightedBetween(w: real, a: real, f: real)
    requires 0.0 <= w <= 1.0
    ensures a <= f ==> a <= Weighted(w, a, f) <= f
    ensures f <= a ==> f <= Weighted(w, a, f) <= a
  {
    assert (1.0 - w) * a + w * f == a + w * (f - a);
    assert (1.0 - w) * a + w * f == f + (1.0 - w) * (a - f);
    if a <= f {
      NonNegativeProduct(w, f - a);
      NonNegativeProduct(1.0 - w, f - a);
    } else {
      NonNegativeProduct(w, a - f);
      NonNegativeProduct(1.0 - w, a - f);
    }
  }

  /** Below full weight on `f`, the sum grows strictly with `a`. */
  lemma WeightedIncreasesInFirst(w: real, a1: real, a2: real, f: real)
    requires w < 1.0 && a1 < a2
    ensures Weighted(w, a1, f) < Weighted(w, a2, f)
  {
    assert ((1.0 - w) * a2 + w * f) - ((1.0 - w) * a1 + w * f) == (1.0 - w) * (a2 - a1);
    PositiveProduct(1.0 - w, a2 - a1);
  }

  /** Above zero weight on `f`, the sum grows strictly with `f`. */
  lemma WeightedIncreasesInSecond(w: real, a: real, f1: real, f2: real)
    requires 0.0 < w && f1 < f2
    ensures Weighted(w, a, f1) < Weighted(w, a, f2)
  {
    var d := f2 - f1;
    PositiveProduct(w, d);
    assert w * f2 == w * f1 + w * d;
  }

  lemma NonNegativeProduct(x: real, y: real)
    requires 0.0 <= x && 0.0 <= y
    ensures 0.0 <= x * y
  {
  }

  lemma PositiveProduct(x: real, y: real)
    requires 0.0 < x && 0.0 < y
    ensures 0.0 < x * y
  {
  }
}
