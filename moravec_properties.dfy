/**
 * Properties of the cornerness the engine computes (`MoravecEngine.CornerScore`, which
 * `MoravecEngine.MoravacAlgorithm` returns cell by cell).
 */
module MoravecProperties {
  import opened MoravecEngine

  /** The unclamped score lies between 0 and the sentinel: variations are sums of squares. */
  lemma NeighbourMinBounds(image: array2<real>, w: int, l: int, x: int, y: int)
    requires ValidInput(image, w, l) && InInterior(w, l, x, y)
    ensures 0.0 <= NeighbourMin(image, w, l, x, y) <= Sentinel
  {
    assert 0.0 <= IntensityVariation(image, w, l, x + 1, y - 1);
    assert 0.0 <= IntensityVariation(image, w, l, x + 1, y);
    assert 0.0 <= IntensityVariation(image, w, l, x + 1, y + 1);
  }

  /** The comparison with the threshold is strict: a minimum equal to it is kept. */
  lemma MinimumAtThresholdIsKept(image: array2<real>, w: int, l: int, threshold: int, x: int, y: int)
    requires ValidInput(image, w, l) && InInterior(w, l, x, y)
    requires NeighbourMin(image, w, l, x, y) == threshold as real
    ensures CornerScore(image, w, l, threshold, x, y) == threshold as real
  {
  }

  /** A higher threshold only turns scores into 0: a score that survives it is unchanged, and
      a score already 0 stays 0. */
  lemma ThresholdMonotone(image: array2<real>, w: int, l: int, t1: int, t2: int, x: int, y: int)
    requires ValidInput(image, w, l) && t1 <= t2
    ensures CornerScore(image, w, l, t2, x, y) != 0.0 ==> CornerScore(image, w, l, t1, x, y) == CornerScore(image, w, l, t2, x, y)
    ensures CornerScore(image, w, l, t1, x, y) == 0.0 ==> CornerScore(image, w, l, t2, x, y) == 0.0
  {
  }

  /** An interior cell on the last interior row (x = w - 3) or the first or last interior
      column (y = 3, y = l - 3) reads a pass-1 cell outside the interior, which holds 0, so its
      score is 0 whatever the image and the threshold. */
  lemma EdgeCellsScoreZero(image: array2<real>, w: int, l: int, threshold: int, x: int, y: int)
    requires ValidInput(image, w, l) && InInterior(w, l, x, y)
    requires x == w - 3 || y == 3 || y == l - 3
    ensures CornerScore(image, w, l, threshold, x, y) == 0.0
  {
    NeighbourMinBounds(image, w, l, x, y);
    if x == w - 3 || y == l - 3 {
      assert IntensityVariation(image, w, l, x + 1, y + 1) == 0.0;
    } else {
      assert IntensityVariation(image, w, l, x + 1, y - 1) == 0.0;
    }
  }

  /** Only cells with 3 <= x <= w - 4 and 4 <= y <= l - 4 can score above 0. */
  lemma ScoredCellsAreInner(image: array2<real>, w: int, l: int, threshold: int, x: int, y: int)
    requires ValidInput(image, w, l)
    requires CornerScore(image, w, l, threshold, x, y) != 0.0
    ensures 3 <= x <= w - 4 && 4 <= y <= l - 4
  {
    if x == w - 3 || y == 3 || y == l - 3 {
      EdgeCellsScoreZero(image, w, l, threshold, x, y);
    }
  }

  /** A grid narrower than 7 (in x) or shorter than 8 (in y) scores 0 everywhere; in
      particular every 7 x 7 grid does, and so does every grid with fewer than 6 cells
      along either side, whose interior is empty. */
  lemma SmallGridScoresZero(image: array2<real>, w: int, l: int, threshold: int)
    requires ValidInput(image, w, l) && (w < 7 || l < 8)
    ensures forall x, y :: CornerScore(image, w, l, threshold, x, y) == 0.0
  {
    forall x, y ensures CornerScore(image, w, l, threshold, x, y) == 0.0 {
      if CornerScore(image, w, l, threshold, x, y) != 0.0 {
        ScoredCellsAreInner(image, w, l, threshold, x, y);
      }
    }
  }

  /** A grid whose cells all hold the same intensity scores 0 everywhere, for any threshold. */
  lemma UniformGridScoresZero(image: array2<real>, w: int, l: int, threshold: int, k: real)
    requires ValidInput(image, w, l)
    requires forall a, b :: 0 <= a < image.Length0 && 0 <= b < image.Length1 ==> image[a, b] == k
    ensures forall x, y :: CornerScore(image, w, l, threshold, x, y) == 0.0
  {
    forall x, y ensures CornerScore(image, w, l, threshold, x, y) == 0.0 {
      if InInterior(w, l, x, y) {
        FlatVariation(image, w, l, k, x + 1, y - 1);
        FlatVariation(image, w, l, k, x + 1, y);
        FlatVariation(image, w, l, k, x + 1, y + 1);
      }
    }
  }

  lemma FlatVariation(image: array2<real>, w: int, l: int, k: real, a: int, b: int)
    requires ValidInput(image, w, l)
    requires forall a, b :: 0 <= a < image.Length0 && 0 <= b < image.Length1 ==> image[a, b] == k
    ensures IntensityVariation(image, w, l, a, b) == 0.0
  {
    if InInterior(w, l, a, b) {
      assert forall u, v :: -1 <= u <= 1 && -1 <= v <= 1 ==> ShiftTerm(image, a, b, u, v) == 0.0;
    }
  }

  /** On the gradient grid I[a][b] = a + b every interior cell has variation 12
      (4 + 1 + 0 + 1 + 1 + 0 + 1 + 4), so exactly the cells with 3 <= x <= w - 4 and
      4 <= y <= l - 4 score 12 when the threshold is at most 12; all others score 0. */
  lemma GradientGridScores(image: array2<real>, w: int, l: int, threshold: int, x: int, y: int)
    requires ValidInput(image, w, l)
    requires forall a, b :: 0 <= a < image.Length0 && 0 <= b < image.Length1 ==> image[a, b] == (a + b) as real
    ensures CornerScore(image, w, l, threshold, x, y) ==
      if InInterior(w, l, x, y) && x <= w - 4 && 4 <= y <= l - 4 && threshold <= 12 then 12.0 else 0.0
  {
    if InInterior(w, l, x, y) {
      if x <= w - 4 && 4 <= y <= l - 4 {
        GradientNeighbourMin(image, w, l, x, y);
      } else {
        EdgeCellsScoreZero(image, w, l, threshold, x, y);
      }
    }
  }

  lemma GradientNeighbourMin(image: array2<real>, w: int, l: int, x: int, y: int)
    requires ValidInput(image, w, l) && InInterior(w, l, x, y) && x <= w - 4 && 4 <= y <= l - 4
    requires forall a, b :: 0 <= a < image.Length0 && 0 <= b < image.Length1 ==> image[a, b] == (a + b) as real
    ensures NeighbourMin(image, w, l, x, y) == 12.0
  {
    GradientVariation(image, w, l, x + 1, y - 1);
    GradientVariation(image, w, l, x + 1, y);
    GradientVariation(image, w, l, x + 1, y + 1);
  }

  lemma GradientVariation(image: array2<real>, w: int, l: int, a: int, b: int)
    requires ValidInput(image, w, l) && InInterior(w, l, a, b)
    requires forall a, b :: 0 <= a < image.Length0 && 0 <= b < image.Length1 ==> image[a, b] == (a + b) as real
    ensures IntensityVariation(image, w, l, a, b) == 12.0
  {
    GradientShift(image, w, l, a, b, -1, -1);
    GradientShift(image, w, l, a, b, -1, 0);
    GradientShift(image, w, l, a, b, -1, 1);
    GradientShift(image, w, l, a, b, 0, -1);
    GradientShift(image, w, l, a, b, 0, 1);
    GradientShift(image, w, l, a, b, 1, -1);
    GradientShift(image, w, l, a, b, 1, 0);
    GradientShift(image, w, l, a, b, 1, 1);
  }

  lemma GradientShift(image: array2<real>, w: int, l: int, a: int, b: int, u: int, v: int)
    requires ValidInput(image, w, l) && InInterior(w, l, a, b) && -1 <= u <= 1 && -1 <= v <= 1
    requires forall a, b :: 0 <= a < image.Length0 && 0 <= b < image.Length1 ==> image[a, b] == (a + b) as real
    ensures ShiftTerm(image, a, b, u, v) == Sq((u + v) as real)
  {
    assert image[a + u, b + v] - image[a, b] == (u + v) as real;
  }
}
