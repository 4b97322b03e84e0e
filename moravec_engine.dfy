/**
 * The Moravec engine: two passes over the interior of an intensity grid.
 *
 * Pass 1 stores, for every interior cell (x, y), the sum over the eight shifts (u, v) of
 * (I[x+u][y+v] - I[x][y])^2.  Pass 2 scores each interior cell from the pass-1 values of
 * its neighbours, clamping scores below the threshold to 0.  Pass 2 is modelled as the
 * loops are written: the threshold test and the store into `cornerness[x][y]` sit inside
 * the `u` loop, so the stored score is the one computed from row x + 1 alone.
 *
 * The grid is indexed `image[x, y]` with x below `w` (the image width argument) and y
 * below `l` (the image length argument).  Doubles are modelled as exact reals.
 */
module MoravecEngine {

  /** The initial value of the running minimum, and its value after every reset. */
  const Sentinel: real := 999999999.0

  /** The cells both passes visit: x in [3, w - 3] and y in [3, l - 3]. */
  predicate InInterior(w: int, l: int, x: int, y: int) {
    3 <= x <= w - 3 && 3 <= y <= l - 3
  }

  /** What the engine demands of its caller: non-negative dimensions and, when the interior
      is not empty, a grid reaching the largest indexes read, w - 2 and l - 2. */
  predicate ValidInput(image: array2<real>, w: int, l: int) {
    && 0 <= w && 0 <= l
    && (6 <= w && 6 <= l ==> w - 1 <= image.Length0 && l - 1 <= image.Length1)
  }

  /** `Math.pow(d, 2.0)`. */
  function Sq(d: real): (r: real)
    ensures 0.0 <= r
  {
    d * d
  }

  /** The squared intensity difference under the shift (u, v). */
  function ShiftTerm(image: array2<real>, x: int, y: int, u: int, v: int): real
    reads image
    requires 1 <= x < image.Length0 - 1 && 1 <= y < image.Length1 - 1
    requires -1 <= u <= 1 && -1 <= v <= 1
  {
    Sq(image[x + u, y + v] - image[x, y])
  }

  /** The intensity variation of cell (x, y): its squared differences with its eight neighbours. */
  function Variation(image: array2<real>, x: int, y: int): (s: real)
    reads image
    requires 1 <= x < image.Length0 - 1 && 1 <= y < image.Length1 - 1
    ensures 0.0 <= s
  {
    ShiftTerm(image, x, y, -1, -1) + ShiftTerm(image, x, y, -1, 0) + ShiftTerm(image, x, y, -1, 1) +
    ShiftTerm(image, x, y, 0, -1)                                   + ShiftTerm(image, x, y, 0, 1) +
    ShiftTerm(image, x, y, 1, -1)  + ShiftTerm(image, x, y, 1, 0)  + ShiftTerm(image, x, y, 1, 1)
  }

  /** What iteration (u, v) of pass 1 adds to the running sum: nothing for (0, 0). */
  function ShiftContribution(image: array2<real>, x: int, y: int, u: int, v: int): real
    reads image
    requires 1 <= x < image.Length0 - 1 && 1 <= y < image.Length1 - 1
    requires -1 <= u <= 1 && -1 <= v <= 1
  {
    if u == 0 && v == 0 then 0.0 else ShiftTerm(image, x, y, u, v)
  }

  /** The contributions of the first `m` iterations of the `v` loop for shift row `u`. */
  function RowPartial(image: array2<real>, x: int, y: int, u: int, m: nat): real
    reads image
    requires 1 <= x < image.Length0 - 1 && 1 <= y < image.Length1 - 1
    requires -1 <= u <= 1 && m <= 3
    decreases m
  {
    if m == 0 then 0.0 else RowPartial(image, x, y, u, m - 1) + ShiftContribution(image, x, y, u, m - 2)
  }

  /** The running sum pass 1 holds for cell (x, y) after the first `k` iterations of the `u` loop. */
  function PartialVariation(image: array2<real>, x: int, y: int, k: nat): real
    reads image
    requires 1 <= x < image.Length0 - 1 && 1 <= y < image.Length1 - 1
    requires k <= 3
    decreases k
  {
    if k == 0 then 0.0 else PartialVariation(image, x, y, k - 1) + RowPartial(image, x, y, k - 2, 3)
  }

  /** Shift row `u` contributes its three shifts, less (0, 0). */
  lemma {:induction false} RowPartialComplete(image: array2<real>, x: int, y: int, u: int)
    requires 1 <= x < image.Length0 - 1 && 1 <= y < image.Length1 - 1
    requires -1 <= u <= 1
    ensures RowPartial(image, x, y, u, 3) ==
      ShiftContribution(image, x, y, u, -1) + ShiftContribution(image, x, y, u, 0) + ShiftContribution(image, x, y, u, 1)
  {
    assert RowPartial(image, x, y, u, 1) == ShiftContribution(image, x, y, u, -1);
    assert RowPartial(image, x, y, u, 2) == RowPartial(image, x, y, u, 1) + ShiftContribution(image, x, y, u, 0);
  }

  /** After the whole `u` loop the running sum is the intensity variation. */
  lemma {:induction false} PartialVariationComplete(image: array2<real>, x: int, y: int)
    requires 1 <= x < image.Length0 - 1 && 1 <= y < image.Length1 - 1
    ensures PartialVariation(image, x, y, 3) == Variation(image, x, y)
  {
    RowPartialComplete(image, x, y, -1);
    RowPartialComplete(image, x, y, 0);
    RowPartialComplete(image, x, y, 1);
    assert PartialVariation(image, x, y, 1) == RowPartial(image, x, y, -1, 3);
    assert PartialVariation(image, x, y, 2) == PartialVariation(image, x, y, 1) + RowPartial(image, x, y, 0, 3);
  }

  /** The value pass 1 leaves in `intenseVar[a][b]`: the variation inside the interior, the
      initial 0 everywhere else. */
  function IntensityVariation(image: array2<real>, w: int, l: int, a: int, b: int): (s: real)
    reads image
    requires ValidInput(image, w, l)
    ensures 0.0 <= s
    ensures !InInterior(w, l, a, b) ==> s == 0.0
  {
    if InInterior(w, l, a, b) then Variation(image, a, b) else 0.0
  }

  /** One step of the running minimum: `if (cornerVal < min_cornerVal) min_cornerVal = cornerVal`. */
  function Min(m: real, c: real): (r: real)
    ensures r <= m && r <= c
    ensures r == m || r == c
  {
    if c < m then c else m
  }

  /** The threshold test: a minimum strictly below the threshold becomes 0, any other is kept. */
  function Clamp(m: real, threshold: int): (r: real)
    ensures r == 0.0 || r == m
    ensures r == m <==> (threshold as real <= m || m == 0.0)
  {
    if m < threshold as real then 0.0 else m
  }

  /** The running minimum over row `r` of the pass-1 values, after the first `n` iterations of
      the `v` loop at column y: the sentinel, then y - 1, y, y + 1. */
  function RunningMin(intenseVar: array2<real>, r: int, y: int, n: nat): (m: real)
    reads intenseVar
    requires 0 <= r < intenseVar.Length0 && 1 <= y && y + 1 < intenseVar.Length1
    requires n <= 3
    ensures m <= Sentinel
    ensures 1 <= n ==> m <= intenseVar[r, y - 1]
    ensures 2 <= n ==> m <= intenseVar[r, y]
    ensures 3 <= n ==> m <= intenseVar[r, y + 1]
    ensures || m == Sentinel
            || (1 <= n && m == intenseVar[r, y - 1])
            || (2 <= n && m == intenseVar[r, y])
            || (3 <= n && m == intenseVar[r, y + 1])
    decreases n
  {
    if n == 0 then Sentinel else Min(RunningMin(intenseVar, r, y, n - 1), intenseVar[r, y + n - 2])
  }

  /** The score pass 2 leaves in `cornerness[x][y]`, read off the pass-1 grid: the clamped
      minimum of the sentinel and row x + 1 (the last `u` iteration) at columns y - 1 .. y + 1. */
  function Score(intenseVar: array2<real>, w: int, l: int, threshold: int, x: int, y: int): (s: real)
    reads intenseVar
    requires intenseVar.Length0 == w && intenseVar.Length1 == l
    ensures s <= Sentinel
    ensures s == 0.0 || threshold as real <= s
    ensures !InInterior(w, l, x, y) ==> s == 0.0
  {
    if InInterior(w, l, x, y) then Clamp(RunningMin(intenseVar, x + 1, y, 3), threshold) else 0.0
  }

  /** The unclamped score of an interior cell, in terms of the input grid. */
  function NeighbourMin(image: array2<real>, w: int, l: int, x: int, y: int): (m: real)
    reads image
    requires ValidInput(image, w, l) && InInterior(w, l, x, y)
    ensures m <= Sentinel
    ensures m <= IntensityVariation(image, w, l, x + 1, y - 1)
    ensures m <= IntensityVariation(image, w, l, x + 1, y)
    ensures m <= IntensityVariation(image, w, l, x + 1, y + 1)
    ensures || m == Sentinel
            || m == IntensityVariation(image, w, l, x + 1, y - 1)
            || m == IntensityVariation(image, w, l, x + 1, y)
            || m == IntensityVariation(image, w, l, x + 1, y + 1)
  {
    Min(Min(Min(Sentinel,
                IntensityVariation(image, w, l, x + 1, y - 1)),
                IntensityVariation(image, w, l, x + 1, y)),
                IntensityVariation(image, w, l, x + 1, y + 1))
  }

  /** The cornerness the engine returns for cell (x, y) of the input grid. */
  function CornerScore(image: array2<real>, w: int, l: int, threshold: int, x: int, y: int): (s: real)
    reads image
    requires ValidInput(image, w, l)
    ensures 0.0 <= s <= Sentinel
    ensures s == 0.0 || threshold as real <= s
    ensures !InInterior(w, l, x, y) ==> s == 0.0
  {
    if InInterior(w, l, x, y) then Clamp(NeighbourMin(image, w, l, x, y), threshold) else 0.0
  }

  /** The body of the `v` loop of pass 1: unless (u, v) is (0, 0), `intenseVar[x][y]` gains
      the squared difference for shift (u, v), by way of `old_intenseVar[x][y]`. */
  method AddShift(image: array2<real>, intenseVar: array2<real>, oldIntenseVar: array2<real>,
                  x: int, y: int, u: int, v: int)
    requires 1 <= x < image.Length0 - 1 && 1 <= y < image.Length1 - 1 && -1 <= u <= 1 && -1 <= v <= 1
    requires 0 <= x < intenseVar.Length0 && 0 <= y < intenseVar.Length1
    requires 0 <= x < oldIntenseVar.Length0 && 0 <= y < oldIntenseVar.Length1
    requires intenseVar != image && oldIntenseVar != image && intenseVar != oldIntenseVar
    modifies intenseVar, oldIntenseVar
    ensures intenseVar[x, y] == old(intenseVar[x, y]) + ShiftContribution(image, x, y, u, v)
    ensures forall a, b :: 0 <= a < intenseVar.Length0 && 0 <= b < intenseVar.Length1 && (a != x || b != y) ==>
      intenseVar[a, b] == old(intenseVar[a, b])
  {
    if v == 0 && u == 0 {
    } else {
      oldIntenseVar[x, y] := intenseVar[x, y];
      intenseVar[x, y] := Sq(image[x + u, y + v] - image[x, y]);
      intenseVar[x, y] := intenseVar[x, y] + oldIntenseVar[x, y];
    }
  }

  /** The `u` and `v` loops of pass 1 for one cell: `intenseVar[x][y]` gains the cell's
      variation, accumulated through `old_intenseVar[x][y]`; no other cell of `intenseVar` changes. */
  method AccumulateVariation(image: array2<real>, intenseVar: array2<real>, oldIntenseVar: array2<real>, x: int, y: int)
    requires 1 <= x < image.Length0 - 1 && 1 <= y < image.Length1 - 1
    requires 0 <= x < intenseVar.Length0 && 0 <= y < intenseVar.Length1
    requires 0 <= x < oldIntenseVar.Length0 && 0 <= y < oldIntenseVar.Length1
    requires intenseVar != image && oldIntenseVar != image && intenseVar != oldIntenseVar
    modifies intenseVar, oldIntenseVar
    ensures intenseVar[x, y] == old(intenseVar[x, y]) + Variation(image, x, y)
    ensures forall a, b :: 0 <= a < intenseVar.Length0 && 0 <= b < intenseVar.Length1 && (a != x || b != y) ==>
      intenseVar[a, b] == old(intenseVar[a, b])
  {
    for u := -1 to 2
      invariant intenseVar[x, y] == old(intenseVar[x, y]) + PartialVariation(image, x, y, u + 1)
      invariant forall a, b :: 0 <= a < intenseVar.Length0 && 0 <= b < intenseVar.Length1 && (a != x || b != y) ==>
        intenseVar[a, b] == old(intenseVar[a, b])
    {
      for v := -1 to 2
        invariant intenseVar[x, y] ==
          old(intenseVar[x, y]) + PartialVariation(image, x, y, u + 1) + RowPartial(image, x, y, u, v + 1)
        invariant forall a, b :: 0 <= a < intenseVar.Length0 && 0 <= b < intenseVar.Length1 && (a != x || b != y) ==>
          intenseVar[a, b] == old(intenseVar[a, b])
      {
        AddShift(image, intenseVar, oldIntenseVar, x, y, u, v);
      }
    }
    PartialVariationComplete(image, x, y);
  }

  /** Pass 1: every interior cell of the fresh, zeroed `intenseVar` receives its variation. */
  method VariationPass(image: array2<real>, w: int, l: int) returns (intenseVar: array2<real>)
    requires ValidInput(image, w, l)
    ensures fresh(intenseVar)
    ensures intenseVar.Length0 == w && intenseVar.Length1 == l
    ensures forall a, b :: 0 <= a < w && 0 <= b < l ==> intenseVar[a, b] == IntensityVariation(image, w, l, a, b)
  {
    intenseVar := new real[w, l]((a, b) => 0.0);
    var oldIntenseVar := new real[w, l]((a, b) => 0.0);
    var x := 3;
    while x <= w - 3
      invariant x == 3 || 3 < x <= w - 2
      invariant forall a, b :: 0 <= a < w && 0 <= b < l ==>
        intenseVar[a, b] == if InInterior(w, l, a, b) && a < x then Variation(image, a, b) else 0.0
    {
      var y := 3;
      while y <= l - 3
        invariant y == 3 || 3 < y <= l - 2
        invariant forall a, b :: 0 <= a < w && 0 <= b < l ==>
          intenseVar[a, b] == if InInterior(w, l, a, b) && (a < x || (a == x && b < y)) then Variation(image, a, b) else 0.0
      {
        AccumulateVariation(image, intenseVar, oldIntenseVar, x, y);
        y := y + 1;
      }
      x := x + 1;
    }
  }

  /** Pass 2, as written: for each `u` the running minimum restarts at the sentinel, and the
      clamped minimum is stored into `cornerness[x][y]`, so the last (u = 1) store survives. */
  method ScoringPass(intenseVar: array2<real>, w: int, l: int, threshold: int) returns (cornerness: array2<real>)
    requires 0 <= w && 0 <= l && intenseVar.Length0 == w && intenseVar.Length1 == l
    ensures fresh(cornerness)
    ensures cornerness.Length0 == w && cornerness.Length1 == l
    ensures forall a, b :: 0 <= a < w && 0 <= b < l ==> cornerness[a, b] == Score(intenseVar, w, l, threshold, a, b)
  {
    cornerness := new real[w, l]((a, b) => 0.0);
    var x := 3;
    while x <= w - 3
      invariant x == 3 || 3 < x <= w - 2
      invariant forall a, b :: 0 <= a < w && 0 <= b < l ==>
        cornerness[a, b] == if a < x then Score(intenseVar, w, l, threshold, a, b) else 0.0
    {
      var y := 3;
      while y <= l - 3
        invariant y == 3 || 3 < y <= l - 2
        invariant forall a, b :: 0 <= a < w && 0 <= b < l ==>
          cornerness[a, b] == if a < x || (a == x && b < y) then Score(intenseVar, w, l, threshold, a, b) else 0.0
      {
        ScoreCell(intenseVar, cornerness, w, l, threshold, x, y);
        y := y + 1;
      }
      x := x + 1;
    }
  }

  /** The `v` loop of pass 2 for row r at column y.  `minCornerVal` is the method-level
      running minimum, which holds the sentinel on entry to every `u` iteration (its
      initial value, then the reset after each store); the loop keeps the smallest of it
      and `intenseVar[r][y - 1 .. y + 1]`. */
  method RowMinimum(intenseVar: array2<real>, r: int, y: int, minCornerVal: real) returns (m: real)
    requires 0 <= r < intenseVar.Length0 && 1 <= y && y + 1 < intenseVar.Length1
    requires minCornerVal == Sentinel
    ensures m == RunningMin(intenseVar, r, y, 3)
  {
    m := minCornerVal;
    for v := -1 to 2
      invariant m == RunningMin(intenseVar, r, y, v + 1)
    {
      var cornerVal := intenseVar[r, y + v];
      if cornerVal < m {
        m := cornerVal;
      }
    }
  }

  /** The `u` and `v` loops of pass 2 for one interior cell (x, y): each `u` iteration takes
      the minimum of the sentinel and row x + u at columns y - 1 .. y + 1, clamps it and
      stores it in `cornerness[x][y]`, so the value of the last iteration (u = 1) is kept. */
  method ScoreCell(intenseVar: array2<real>, cornerness: array2<real>, w: int, l: int, threshold: int, x: int, y: int)
    requires intenseVar.Length0 == w && intenseVar.Length1 == l
    requires cornerness.Length0 == w && cornerness.Length1 == l && cornerness != intenseVar
    requires InInterior(w, l, x, y)
    modifies cornerness
    ensures cornerness[x, y] == Score(intenseVar, w, l, threshold, x, y)
    ensures forall a, b :: 0 <= a < w && 0 <= b < l && (a != x || b != y) ==> cornerness[a, b] == old(cornerness[a, b])
  {
    var minCornerVal := Sentinel;
    for u := -1 to 2
      invariant minCornerVal == Sentinel
      invariant u != -1 ==> cornerness[x, y] == Clamp(RunningMin(intenseVar, x + u - 1, y, 3), threshold)
      invariant forall a, b :: 0 <= a < w && 0 <= b < l && (a != x || b != y) ==> cornerness[a, b] == old(cornerness[a, b])
    {
      minCornerVal := RowMinimum(intenseVar, x + u, y, minCornerVal);
      if minCornerVal < threshold as real {
        minCornerVal := 0.0;
      }
      cornerness[x, y] := minCornerVal;
      minCornerVal := Sentinel;
    }
  }


  /** `moravacAlgorithm`: pass 1, then pass 2; every cell of the result is its `CornerScore`. */
  method MoravacAlgorithm(imageData: array2<real>, imgWidth: int, imgLength: int, threshold: int)
    returns (cornerness: array2<real>)
    requires ValidInput(imageData, imgWidth, imgLength)
    ensures fresh(cornerness)
    ensures cornerness.Length0 == imgWidth && cornerness.Length1 == imgLength
    ensures forall x, y :: 0 <= x < imgWidth && 0 <= y < imgLength ==>
      cornerness[x, y] == CornerScore(imageData, imgWidth, imgLength, threshold, x, y)
  {
    var intenseVar := VariationPass(imageData, imgWidth, imgLength);
    cornerness := ScoringPass(intenseVar, imgWidth, imgLength, threshold);
    forall x, y | 0 <= x < imgWidth && 0 <= y < imgLength && InInterior(imgWidth, imgLength, x, y)
      ensures RunningMin(intenseVar, x + 1, y, 3) == NeighbourMin(imageData, imgWidth, imgLength, x, y)
    {
      assert RunningMin(intenseVar, x + 1, y, 1) == Min(Sentinel, intenseVar[x + 1, y - 1]);
      assert RunningMin(intenseVar, x + 1, y, 2) == Min(RunningMin(intenseVar, x + 1, y, 1), intenseVar[x + 1, y]);
      assert RunningMin(intenseVar, x + 1, y, 3) == Min(RunningMin(intenseVar, x + 1, y, 2), intenseVar[x + 1, y + 1]);
      assert intenseVar[x + 1, y - 1] == IntensityVariation(imageData, imgWidth, imgLength, x + 1, y - 1);
      assert intenseVar[x + 1, y] == IntensityVariation(imageData, imgWidth, imgLength, x + 1, y);
      assert intenseVar[x + 1, y + 1] == IntensityVariation(imageData, imgWidth, imgLength, x + 1, y + 1);
    }
  }
}
