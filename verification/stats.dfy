/** Colorimetric statistics of one zone: the masked mean and population
    variance of `getAvColor`, the BGR-to-RGB reversal and masked area of
    `analyzeContours`, and the grayscale column and unit conversions of
    `saveColors`. Standard deviations are carried as variances, so that the
    square root stays outside the model; a cell that prints a standard
    deviation prints the root of the variance kept here. */
module Stats {
  import opened Basics

  /** A mask pixel lets its image pixel into the statistics exactly when it
      is 255: numpy masks out wherever `1 - mask/255` is nonzero, and the
      histogram masks out wherever the bitwise complement of the 8-bit mask
      is nonzero. */
  predicate Included(m: int) {
    m == 255
  }

  /** Number of included pixels of a mask. */
  function IncludedCount(mask: seq<int>): (n: nat)
    ensures n <= |mask|
    ensures n == 0 <==> forall i :: 0 <= i < |mask| ==> !Included(mask[i])
    ensures n == |mask| <==> forall i :: 0 <= i < |mask| ==> Included(mask[i])
  {
    if |mask| == 0 then 0
    else
      var k := |mask| - 1;
      assert forall i :: 0 <= i < k ==> mask[..k][i] == mask[i];
      IncludedCount(mask[..k]) + (if Included(mask[k]) then 1 else 0)
  }

  /** The positions of the included pixels, in increasing order. */
  function IncludedPositions(mask: seq<int>): (pos: seq<int>)
    ensures |pos| == IncludedCount(mask)
    ensures forall j :: 0 <= j < |pos| ==> 0 <= pos[j] < |mask| && Included(mask[pos[j]])
    ensures forall i :: 0 <= i < |mask| && Included(mask[i]) ==> i in pos
    ensures forall a, b :: 0 <= a < b < |pos| ==> pos[a] < pos[b]
  {
    if |mask| == 0 then []
    else
      var k := |mask| - 1;
      var front := IncludedPositions(mask[..k]);
      PositionsStep(mask, front);
      front + (if Included(mask[k]) then [k] else [])
  }

  /** One more pixel extends the positions of the front by its own, when it
      is included. */
  lemma PositionsStep(mask: seq<int>, front: seq<int>)
    requires |mask| > 0
    requires forall j :: 0 <= j < |front| ==> 0 <= front[j] < |mask| - 1 && Included(mask[front[j]])
    requires forall i :: 0 <= i < |mask| - 1 && Included(mask[i]) ==> i in front
    requires forall a, b :: 0 <= a < b < |front| ==> front[a] < front[b]
    ensures var pos := front + (if Included(mask[|mask| - 1]) then [|mask| - 1] else []);
      (forall j :: 0 <= j < |pos| ==> 0 <= pos[j] < |mask| && Included(mask[pos[j]]))
      && (forall i :: 0 <= i < |mask| && Included(mask[i]) ==> i in pos)
      && (forall a, b :: 0 <= a < b < |pos| ==> pos[a] < pos[b])
  {
  }

  /** `MaskedArray(values, mask).compressed()`: the included values in
      order, the others dropped. */
  function Compressed<T>(values: seq<T>, mask: seq<int>): (kept: seq<T>)
    requires |values| == |mask|
    ensures |kept| == IncludedCount(mask)
    ensures forall j :: 0 <= j < |kept| ==> kept[j] == values[IncludedPositions(mask)[j]]
  {
    if |values| == 0 then []
    else
      var k := |values| - 1;
      var front := Compressed(values[..k], mask[..k]);
      assert forall j :: 0 <= j < |front| ==> front[j] == values[IncludedPositions(mask[..k])[j]];
      CompressedStep(values, mask, front);
      front + (if Included(mask[k]) then [values[k]] else [])
  }

  /** One more pixel keeps the earlier kept values at their places and, when
      it is included, puts its own value last. */
  lemma CompressedStep<T>(values: seq<T>, mask: seq<int>, front: seq<T>)
    requires |values| == |mask| > 0
    requires |front| == IncludedCount(mask[..|mask| - 1])
    requires forall j :: 0 <= j < |front| ==> front[j] == values[IncludedPositions(mask[..|mask| - 1])[j]]
    ensures var kept := front + (if Included(mask[|mask| - 1]) then [values[|mask| - 1]] else []);
      |kept| == IncludedCount(mask)
      && forall j :: 0 <= j < |kept| ==> kept[j] == values[IncludedPositions(mask)[j]]
  {
    var k := |mask| - 1;
    var posf := IncludedPositions(mask[..k]);
    var pos := IncludedPositions(mask);
    if Included(mask[k]) {
      assert pos == posf + [k];
      var kept := front + [values[k]];
      assert |kept| == |pos|;
      forall j | 0 <= j < |kept| ensures kept[j] == values[pos[j]] {
        if j < |front| {
          assert kept[j] == front[j] && pos[j] == posf[j];
        } else {
          assert j == |front| && kept[j] == values[k] && pos[j] == k;
        }
      }
    } else {
      assert pos == posf;
      assert front + [] == front;
    }
  }

  /** Every kept value is the value of an included pixel. */
  lemma {:induction false} CompressedFrom<T>(values: seq<T>, mask: seq<int>, j: int)
    requires |values| == |mask|
    requires 0 <= j < |Compressed(values, mask)|
    ensures exists i :: 0 <= i < |values| && Included(mask[i]) && values[i] == Compressed(values, mask)[j]
  {
    var k := |values| - 1;
    var front := Compressed(values[..k], mask[..k]);
    if j < |front| {
      CompressedFrom(values[..k], mask[..k], j);
      var i :| 0 <= i < k && Included(mask[..k][i]) && values[..k][i] == front[j];
      assert values[i] == Compressed(values, mask)[j];
    } else {
      assert Compressed(values, mask)[j] == values[k];
    }
  }

  /** With every pixel included nothing is dropped. */
  lemma {:induction false} CompressedAll<T>(values: seq<T>, mask: seq<int>)
    requires |values| == |mask|
    requires forall i :: 0 <= i < |mask| ==> Included(mask[i])
    ensures Compressed(values, mask) == values
  {
    if |values| > 0 {
      var k := |values| - 1;
      assert forall i :: 0 <= i < k ==> mask[..k][i] == mask[i];
      CompressedAll(values[..k], mask[..k]);
      assert Included(mask[k]);
      assert Compressed(values, mask) == values[..k] + [values[k]];
      FrontLast(values);
    }
  }

  /** The values a statistic is taken over: all of them without a mask, the
      included ones with a mask. */
  function Kept<T>(values: seq<T>, mask: Option<seq<int>>): (kept: seq<T>)
    requires mask.Some? ==> |mask.value| == |values|
    ensures mask.None? ==> kept == values
    ensures mask.Some? ==> |kept| == IncludedCount(mask.value)
  {
    if mask.None? then values else Compressed(values, mask.value)
  }

  function Mean(xs: seq<real>): real
    requires |xs| > 0
  {
    Sum(xs) / |xs| as real
  }

  /** The squared distances of the values from `c`. */
  function Deviations(xs: seq<real>, c: real): (d: seq<real>)
    ensures |d| == |xs|
    ensures forall i :: 0 <= i < |xs| ==> d[i] >= 0.0
    ensures forall i :: 0 <= i < |xs| ==> (xs[i] == c ==> d[i] == 0.0)
  {
    seq(|xs|, i requires 0 <= i < |xs| => Square(xs[i] - c))
  }

  function Square(a: real): (r: real)
    ensures r >= 0.0 && r == a * a
  {
    if a >= 0.0 then a * a else (-a) * (-a)
  }

  /** numpy's `std` squared: the population variance (divisor n). */
  function Variance(xs: seq<real>): real
    requires |xs| > 0
  {
    Sum(Deviations(xs, Mean(xs))) / |xs| as real
  }

  /** Values within `lo .. hi` sum to within `n*lo .. n*hi`. */
  lemma {:induction false} SumBounds(xs: seq<real>, lo: real, hi: real)
    requires forall i :: 0 <= i < |xs| ==> lo <= xs[i] <= hi
    ensures |xs| as real * lo <= Sum(xs) <= |xs| as real * hi
  {
    if |xs| > 0 {
      var k := |xs| - 1;
      SumBounds(xs[..k], lo, hi);
      var n := k as real;
      assert Sum(xs) == Sum(xs[..k]) + xs[k];
      assert (n + 1.0) * lo == n * lo + lo && (n + 1.0) * hi == n * hi + hi;
    }
  }

  /** The mean and population variance of one channel of a zone. */
  datatype MeanVar = MeanVar(mean: real, variance: real)

  /** One channel of `getAvColor`: the mean and variance over the included
      pixels, or over all pixels without a mask. A mask that includes no pixel
      leaves numpy with a fully masked result; the model reports no value. */
  function MaskedStats(values: seq<real>, mask: Option<seq<int>>): (r: Option<MeanVar>)
    requires mask.Some? ==> |mask.value| == |values|
    ensures r.None? <==> |Kept(values, mask)| == 0
    ensures mask.Some? ==> (r.None? <==> forall i :: 0 <= i < |values| ==> !Included(mask.value[i]))
    ensures r.Some? ==> IsMean(r.value.mean, Kept(values, mask))
    ensures r.Some? ==> IsVariance(r.value.variance, Kept(values, mask), r.value.mean)
    ensures r.Some? ==> r.value.variance >= 0.0
    ensures r.Some? && (forall i :: 0 <= i < |values| ==> 0.0 <= values[i] <= 255.0) ==>
      0.0 <= r.value.mean <= 255.0
  {
    var kept := Kept(values, mask);
    if |kept| == 0 then None
    else
      MeanVarFacts(kept);
      MeanTimes(kept);
      VarianceTimes(kept);
      KeptWithin(values, mask);
      Some(MeanVar(Mean(kept), Variance(kept)))
  }

  /** The variance is never negative, and the mean of channel values stays
      in the channel's range. */
  lemma MeanVarFacts(xs: seq<real>)
    requires |xs| > 0
    ensures Variance(xs) >= 0.0
    ensures (forall j :: 0 <= j < |xs| ==> 0.0 <= xs[j] <= 255.0) ==> 0.0 <= Mean(xs) <= 255.0
  {
    NonNegativeSum(Deviations(xs, Mean(xs)));
    if forall j :: 0 <= j < |xs| ==> 0.0 <= xs[j] <= 255.0 {
      SumBounds(xs, 0.0, 255.0);
      var n := |xs| as real;
      assert 0.0 <= Sum(xs) <= n * 255.0;
      DivideBounds(Sum(xs), n, 255.0);
    }
  }

  /** `m` is the mean of `xs`: `m` times the count is the sum. */
  predicate IsMean(m: real, xs: seq<real>) {
    m * |xs| as real == Sum(xs)
  }

  /** `v` is the population variance of `xs` about its mean `m`: `v` times
      the count is the sum of squared deviations from `m`. */
  predicate IsVariance(v: real, xs: seq<real>, m: real) {
    v * |xs| as real == Sum(Deviations(xs, m))
  }

  lemma MeanTimes(xs: seq<real>)
    requires |xs| > 0
    ensures IsMean(Mean(xs), xs)
  {
    ScaledBack(Mean(xs), Sum(xs), |xs| as real);
  }

  lemma VarianceTimes(xs: seq<real>)
    requires |xs| > 0
    ensures IsVariance(Variance(xs), xs, Mean(xs))
  {
    ScaledBack(Variance(xs), Sum(Deviations(xs, Mean(xs))), |xs| as real);
  }

  lemma ScaledBack(q: real, s: real, n: real)
    requires n > 0.0 && q == s / n
    ensures q * n == s
  {
  }

  lemma DivideBounds(s: real, n: real, hi: real)
    requires n > 0.0 && 0.0 <= s <= n * hi
    ensures 0.0 <= s / n <= hi
  {
  }

  /** A sum of non-negative values is non-negative. */
  lemma {:induction false} NonNegativeSum(xs: seq<real>)
    requires forall i :: 0 <= i < |xs| ==> xs[i] >= 0.0
    ensures Sum(xs) >= 0.0
  {
    if |xs| > 0 {
      var k := |xs| - 1;
      NonNegativeSum(xs[..k]);
    }
  }

  /** The kept values are among the values. */
  lemma KeptWithin(values: seq<real>, mask: Option<seq<int>>)
    requires mask.Some? ==> |mask.value| == |values|
    ensures (forall i :: 0 <= i < |values| ==> 0.0 <= values[i] <= 255.0) ==>
      forall j :: 0 <= j < |Kept(values, mask)| ==> 0.0 <= Kept(values, mask)[j] <= 255.0
  {
    var kept := Kept(values, mask);
    if forall i :: 0 <= i < |values| ==> 0.0 <= values[i] <= 255.0 {
      forall j | 0 <= j < |kept| ensures 0.0 <= kept[j] <= 255.0 {
        if mask.Some? {
          CompressedFrom(values, mask.value, j);
        }
      }
    }
  }

  /** Pixels outside the mask do not matter: two zones that agree on the
      included pixels have the same statistics. */
  lemma OutsideIgnored(v1: seq<real>, v2: seq<real>, mask: seq<int>)
    requires |v1| == |v2| == |mask|
    requires forall i :: 0 <= i < |mask| && Included(mask[i]) ==> v1[i] == v2[i]
    ensures MaskedStats(v1, Some(mask)) == MaskedStats(v2, Some(mask))
  {
    CompressedIgnoresOutside(v1, v2, mask);
  }

  lemma {:induction false} CompressedIgnoresOutside<T>(v1: seq<T>, v2: seq<T>, mask: seq<int>)
    requires |v1| == |v2| == |mask|
    requires forall i :: 0 <= i < |mask| && Included(mask[i]) ==> v1[i] == v2[i]
    ensures Compressed(v1, mask) == Compressed(v2, mask)
  {
    if |mask| > 0 {
      var k := |mask| - 1;
      assert forall i :: 0 <= i < k ==> v1[..k][i] == v1[i] && v2[..k][i] == v2[i] && mask[..k][i] == mask[i];
      CompressedIgnoresOutside(v1[..k], v2[..k], mask[..k]);
    }
  }

  /** Without a mask `getAvColor` averages every pixel, which is what a mask
      of all 255 gives. */
  lemma NoMaskIsFullMask(values: seq<real>, mask: seq<int>)
    requires |mask| == |values|
    requires forall i :: 0 <= i < |mask| ==> Included(mask[i])
    ensures MaskedStats(values, None) == MaskedStats(values, Some(mask))
  {
    CompressedAll(values, mask);
  }

  /** A zone of one color has that color as its mean and no spread. */
  lemma UniformZone(xs: seq<real>, v: real)
    requires |xs| > 0
    requires forall i :: 0 <= i < |xs| ==> xs[i] == v
    ensures Mean(xs) == v
    ensures Variance(xs) == 0.0
  {
    SumBounds(xs, v, v);
    var n := |xs| as real;
    assert Sum(xs) == n * v;
    assert Mean(xs) == v;
    SumBounds(Deviations(xs, v), 0.0, 0.0);
  }

  /** A zone whose included pixels all have value v measures v with no
      spread; in particular a single included pixel gives its own value. */
  lemma UniformMaskedZone(values: seq<real>, mask: seq<int>, v: real)
    requires |values| == |mask|
    requires exists i :: 0 <= i < |mask| && Included(mask[i])
    requires forall i :: 0 <= i < |mask| && Included(mask[i]) ==> values[i] == v
    ensures MaskedStats(values, Some(mask)) == Some(MeanVar(v, 0.0))
  {
    var kept := Compressed(values, mask);
    var pos := IncludedPositions(mask);
    var i :| 0 <= i < |mask| && Included(mask[i]);
    assert values[i] in kept;
    forall j | 0 <= j < |kept| ensures kept[j] == v {
      assert pos[j] in pos;
    }
    UniformZone(kept, v);
  }

  /** The one included pixel's value, with variance 0. */
  lemma SinglePixelZone(values: seq<real>, mask: seq<int>, i: int)
    requires |values| == |mask|
    requires 0 <= i < |mask| && Included(mask[i])
    requires forall j :: 0 <= j < |mask| && j != i ==> !Included(mask[j])
    ensures MaskedStats(values, Some(mask)) == Some(MeanVar(values[i], 0.0))
  {
    UniformMaskedZone(values, mask, values[i]);
  }
}
