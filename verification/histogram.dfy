/** The masked per-channel histogram of `imageChannelHistogram` and the
    table `saveHistogram` writes: 256 unit bins over 0..256 after the
    masked-out pixels are removed, one column per channel in R, G, B order. */
module Histogram {
  import opened Basics
  import opened Stats

  const Bins: nat := 256

  /** The bin of a value under `np.histogram(values, 256, (0, 256))`: unit
      bins, the last one closed, so 256 lands in bin 255; values outside
      0..256 land in none. */
  function Bin(v: int): (b: Option<nat>)
    ensures b.Some? <==> 0 <= v <= 256
    ensures b.Some? ==> b.value < Bins && b.value <= v < b.value + 2
    ensures 0 <= v < 256 ==> b == Some(v)
  {
    if 0 <= v < 256 then Some(v) else if v == 256 then Some(255) else None
  }

  /** How many values land in bin `k`. */
  function CountBin(xs: seq<int>, k: nat): (n: nat)
    ensures n <= |xs|
  {
    if |xs| == 0 then 0
    else CountBin(xs[..|xs| - 1], k) + (if Bin(xs[|xs| - 1]) == Some(k) then 1 else 0)
  }

  /** How many values land in some bin. */
  function BinnedCount(xs: seq<int>): (n: nat)
    ensures n <= |xs|
  {
    if |xs| == 0 then 0
    else BinnedCount(xs[..|xs| - 1]) + (if Bin(xs[|xs| - 1]).Some? then 1 else 0)
  }

  /** Bin k never holds more values than land in some bin; it holds none
      when no value falls in it, and all of them when every value does. */
  lemma {:induction false} CountBinBounds(xs: seq<int>, k: nat)
    ensures CountBin(xs, k) <= BinnedCount(xs)
    ensures (forall i :: 0 <= i < |xs| ==> Bin(xs[i]) != Some(k)) ==> CountBin(xs, k) == 0
    ensures (forall i :: 0 <= i < |xs| ==> Bin(xs[i]) == Some(k)) ==> CountBin(xs, k) == |xs|
    decreases |xs|
  {
    if |xs| > 0 {
      var front := xs[..|xs| - 1];
      CountBinBounds(front, k);
      assert forall i :: 0 <= i < |front| ==> front[i] == xs[i];
    }
  }

  /** The counts `np.histogram` returns for the values, bin by bin. */
  function Counts(xs: seq<int>): (c: seq<nat>)
    ensures |c| == Bins
    ensures forall k :: 0 <= k < Bins ==> c[k] == CountBin(xs, k)
  {
    seq(Bins, k requires 0 <= k < Bins => CountBin(xs, k))
  }

  /** The bin edges: 257 of them, 0, 1, ..., 256. */
  function Edges(): (e: seq<int>)
    ensures |e| == Bins + 1
    ensures forall k :: 0 <= k <= Bins ==> e[k] == k
  {
    seq(Bins + 1, k => k)
  }

  /** Every binned value is counted exactly once: the counts add up to the
      number of values in 0..256. */
  lemma {:induction false} CountsTotal(xs: seq<int>)
    ensures SumNat(Counts(xs)) == BinnedCount(xs)
  {
    if |xs| == 0 {
      assert Counts(xs) == seq(Bins, _ => 0);
      SumNatZeros(Bins);
    } else {
      var k := |xs| - 1;
      CountsTotal(xs[..k]);
      var b := Bin(xs[k]);
      if b.Some? {
        assert Counts(xs) == Counts(xs[..k])[b.value := Counts(xs[..k])[b.value] + 1];
        SumNatIncrement(Counts(xs[..k]), b.value);
      } else {
        assert Counts(xs) == Counts(xs[..k]);
      }
    }
  }

  /** The counts after one more value: its bin, if any, goes up by one. */
  function Tally(counts: seq<nat>, v: int): (r: seq<nat>)
    requires |counts| == Bins
  {
    var b := Bin(v);
    if b.Some? then counts[b.value := counts[b.value] + 1] else counts
  }

  /** Tallying one more value keeps the counts equal to the histogram of the
      values seen so far, and their total equal to the number binned. */
  lemma TallyStep(counts: seq<nat>, xs: seq<int>, v: int)
    requires |counts| == Bins
    requires forall k :: 0 <= k < Bins ==> counts[k] == CountBin(xs, k)
    requires SumNat(counts) == BinnedCount(xs)
    ensures |Tally(counts, v)| == Bins
    ensures forall k :: 0 <= k < Bins ==> Tally(counts, v)[k] == CountBin(xs + [v], k)
    ensures SumNat(Tally(counts, v)) == BinnedCount(xs + [v])
  {
    assert (xs + [v])[..|xs|] == xs;
    var b := Bin(v);
    if b.Some? {
      SumNatIncrement(counts, b.value);
    }
  }

  /** `imageChannelHistogram`: drop the masked-out values, then count each
      remaining value into its bin. */
  method ChannelHistogram(values: seq<int>, mask: Option<seq<int>>) returns (counts: seq<nat>, edges: seq<int>)
    requires mask.Some? ==> |mask.value| == |values|
    ensures |counts| == Bins && |edges| == Bins + 1
    ensures forall k :: 0 <= k <= Bins ==> edges[k] == k
    ensures forall k :: 0 <= k < Bins ==> counts[k] == CountBin(Kept(values, mask), k)
    ensures SumNat(counts) == BinnedCount(Kept(values, mask))
  {
    counts := Tabulate(Kept(values, mask));
    edges := Edges();
  }

  /** `np.histogram` on the kept values, one value at a time. */
  method Tabulate(xs: seq<int>) returns (counts: seq<nat>)
    ensures |counts| == Bins
    ensures forall k :: 0 <= k < Bins ==> counts[k] == CountBin(xs, k)
    ensures SumNat(counts) == BinnedCount(xs)
  {
    counts := seq(Bins, _ => 0);
    SumNatZeros(Bins);
    var i := 0;
    while i < |xs|
      invariant 0 <= i <= |xs|
      invariant |counts| == Bins
      invariant forall k :: 0 <= k < Bins ==> counts[k] == CountBin(xs[..i], k)
      invariant SumNat(counts) == BinnedCount(xs[..i])
    {
      TallyStep(counts, xs[..i], xs[i]);
      assert xs[..i + 1] == xs[..i] + [xs[i]];
      counts := Tally(counts, xs[i]);
      i := i + 1;
    }
    assert xs[..|xs|] == xs;
  }

  /** The histogram with no pixels, drawn before any zone is analysed: the
      single value -1 lands in no bin. */
  lemma BlankHistogram()
    ensures Counts([-1]) == seq(Bins, _ => 0)
  {
    assert forall k :: 0 <= k < Bins ==> CountBin([-1], k) == 0 by {
      assert [-1][..0] == [];
    }
  }

  /** For 8-bit channel values every included pixel is counted exactly once. */
  lemma {:induction false} BytesAllBinned(xs: seq<int>)
    requires forall i :: 0 <= i < |xs| ==> 0 <= xs[i] < 256
    ensures BinnedCount(xs) == |xs|
  {
    if |xs| > 0 {
      var k := |xs| - 1;
      assert forall i :: 0 <= i < k ==> xs[..k][i] == xs[i];
      BytesAllBinned(xs[..k]);
    }
  }

  /** One row of the saved table: the bin's left edge, then the red, green
      and blue counts. */
  datatype Row = Row(bin: int, red: nat, green: nat, blue: nat)

  /** One pixel of the 8-bit crop, channels in OpenCV's storage order
      (blue, green, red). */
  datatype Pixel = Pixel(c0: int, c1: int, c2: int)

  /** `im[:,:,k]`: one channel plane of the crop. */
  function Plane(crop: seq<Pixel>, k: int): (vs: seq<int>)
    requires 0 <= k < 3
    ensures |vs| == |crop|
    ensures forall i :: 0 <= i < |crop| ==>
      vs[i] == if k == 0 then crop[i].c0 else if k == 1 then crop[i].c1 else crop[i].c2
  {
    seq(|crop|, i requires 0 <= i < |crop| =>
      if k == 0 then crop[i].c0 else if k == 1 then crop[i].c1 else crop[i].c2)
  }

  /** `saveHistogram` on a BGR crop: the table lists the counts of channel 2
      (red) first, then channel 1 (green), then channel 0 (blue), each
      counted under the same mask. */
  function HistogramTable(crop: seq<Pixel>, mask: seq<int>): (rows: seq<Row>)
    requires |crop| == |mask|
    ensures |rows| == Bins
    ensures forall k :: 0 <= k < Bins ==> rows[k].bin == k
    ensures forall k :: 0 <= k < Bins ==>
      rows[k].red == CountBin(Compressed(Plane(crop, 2), mask), k)
      && rows[k].green == CountBin(Compressed(Plane(crop, 1), mask), k)
      && rows[k].blue == CountBin(Compressed(Plane(crop, 0), mask), k)
  {
    var b := Counts(Compressed(Plane(crop, 0), mask));
    var g := Counts(Compressed(Plane(crop, 1), mask));
    var r := Counts(Compressed(Plane(crop, 2), mask));
    var e := Edges();
    seq(Bins, k requires 0 <= k < Bins => Row(e[k], r[k], g[k], b[k]))
  }

  /** The red column of a table. */
  function RedColumn(rows: seq<Row>): (c: seq<nat>)
    ensures |c| == |rows|
    ensures forall k :: 0 <= k < |rows| ==> c[k] == rows[k].red
  {
    seq(|rows|, k requires 0 <= k < |rows| => rows[k].red)
  }

  /** For an 8-bit crop the red column counts every included pixel once. */
  lemma RedColumnTotal(crop: seq<Pixel>, mask: seq<int>)
    requires |crop| == |mask|
    requires forall i :: 0 <= i < |crop| ==> 0 <= crop[i].c2 < 256
    ensures SumNat(RedColumn(HistogramTable(crop, mask))) == IncludedCount(mask)
  {
    var kept := Compressed(Plane(crop, 2), mask);
    RedColumnCounts(crop, mask);
    CountsTotal(kept);
    KeptBytes(Plane(crop, 2), mask);
    BytesAllBinned(kept);
  }

  /** The red column is the histogram of the kept red values. */
  lemma RedColumnCounts(crop: seq<Pixel>, mask: seq<int>)
    requires |crop| == |mask|
    ensures RedColumn(HistogramTable(crop, mask)) == Counts(Compressed(Plane(crop, 2), mask))
  {
  }

  /** The kept values of an 8-bit channel are 8-bit. */
  lemma KeptBytes(values: seq<int>, mask: seq<int>)
    requires |values| == |mask|
    requires forall i :: 0 <= i < |values| ==> 0 <= values[i] < 256
    ensures forall j :: 0 <= j < |Compressed(values, mask)| ==> 0 <= Compressed(values, mask)[j] < 256
  {
  }
}
