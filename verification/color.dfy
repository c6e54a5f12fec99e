/** Per-zone colour values as `analyzeContours` gathers them and `saveColors`
    reports them: the three-channel average of `getAvColor`, the BGR-to-RGB
    reversal, the masked area, the grayscale column with its propagated
    spread, and the HSV and Lab unit conversions. Spreads are variances (the
    squares of the standard deviations the source prints). */
module Color {
  import opened Basics
  import opened Stats

  /** One three-channel value, channels in OpenCV's storage order. */
  datatype Triple = Triple(c0: real, c1: real, c2: real)

  function Get(t: Triple, k: int): real
    requires 0 <= k < 3
  {
    if k == 0 then t.c0 else if k == 1 then t.c1 else t.c2
  }

  /** One channel of a zone's pixels. */
  function Channel(pixels: seq<Triple>, k: int): (vs: seq<real>)
    requires 0 <= k < 3
    ensures |vs| == |pixels|
    ensures forall i :: 0 <= i < |pixels| ==> vs[i] == Get(pixels[i], k)
  {
    seq(|pixels|, i requires 0 <= i < |pixels| => Get(pixels[i], k))
  }

  /** Per-channel means and variances of one zone. */
  datatype ColorStats = ColorStats(mean: Triple, variance: Triple)

  /** `getAvColor` on a zone: the mask is copied to all three channels, so
      each channel's statistics are taken over the same included pixels. No
      value when no pixel is included. */
  function AvColor(pixels: seq<Triple>, mask: Option<seq<int>>): (r: Option<ColorStats>)
    requires mask.Some? ==> |mask.value| == |pixels|
    ensures r.None? <==> |Kept(Channel(pixels, 0), mask)| == 0
    ensures r.Some? ==> forall k :: 0 <= k < 3 ==>
      MaskedStats(Channel(pixels, k), mask) == Some(MeanVar(Get(r.value.mean, k), Get(r.value.variance, k)))
    ensures r.Some? ==> r.value.variance.c0 >= 0.0 && r.value.variance.c1 >= 0.0 && r.value.variance.c2 >= 0.0
  {
    var s0 := MaskedStats(Channel(pixels, 0), mask);
    var s1 := MaskedStats(Channel(pixels, 1), mask);
    var s2 := MaskedStats(Channel(pixels, 2), mask);
    if s0.None? || s1.None? || s2.None? then None
    else Some(ColorStats(Triple(s0.value.mean, s1.value.mean, s2.value.mean),
                         Triple(s0.value.variance, s1.value.variance, s2.value.variance)))
  }

  /** `[::-1]` on a three-channel value: OpenCV's BGR order becomes RGB. */
  function Reverse(t: Triple): (r: Triple)
    ensures Get(r, 0) == Get(t, 2) && Get(r, 1) == Get(t, 1) && Get(r, 2) == Get(t, 0)
  {
    Triple(t.c2, t.c1, t.c0)
  }

  /** Reversing twice restores the channel order. */
  lemma ReverseInvolution(t: Triple)
    ensures Reverse(Reverse(t)) == t
  {
  }

  /** The grayscale weights of R, G and B. */
  const WeightR: real := 0.299
  const WeightG: real := 0.587
  const WeightB: real := 0.114

  /** The Gray column: the weighted average of an RGB value (R first). */
  function Gray(rgb: Triple): (g: real)
    ensures (rgb.c0 == rgb.c1 == rgb.c2) ==> g == rgb.c0
    ensures 0.0 <= rgb.c0 <= 255.0 && 0.0 <= rgb.c1 <= 255.0 && 0.0 <= rgb.c2 <= 255.0 ==>
      0.0 <= g <= 255.0
  {
    WeightR * rgb.c0 + WeightG * rgb.c1 + WeightB * rgb.c2
  }

  /** The std Gray column squared: the RGB spreads combined with the squared
      weights, as for independent channels. */
  function GrayVariance(variance: Triple): (gv: real)
    ensures variance.c0 >= 0.0 && variance.c1 >= 0.0 && variance.c2 >= 0.0 ==> gv >= 0.0
    ensures forall bound: real {:trigger Bound(variance, bound)} :: Bound(variance, bound) ==> gv <= bound
  {
    WeightR * WeightR * variance.c0 + WeightG * WeightG * variance.c1 + WeightB * WeightB * variance.c2
  }

  /** All three spreads lie within `0 .. bound`. */
  predicate Bound(variance: Triple, bound: real) {
    0.0 <= variance.c0 <= bound && 0.0 <= variance.c1 <= bound && 0.0 <= variance.c2 <= bound
  }

  /** The spread of the gray column, computed from per-channel standard
      deviations, is the square of the weights applied to them in the source's
      root-of-sum-of-squares. */
  lemma GrayFromStd(sdR: real, sdG: real, sdB: real)
    ensures GrayVariance(Triple(sdR * sdR, sdG * sdG, sdB * sdB))
      == (WeightR * sdR) * (WeightR * sdR) + (WeightG * sdG) * (WeightG * sdG) + (WeightB * sdB) * (WeightB * sdB)
  {
  }

  /** The gray value of each pixel. */
  function GrayValues(rgb: seq<Triple>): (g: seq<real>)
    ensures |g| == |rgb|
    ensures forall i :: 0 <= i < |rgb| ==> g[i] == Gray(rgb[i])
  {
    seq(|rgb|, i requires 0 <= i < |rgb| => Gray(rgb[i]))
  }

  /** The gray column of the averaged color is the average gray of the zone:
      weighting commutes with averaging. */
  lemma GrayOfMean(rgb: seq<Triple>)
    requires |rgb| > 0
    ensures Gray(Triple(Mean(Channel(rgb, 0)), Mean(Channel(rgb, 1)), Mean(Channel(rgb, 2))))
      == Mean(GrayValues(rgb))
  {
    GraySum(rgb);
    var n := |rgb| as real;
    var r, g, b := Sum(Channel(rgb, 0)), Sum(Channel(rgb, 1)), Sum(Channel(rgb, 2));
    DivideSum(WeightR * r + WeightG * g, WeightB * b, n);
    DivideSum(WeightR * r, WeightG * g, n);
    DivideScaled(WeightR, r, n);
    DivideScaled(WeightG, g, n);
    DivideScaled(WeightB, b, n);
  }

  lemma DivideSum(p: real, q: real, n: real)
    requires n > 0.0
    ensures (p + q) / n == p / n + q / n
  {
  }

  lemma DivideScaled(w: real, p: real, n: real)
    requires n > 0.0
    ensures (w * p) / n == w * (p / n)
  {
  }

  lemma {:induction false} GraySum(rgb: seq<Triple>)
    ensures Sum(GrayValues(rgb)) == WeightR * Sum(Channel(rgb, 0)) + WeightG * Sum(Channel(rgb, 1)) + WeightB * Sum(Channel(rgb, 2))
  {
    if |rgb| > 0 {
      var k := |rgb| - 1;
      assert GrayValues(rgb)[..k] == GrayValues(rgb[..k]);
      assert Channel(rgb, 0)[..k] == Channel(rgb[..k], 0);
      assert Channel(rgb, 1)[..k] == Channel(rgb[..k], 1);
      assert Channel(rgb, 2)[..k] == Channel(rgb[..k], 2);
      GraySum(rgb[..k]);
    }
  }

  /** The HSV columns: OpenCV's half-degree hue doubled to degrees, S and V
      scaled from 0..255 to 0..1; the standard deviations scale alike, so the
      variances by the squares. */
  function HsvUnits(s: ColorStats): (r: ColorStats)
    ensures 0.0 <= s.mean.c0 <= 179.0 ==> 0.0 <= r.mean.c0 <= 358.0
    ensures 0.0 <= s.mean.c1 <= 255.0 ==> 0.0 <= r.mean.c1 <= 1.0
    ensures 0.0 <= s.mean.c2 <= 255.0 ==> 0.0 <= r.mean.c2 <= 1.0
  {
    ColorStats(Triple(s.mean.c0 / 180.0 * 360.0, s.mean.c1 / 255.0, s.mean.c2 / 255.0),
               Triple(s.variance.c0 * 4.0, s.variance.c1 / 65025.0, s.variance.c2 / 65025.0))
  }

  /** The source converts standard deviations; on variances that is the
      square of the converted deviation. */
  lemma HsvScalesStd(mean: Triple, sdH: real, sdS: real, sdV: real)
    ensures HsvUnits(ColorStats(mean, Triple(sdH * sdH, sdS * sdS, sdV * sdV))).variance
      == Triple((sdH / 180.0 * 360.0) * (sdH / 180.0 * 360.0), (sdS / 255.0) * (sdS / 255.0), (sdV / 255.0) * (sdV / 255.0))
  {
  }

  /** Back from the reported HSV units to OpenCV's. */
  function HsvFromUnits(s: ColorStats): ColorStats {
    ColorStats(Triple(s.mean.c0 / 2.0, s.mean.c1 * 255.0, s.mean.c2 * 255.0),
               Triple(s.variance.c0 / 4.0, s.variance.c1 * 65025.0, s.variance.c2 * 65025.0))
  }

  /** No information is lost by the HSV conversion. */
  lemma HsvRoundTrip(s: ColorStats)
    ensures HsvFromUnits(HsvUnits(s)) == s
  {
  }

  /** The Lab columns: L scaled from 0..255 to 0..100, a and b shifted by 128
      to be centered on zero. Only L's spread is scaled; a shift leaves a
      spread unchanged. */
  function LabUnits(s: ColorStats): (r: ColorStats)
    ensures 0.0 <= s.mean.c0 <= 255.0 ==> 0.0 <= r.mean.c0 <= 100.0
    ensures 0.0 <= s.mean.c1 <= 255.0 ==> -128.0 <= r.mean.c1 <= 127.0
    ensures 0.0 <= s.mean.c2 <= 255.0 ==> -128.0 <= r.mean.c2 <= 127.0
    ensures r.variance.c1 == s.variance.c1 && r.variance.c2 == s.variance.c2
  {
    ColorStats(Triple(s.mean.c0 / 255.0 * 100.0, s.mean.c1 - 128.0, s.mean.c2 - 128.0),
               Triple(s.variance.c0 * (100.0 / 255.0) * (100.0 / 255.0), s.variance.c1, s.variance.c2))
  }

  /** The L spread is the square of the converted L deviation. */
  lemma LabScalesStd(mean: Triple, sdL: real, sdA: real, sdB: real)
    ensures LabUnits(ColorStats(mean, Triple(sdL * sdL, sdA * sdA, sdB * sdB))).variance
      == Triple((sdL / 255.0 * 100.0) * (sdL / 255.0 * 100.0), sdA * sdA, sdB * sdB)
  {
  }

  function LabFromUnits(s: ColorStats): ColorStats {
    ColorStats(Triple(s.mean.c0 * 2.55, s.mean.c1 + 128.0, s.mean.c2 + 128.0),
               Triple(s.variance.c0 * 6.5025, s.variance.c1, s.variance.c2))
  }

  /** No information is lost by the Lab conversion. */
  lemma LabRoundTrip(s: ColorStats)
    ensures LabFromUnits(LabUnits(s)) == s
  {
  }

  /** Sum of the mask values. */
  function MaskSum(mask: seq<int>): int {
    if |mask| == 0 then 0 else MaskSum(mask[..|mask| - 1]) + mask[|mask| - 1]
  }

  /** The Area column: the sum of the zone's mask over 255. */
  function MaskArea(mask: seq<int>): (a: real)
    ensures (forall i :: 0 <= i < |mask| ==> 0 <= mask[i] <= 255) ==> 0.0 <= a <= |mask| as real
  {
    MaskSumBounds(mask);
    MaskSum(mask) as real / 255.0
  }

  lemma {:induction false} MaskSumBounds(mask: seq<int>)
    ensures (forall i :: 0 <= i < |mask| ==> 0 <= mask[i] <= 255) ==> 0 <= MaskSum(mask) <= 255 * |mask|
  {
    if |mask| > 0 {
      var k := |mask| - 1;
      assert forall i :: 0 <= i < k ==> mask[..k][i] == mask[i];
      MaskSumBounds(mask[..k]);
    }
  }

  /** For a mask of 0s and 255s the area is the number of included pixels,
      the same pixels the colour statistics are taken over. */
  lemma {:induction false} BinaryMaskArea(mask: seq<int>)
    requires forall i :: 0 <= i < |mask| ==> mask[i] == 0 || mask[i] == 255
    ensures MaskArea(mask) == IncludedCount(mask) as real
  {
    if |mask| > 0 {
      var k := |mask| - 1;
      assert forall i :: 0 <= i < k ==> mask[..k][i] == mask[i];
      BinaryMaskArea(mask[..k]);
    }
  }

  /** What `analyzeContours` records for one zone. */
  datatype ZoneRecord = ZoneRecord(rgb: ColorStats, hsv: ColorStats, lab: ColorStats, area: real)

  /** One zone of `analyzeContours`: the colour statistics of the BGR, HSV and
      Lab crops under the same mask, the BGR result reversed to RGB, and the
      area. No record when the mask includes no pixel. */
  function AnalyzeZone(bgr: seq<Triple>, hsv: seq<Triple>, lab: seq<Triple>, mask: seq<int>): (r: Option<ZoneRecord>)
    requires |bgr| == |hsv| == |lab| == |mask|
    ensures r.None? <==> IncludedCount(mask) == 0
    ensures r.Some? ==> Some(ColorStats(Reverse(r.value.rgb.mean), Reverse(r.value.rgb.variance))) == AvColor(bgr, Some(mask))
    ensures r.Some? ==> Some(r.value.hsv) == AvColor(hsv, Some(mask)) && Some(r.value.lab) == AvColor(lab, Some(mask))
    ensures r.Some? ==> r.value.area == MaskArea(mask)
    ensures r.Some? ==> r.value.hsv.mean.c0 == MaskedStats(Channel(hsv, 0), Some(mask)).value.mean
    ensures r.Some? ==> Get(r.value.rgb.mean, 0) == MaskedStats(Channel(bgr, 2), Some(mask)).value.mean
    ensures (forall i :: 0 <= i < |mask| ==> mask[i] == 0 || mask[i] == 255) ==>
      (r.Some? ==> r.value.area == IncludedCount(mask) as real)
  {
    var m := Some(mask);
    var b, h, l := AvColor(bgr, m), AvColor(hsv, m), AvColor(lab, m);
    if b.None? || h.None? || l.None? then None
    else
      AreaOfBinaryMask(mask);
      Some(ZoneRecord(ColorStats(Reverse(b.value.mean), Reverse(b.value.variance)), h.value, l.value, MaskArea(mask)))
  }

  lemma AreaOfBinaryMask(mask: seq<int>)
    ensures (forall i :: 0 <= i < |mask| ==> mask[i] == 0 || mask[i] == 255) ==>
      MaskArea(mask) == IncludedCount(mask) as real
  {
    if forall i :: 0 <= i < |mask| ==> mask[i] == 0 || mask[i] == 255 {
      BinaryMaskArea(mask);
    }
  }
}
