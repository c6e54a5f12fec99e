/** Mask Generator: the HSV threshold mask of `AnalysisWindow.cvMask` and the
    dilate/erode code string kept by `setDileroMode` and replayed by
    `cvDilateErode`. The morphology operators themselves are OpenCV calls and
    are represented only by the ordered list of operations to apply. */
module Mask {
  import opened Basics

  /** One pixel of the image's HSV view (OpenCV 8-bit: hue 0..179). */
  datatype Hsv = Hsv(h: Byte, s: Byte, v: Byte)

  /** A per-channel bound for `cv2.inRange`. */
  datatype Bound = Bound(h: int, s: int, v: int)

  /** A two-dimensional pixel grid, row-major. */
  type Grid<T> = seq<seq<T>>

  predicate SameShape<S, T>(a: Grid<S>, b: Grid<T>) {
    |a| == |b| && forall r :: 0 <= r < |a| ==> |a[r]| == |b[r]|
  }

  /** A slider reading made into a threshold: truncated toward zero, then
      clipped to 0..255. */
  function Threshold(slider: real): (t: Byte)
    ensures 0.0 <= slider < 256.0 ==> t == slider.Floor
    ensures slider < 1.0 ==> t == 0
    ensures slider >= 255.0 ==> t == 255
  {
    Clip(Trunc(slider), 0, 255)
  }

  /** `cv2.inRange` on one pixel: 255 when every channel lies within its
      closed bounds, 0 otherwise. */
  function InRange(p: Hsv, lo: Bound, hi: Bound): Byte {
    if lo.h <= p.h <= hi.h && lo.s <= p.s <= hi.s && lo.v <= p.v <= hi.v then 255 else 0
  }

  const Top := Bound(255, 255, 255)

  /** AND mode: one range test against the summed lower bound `[0, smin, vmin]`. */
  function PixelAnd(p: Hsv, smin: int, vmin: int): Byte {
    var lowS := Bound(0, smin, 0);
    var lowV := Bound(0, 0, vmin);
    InRange(p, Bound(lowS.h + lowV.h, lowS.s + lowV.s, lowS.v + lowV.v), Top)
  }

  /** OR mode: the logical OR of the saturation and value range tests, scaled
      back to 0/255. */
  function PixelOr(p: Hsv, smin: int, vmin: int): Byte {
    var maskS := InRange(p, Bound(0, smin, 0), Top);
    var maskV := InRange(p, Bound(0, 0, vmin), Top);
    if maskS != 0 || maskV != 0 then 255 else 0
  }

  /** `cvMask`: mode 0 is AND, mode 1 is OR, and any other mode value leaves the
      previously analysed buffer in place. Threshold 1 bounds the value
      channel and threshold 2 the saturation channel. */
  function ThresholdMask(img: Grid<Hsv>, slider1: real, slider2: real, mode: int,
                         previous: Grid<Byte>): (m: Grid<Byte>)
    ensures mode != 0 && mode != 1 ==> m == previous
    ensures mode == 0 || mode == 1 ==> SameShape(img, m)
    ensures mode == 0 ==> forall r, c :: 0 <= r < |img| && 0 <= c < |img[r]| ==>
      (m[r][c] == 255 <==> img[r][c].s >= Threshold(slider2) && img[r][c].v >= Threshold(slider1))
    ensures mode == 1 ==> forall r, c :: 0 <= r < |img| && 0 <= c < |img[r]| ==>
      (m[r][c] == 255 <==> img[r][c].s >= Threshold(slider2) || img[r][c].v >= Threshold(slider1))
    ensures mode == 0 || mode == 1 ==> forall r, c :: 0 <= r < |m| && 0 <= c < |m[r]| ==>
      m[r][c] == 0 || m[r][c] == 255
  {
    var smin := Threshold(slider2);
    var vmin := Threshold(slider1);
    if mode == 0 then
      seq(|img|, r requires 0 <= r < |img| =>
        seq(|img[r]|, c requires 0 <= c < |img[r]| => PixelAnd(img[r][c], smin, vmin)))
    else if mode == 1 then
      seq(|img|, r requires 0 <= r < |img| =>
        seq(|img[r]|, c requires 0 <= c < |img[r]| => PixelOr(img[r][c], smin, vmin)))
    else
      previous
  }

  /** Two pixels that differ only in hue get the same mask value in both modes. */
  lemma HueIrrelevant(p: Hsv, q: Hsv, smin: int, vmin: int)
    requires p.s == q.s && p.v == q.v
    ensures PixelAnd(p, smin, vmin) == PixelAnd(q, smin, vmin)
    ensures PixelOr(p, smin, vmin) == PixelOr(q, smin, vmin)
  {
  }

  /** One morphological step of `cvDilateErode` (5x5 kernel, not modelled). */
  datatype Morph = Dilate | Erode

  /** `setDileroMode`: the Dilate button (1) appends 'd', the Erode button
      (-1) appends 'e', the reset (0) clears the code; other modes keep it. */
  function SetDileroMode(code: string, mode: int): (r: string)
    ensures mode == 1 ==> |r| == |code| + 1 && r[..|code|] == code && multiset(r)['d'] == multiset(code)['d'] + 1
                          && multiset(r)['e'] == multiset(code)['e']
    ensures mode == -1 ==> |r| == |code| + 1 && r[..|code|] == code && multiset(r)['e'] == multiset(code)['e'] + 1
                           && multiset(r)['d'] == multiset(code)['d']
    ensures mode == 0 ==> r == ""
    ensures mode !in {1, -1, 0} ==> r == code
  {
    if mode == 1 then code + "d"
    else if mode == -1 then code + "e"
    else if mode == 0 then ""
    else code
  }

  /** The morphology operations `cvDilateErode` performs, in order: one per
      'd' or 'e' of the code, other letters skipped. */
  function MorphOps(code: string): (ops: seq<Morph>)
    ensures |ops| == multiset(code)['d'] + multiset(code)['e']
    ensures multiset(ops)[Dilate] == multiset(code)['d']
    ensures multiset(ops)[Erode] == multiset(code)['e']
  {
    if |code| == 0 then []
    else
      var n := |code| - 1;
      assert code == code[..n] + [code[n]];
      MorphOps(code[..n]) + OpOf(code[n])
  }

  /** The operation one letter of the code stands for, if any. */
  function OpOf(c: char): seq<Morph> {
    if c == 'd' then [Dilate] else if c == 'e' then [Erode] else []
  }

  /** Each button press adds its operation at the end of the replay, and the
      reset leaves nothing to replay; so the code replays the presses since
      the last reset, in the order they were made. */
  lemma ButtonsReplayInOrder(code: string)
    ensures MorphOps(SetDileroMode(code, 1)) == MorphOps(code) + [Dilate]
    ensures MorphOps(SetDileroMode(code, -1)) == MorphOps(code) + [Erode]
    ensures MorphOps(SetDileroMode(code, 0)) == []
  {
    assert (code + "d")[..|code|] == code;
    assert (code + "e")[..|code|] == code;
  }

  /** One more letter adds its operation, if any, at the end. */
  lemma MorphOpsSnoc(code: string, c: char)
    ensures MorphOps(code + [c]) == MorphOps(code) + OpOf(c)
  {
    assert (code + [c])[..|code|] == code;
  }

  /** The replay of a code is the replay of its first part followed by the
      replay of the rest. */
  lemma {:induction false} MorphOpsAppend(a: string, b: string)
    ensures MorphOps(a + b) == MorphOps(a) + MorphOps(b)
    decreases |b|
  {
    if |b| == 0 {
      assert a + b == a;
    } else {
      var n := |b| - 1;
      assert a + b == (a + b[..n]) + [b[n]];
      MorphOpsSnoc(a + b[..n], b[n]);
      MorphOpsAppend(a, b[..n]);
      FrontLast(b);
      MorphOpsSnoc(b[..n], b[n]);
      var x, y, z := MorphOps(a), MorphOps(b[..n]), OpOf(b[n]);
      assert MorphOps(a + b) == (x + y) + z;
      assert MorphOps(b) == y + z;
      AppendAssociative(x, y, z);
    }
  }

  /** `cvDilateErode`'s counters: they restart at zero and count the letters
      of the code as the operations are replayed. */
  method DileroCounters(code: string) returns (dilations: nat, erosions: nat)
    ensures dilations == multiset(code)['d']
    ensures erosions == multiset(code)['e']
    ensures dilations + erosions == |MorphOps(code)|
  {
    dilations, erosions := 0, 0;
    var i := 0;
    while i < |code|
      invariant 0 <= i <= |code|
      invariant dilations == multiset(code[..i])['d']
      invariant erosions == multiset(code[..i])['e']
    {
      assert code[..i + 1] == code[..i] + [code[i]];
      if code[i] == 'd' {
        dilations := dilations + 1;
      }
      if code[i] == 'e' {
        erosions := erosions + 1;
      }
      i := i + 1;
    }
    assert code[..|code|] == code;
  }
}
