/** Zone Geometry Refiner and reading-order relabelling: the center
    displacement of `refineZones`, the per-zone sampling window and the
    `np.lexsort` reordering of `analyzeContours`. Rasterising the shapes
    (`drawShape`) is an OpenCV call and is not modelled; the masks it
    produces travel through here as opaque values. */
module Refine {
  import opened Basics
  import opened Ordering
  import opened Selection

  /** The refiner's shape choice with its integer size parameters; the
      polygon angle is kept only as a value. */
  datatype ZoneShape =
    | Circle(radius: int)
    | Rectangle(width: int, height: int)
    | Polygon(sides: int, angle: real, radius: int)

  /** `refiner_data[-1]`: the list of sizes the shape data ends with. */
  function SizeData(shape: ZoneShape): (d: seq<int>)
    ensures shape.Rectangle? ==> d == [shape.width, shape.height]
    ensures !shape.Rectangle? ==> d == [shape.radius]
  {
    match shape
    case Circle(r) => [r]
    case Polygon(_, _, r) => [r]
    case Rectangle(w, h) => [w, h]
  }

  /** `refinedCenters`: every centroid moved by the one displacement
      `(dx, -dy)` (the refiner's y axis points up, the image's down). */
  function RefineCenters(centers: seq<Point>, dx: int, dy: int): (r: seq<Point>)
    ensures |r| == |centers|
    ensures forall i :: 0 <= i < |r| ==> r[i].x - centers[i].x == dx && centers[i].y - r[i].y == dy
  {
    seq(|centers|, i requires 0 <= i < |centers| => Point(centers[i].x + dx, centers[i].y - dy))
  }

  /** All zones move by the same vector. */
  lemma UniformDisplacement(centers: seq<Point>, dx: int, dy: int, i: int, j: int)
    requires 0 <= i < |centers| && 0 <= j < |centers|
    ensures var r := RefineCenters(centers, dx, dy);
      r[i].x - centers[i].x == r[j].x - centers[j].x && r[i].y - centers[i].y == r[j].y - centers[j].y
  {
  }

  /** The opposite displacement restores the centroids. */
  lemma RefineUndo(centers: seq<Point>, dx: int, dy: int)
    ensures RefineCenters(RefineCenters(centers, dx, dy), -dx, -dy) == centers
  {
    var back := RefineCenters(RefineCenters(centers, dx, dy), -dx, -dy);
    assert forall i :: 0 <= i < |centers| ==> back[i] == centers[i];
  }

  /** A crop window: top-left corner and size. */
  datatype Window = Window(x: int, y: int, w: int, h: int)

  predicate InWindow(px: int, py: int, win: Window) {
    win.x <= px < win.x + win.w && win.y <= py < win.y + win.h
  }

  /** The window `analyzeContours` samples a refined zone in: centered on
      the zone center, reaching out by the first size entry horizontally and
      the last one vertically. */
  function SamplingWindow(center: Point, shape: ZoneShape): (win: Window)
    ensures win.w == 2 * SizeData(shape)[0] + 1 && win.h == 2 * SizeData(shape)[|SizeData(shape)| - 1] + 1
    ensures 2 * (center.x - win.x) + 1 == win.w && 2 * (center.y - win.y) + 1 == win.h
    ensures !shape.Rectangle? ==> win.w == win.h == 2 * shape.radius + 1
  {
    var d := SizeData(shape);
    var a, b := d[0], d[|d| - 1];
    Window(Trunc((center.x - a) as real), Trunc((center.y - b) as real), a * 2 + 1, b * 2 + 1)
  }

  /** A filled circle or polygon of radius r lies in the square of side
      2r+1 around its center, and every pixel of that square is inside the
      window. */
  lemma DiscInWindow(center: Point, shape: ZoneShape, px: int, py: int)
    requires !shape.Rectangle?
    requires center.x - shape.radius <= px <= center.x + shape.radius
    requires center.y - shape.radius <= py <= center.y + shape.radius
    ensures InWindow(px, py, SamplingWindow(center, shape))
  {
  }

  /** The corners `drawShape` gives a rectangle of size w x h at the center:
      the center minus and plus half the size, truncated. Both corners lie in
      the sampling window, which is twice as large as the rectangle. */
  lemma RectangleInWindow(center: Point, w: int, h: int)
    requires w >= 0 && h >= 0
    ensures var win := SamplingWindow(center, Rectangle(w, h));
      InWindow(Trunc(center.x as real - w as real / 2.0), Trunc(center.y as real - h as real / 2.0), win)
      && InWindow(Trunc(center.x as real + w as real / 2.0), Trunc(center.y as real + h as real / 2.0), win)
  {
    HalfStep(center.x, w);
    HalfStep(center.y, h);
  }

  /** Truncating `c -+ w/2` stays within `c - w .. c + w`. */
  lemma HalfStep(c: int, w: int)
    requires w >= 0
    ensures c - w <= Trunc(c as real - w as real / 2.0) <= c + w
    ensures c - w <= Trunc(c as real + w as real / 2.0) <= c + w
  {
  }

  /** Sort keys for reading order: row (y) first, then column (x). */
  function CenterKeys(centers: seq<Point>): (keys: seq<Key>)
    ensures |keys| == |centers|
    ensures forall i :: 0 <= i < |centers| ==> keys[i] == Key(centers[i].y as real, centers[i].x as real)
  {
    seq(|centers|, i requires 0 <= i < |centers| => Key(centers[i].y as real, centers[i].x as real))
  }

  /** Center `p` comes no later than center `q` in reading order. */
  predicate ReadsBefore(p: Point, q: Point) {
    p.y < q.y || (p.y == q.y && p.x <= q.x)
  }

  /** `np.lexsort((x, y))`: the stable permutation that puts the zones in
      reading order, top row first, left to right within a row, ties in
      their detection order. */
  function ReadingOrder(centers: seq<Point>): (perm: seq<int>)
    ensures |perm| == |centers|
    ensures forall k :: 0 <= k < |perm| ==> 0 <= perm[k] < |centers|
    ensures forall i :: 0 <= i < |centers| ==> i in perm
    ensures forall a, b :: 0 <= a < b < |perm| ==> perm[a] != perm[b]
    ensures forall a, b :: 0 <= a < b < |perm| ==> ReadsBefore(centers[perm[a]], centers[perm[b]])
    ensures forall a, b :: 0 <= a < b < |perm| && centers[perm[a]] == centers[perm[b]] ==> perm[a] < perm[b]
  {
    var keys := CenterKeys(centers);
    var perm := Argsort(keys, Range(|centers|));
    SortedDistinct(keys, perm);
    ReadingOrderFacts(centers, perm);
    perm
  }

  lemma ReadingOrderFacts(centers: seq<Point>, perm: seq<int>)
    requires SortedBy(CenterKeys(centers), perm)
    requires multiset(perm) == multiset(Range(|centers|))
    ensures forall i :: 0 <= i < |centers| ==> i in perm
    ensures forall a, b :: 0 <= a < b < |perm| ==> ReadsBefore(centers[perm[a]], centers[perm[b]])
    ensures forall a, b :: 0 <= a < b < |perm| && centers[perm[a]] == centers[perm[b]] ==> perm[a] < perm[b]
  {
    var keys := CenterKeys(centers);
    forall i | 0 <= i < |centers| ensures i in perm {
      assert Range(|centers|)[i] == i;
      assert i in multiset(Range(|centers|));
    }
    forall a, b | 0 <= a < b < |perm|
      ensures ReadsBefore(centers[perm[a]], centers[perm[b]])
      ensures centers[perm[a]] == centers[perm[b]] ==> perm[a] < perm[b]
    {
      assert Precedes(keys, perm[a], perm[b]);
    }
  }

  /** The per-zone arrays `analyzeContours` reorders. The indices and the
      centers come from `findCenters` and always agree in length. The refined
      masks and centers are made together by `refineZones`, one pair per zone
      of that moment; `cvContour` later empties the masks alone. */
  datatype Zones<M> = Zones(indices: seq<int>, centers: seq<Point>,
                            refinedMasks: seq<M>, refinedCenters: seq<Point>)

  /** What the source keeps true of these arrays at every step. Nothing ties
      the refined arrays to the current number of zones. */
  predicate WellFormed<M>(z: Zones<M>) {
    |z.indices| == |z.centers|
    && (|z.refinedMasks| != 0 ==> |z.refinedMasks| == |z.refinedCenters|)
  }

  /** The refined arrays belong to the current zones: there are none, or
      there is one per zone and each refined center is that zone's centroid
      displaced by `(dx, -dy)`. */
  predicate Paired<M>(z: Zones<M>, dx: int, dy: int) {
    WellFormed(z)
    && (|z.refinedMasks| != 0 ==> z.refinedCenters == RefineCenters(z.centers, dx, dy))
  }

  /** `refineZones`: the reference contour's center is looked up in
      `indDict`, whose keys are the current zone indices, so a reference
      that is not a current zone (shift-clicked away, or filtered out) raises
      before any dialog opens. Otherwise, once the dialog closes: one mask per
      current zone (drawn by OpenCV, so given here) and every centroid
      displaced by `(dx, -dy)`. */
  function RefineZones<M>(z: Zones<M>, reference: int, masks: seq<M>, dx: int, dy: int): (r: Result<Zones<M>>)
    requires WellFormed(z)
    requires |masks| == |z.centers|
    ensures r.Failure? <==> reference !in z.indices
    ensures r.Failure? ==> r.error == MissingKey
    ensures r.Success? ==> r.value.indices == z.indices && r.value.centers == z.centers && r.value.refinedMasks == masks
    ensures r.Success? ==> Paired(r.value, dx, dy)
  {
    if reference !in z.indices then Failure(MissingKey)
    else Success(Zones(z.indices, z.centers, masks, RefineCenters(z.centers, dx, dy)))
  }

  /** `findCenters` run again after refining, by a tolerance slider, the Find
      Similar button or a shift-click: new indices and centers, while the
      refined arrays stay as they were. */
  function Rezone<M>(z: Zones<M>, indices: seq<int>, centers: seq<Point>): (r: Zones<M>)
    requires WellFormed(z)
    requires |indices| == |centers|
    ensures WellFormed(r) && r.indices == indices && r.centers == centers
    ensures r.refinedMasks == z.refinedMasks && r.refinedCenters == z.refinedCenters
  {
    Zones(indices, centers, z.refinedMasks, z.refinedCenters)
  }

  /** The corrected re-run: a new zone set discards the refinement, as
      `cvContour` does, so the refined arrays can never belong to other
      zones. */
  function RezoneClearing<M>(z: Zones<M>, indices: seq<int>, centers: seq<Point>): (r: Zones<M>)
    requires WellFormed(z)
    requires |indices| == |centers|
    ensures r.indices == indices && r.centers == centers
    ensures forall dx, dy :: Paired(r, dx, dy)
  {
    Zones(indices, centers, [], [])
  }

  /** The reordering step: one permutation, computed from the centroids,
      applied to the indices, the centers and (when there are refined masks)
      the refined masks and centers. numpy's fancy indexing fails when the
      permutation names a zone past the end of the refined masks; when there
      are more refined masks than zones, the extra ones are silently
      dropped. */
  function Relabel<M>(z: Zones<M>): (r: Result<Zones<M>>)
    requires WellFormed(z)
    ensures r.Failure? <==> 0 < |z.refinedMasks| < |z.centers|
    ensures r.Failure? ==> r.error == IndexOutOfRange
    ensures r.Success? ==> WellFormed(r.value) && |r.value.indices| == |z.indices|
    ensures r.Success? && |z.refinedMasks| != 0 ==> |r.value.refinedMasks| == |z.centers|
    ensures r.Success? ==> forall a, b :: 0 <= a < b < |r.value.centers| ==>
      ReadsBefore(r.value.centers[a], r.value.centers[b])
    ensures r.Success? ==> forall k :: 0 <= k < |r.value.indices| ==>
      var j := ReadingOrder(z.centers)[k];
      r.value.indices[k] == z.indices[j] && r.value.centers[k] == z.centers[j]
      && (|z.refinedMasks| != 0 ==>
            r.value.refinedMasks[k] == z.refinedMasks[j] && r.value.refinedCenters[k] == z.refinedCenters[j])
    ensures r.Success? && |z.refinedMasks| == 0 ==>
      r.value.refinedMasks == z.refinedMasks && r.value.refinedCenters == z.refinedCenters
  {
    var perm := ReadingOrder(z.centers);
    if |z.refinedMasks| == 0 then
      Success(Zones(Permute(perm, z.indices), Permute(perm, z.centers), z.refinedMasks, z.refinedCenters))
    else if |z.refinedMasks| < |z.centers| then
      Failure(IndexOutOfRange)
    else
      Success(Zones(Permute(perm, z.indices), Permute(perm, z.centers),
                    Permute(perm, z.refinedMasks), Permute(perm, z.refinedCenters)))
  }

  /** A reference that is no longer a zone, for instance after a
      shift-click removed it, stops the refinement with a KeyError. */
  lemma RemovedReferenceCannotRefine<M>(m: M)
    ensures RefineZones(Zones([1], [Point(0, 0)], [], []), 0, [m], 0, 0) == Failure(MissingKey)
  {
  }

  /** `np.argmax`: the position of the first largest value; numpy raises on
      an empty array. */
  function ArgMax(sizes: seq<real>): (r: Result<nat>)
    ensures r.Failure? <==> |sizes| == 0
    ensures r.Failure? ==> r.error == EmptyArgmax
    ensures r.Success? ==> r.value < |sizes|
    ensures r.Success? ==> forall j :: 0 <= j < |sizes| ==> sizes[j] <= sizes[r.value]
    ensures r.Success? ==> forall j :: 0 <= j < r.value ==> sizes[j] < sizes[r.value]
  {
    if |sizes| == 0 then Failure(EmptyArgmax)
    else
      var front := ArgMax(sizes[..|sizes| - 1]);
      if front.Failure? || sizes[|sizes| - 1] > sizes[front.value] then Success(|sizes| - 1)
      else Success(front.value)
  }

  predicate IsLargest(sizes: seq<real>, p: int)
    requires 0 <= p < |sizes|
  {
    forall j :: 0 <= j < |sizes| ==> sizes[j] <= sizes[p]
  }

  /** The contour that sets the label sizes in `analyzeContours`:
      `closeIndsPlus[argmax(closeSizes)]`. With no zones the analysis stops
      here, after its directory has been created. */
  function LargestZone(indices: seq<int>, sizes: seq<real>): (r: Result<int>)
    requires |indices| == |sizes|
    ensures r.Failure? <==> |indices| == 0
    ensures r.Failure? ==> r.error == EmptyArgmax
    ensures r.Success? ==> exists p :: 0 <= p < |indices| && r.value == indices[p] && IsLargest(sizes, p)
  {
    var a := ArgMax(sizes);
    if a.Failure? then Failure(a.error) else Success(indices[a.value])
  }

  /** An empty selection (shape tolerance 0, or the only match shift-clicked
      away) gets through `findCenters` but not the analysis. */
  lemma EmptySelectionStopsAnalysis(moments: seq<Moments>)
    ensures var c := FindCenters([], moments);
      c.Success? && LargestZone([], c.value.closeSizes) == Failure(EmptyArgmax)
  {
  }

  /** Reordering zones whose refined arrays belong to them never fails and
      keeps every refined mask and center with its own zone. */
  lemma PairedRelabels<M>(z: Zones<M>, dx: int, dy: int)
    requires Paired(z, dx, dy)
    ensures Relabel(z).Success?
    ensures Paired(Relabel(z).value, dx, dy)
  {
    var r := Relabel(z).value;
    if |z.refinedMasks| != 0 {
      var moved := RefineCenters(r.centers, dx, dy);
      forall k | 0 <= k < |r.refinedCenters| ensures r.refinedCenters[k] == moved[k] {
        var j := ReadingOrder(z.centers)[k];
        assert r.refinedCenters[k] == RefineCenters(z.centers, dx, dy)[j];
      }
    }
  }

  /** Three zones refined, then a tighter size tolerance leaves contours 0
      and 2: the analysis runs without an error, but the zone of contour 2
      is measured with the refined mask and center made for contour 1. */
  lemma StaleRefinementMisPairs<M>(m0: M, m1: M, m2: M)
    ensures var before := Zones([0, 1, 2], [Point(0, 0), Point(10, 0), Point(20, 0)], [], []);
      var now := Rezone(RefineZones(before, 0, [m0, m1, m2], 0, 0).value, [0, 2], [Point(0, 0), Point(20, 0)]);
      var r := Relabel(now);
      r.Success? && r.value.indices[1] == 2 && r.value.centers[1] == Point(20, 0)
      && r.value.refinedMasks[1] == m1 && r.value.refinedCenters[1] == Point(10, 0)
  {
    TwoInRow();
  }

  /** Two centers on one row, left one first, keep their order. */
  lemma TwoInRow()
    ensures ReadingOrder([Point(0, 0), Point(20, 0)]) == [0, 1]
  {
    var c := [Point(0, 0), Point(20, 0)];
    var expected := [0, 1];
    assert forall i :: 0 <= i < 2 ==> i in expected by {
      assert expected[0] == 0 && expected[1] == 1;
    }
    assert CenterKeys(c) == [Key(0.0, 0.0), Key(0.0, 20.0)];
    ReadingOrderIs(c, expected);
  }

  /** Two zones refined, then a looser size tolerance finds a third: the
      reordering indexes past the two refined masks. */
  lemma StaleRefinementIndexError<M>(m0: M, m1: M)
    ensures var before := Zones([0, 1], [Point(0, 0), Point(10, 0)], [], []);
      var now := Rezone(RefineZones(before, 0, [m0, m1], 0, 0).value, [0, 1, 2], [Point(0, 0), Point(10, 0), Point(20, 0)]);
      Relabel(now) == Failure(IndexOutOfRange)
  {
  }

  /** Any duplicate-free reading-order listing of all zones is the one
      `ReadingOrder` computes. */
  lemma ReadingOrderIs(centers: seq<Point>, expected: seq<int>)
    requires |expected| == |centers|
    requires forall i :: 0 <= i < |centers| ==> i in expected
    requires forall k :: 0 <= k < |expected| ==> 0 <= expected[k] < |centers|
    requires forall a, b :: 0 <= a < b < |expected| ==> expected[a] != expected[b]
    requires SortedBy(CenterKeys(centers), expected)
    ensures ReadingOrder(centers) == expected
  {
    var perm := ReadingOrder(centers);
    SortedByFromReadingOrder(centers, perm);
    PermutationsAgree(|centers|, perm, expected);
    SortedUnique(CenterKeys(centers), perm, expected);
  }

  /** Centers (50,10), (10,10), (30,5) are numbered (30,5), (10,10), (50,10). */
  lemma ReadingOrderExample()
    ensures ReadingOrder([Point(50, 10), Point(10, 10), Point(30, 5)]) == [2, 1, 0]
  {
    var c := [Point(50, 10), Point(10, 10), Point(30, 5)];
    var expected := [2, 1, 0];
    assert CenterKeys(c) == [Key(10.0, 50.0), Key(10.0, 10.0), Key(5.0, 30.0)];
    assert forall i :: 0 <= i < 3 ==> i in expected by {
      assert expected[0] == 2 && expected[1] == 1 && expected[2] == 0;
    }
    ReadingOrderIs(c, expected);
  }

  /** The contract of `ReadingOrder` determines its result. */
  lemma SortedByFromReadingOrder(centers: seq<Point>, perm: seq<int>)
    requires forall k :: 0 <= k < |perm| ==> 0 <= perm[k] < |centers|
    requires forall a, b :: 0 <= a < b < |perm| ==> perm[a] != perm[b]
    requires forall a, b :: 0 <= a < b < |perm| ==> ReadsBefore(centers[perm[a]], centers[perm[b]])
    requires forall a, b :: 0 <= a < b < |perm| && centers[perm[a]] == centers[perm[b]] ==> perm[a] < perm[b]
    ensures SortedBy(CenterKeys(centers), perm)
  {
  }

  /** Sorting by the displaced centers gives the same order as sorting by the
      centroids: one displacement for all zones never reorders them. */
  lemma ReadingOrderIgnoresDisplacement(centers: seq<Point>, dx: int, dy: int)
    ensures ReadingOrder(RefineCenters(centers, dx, dy)) == ReadingOrder(centers)
  {
    var moved := RefineCenters(centers, dx, dy);
    var p := ReadingOrder(centers);
    var q := ReadingOrder(moved);
    SortedByFromReadingOrder(centers, p);
    SortedByFromReadingOrder(moved, q);
    assert SortedBy(CenterKeys(moved), p) by {
      forall a, b | 0 <= a < b < |p| ensures Precedes(CenterKeys(moved), p[a], p[b]) {
        assert Precedes(CenterKeys(centers), p[a], p[b]);
      }
    }
    PermutationsAgree(|centers|, p, q);
    SortedUnique(CenterKeys(moved), p, q);
  }

  /** Two duplicate-free lists of the indices 0 .. n-1 hold the same
      multiset. */
  lemma PermutationsAgree(n: nat, p: seq<int>, q: seq<int>)
    requires |p| == |q| == n
    requires forall i :: 0 <= i < n ==> i in p && i in q
    requires forall k :: 0 <= k < n ==> 0 <= p[k] < n && 0 <= q[k] < n
    requires forall a, b :: 0 <= a < b < n ==> p[a] != p[b] && q[a] != q[b]
    ensures multiset(p) == multiset(q)
  {
    var sp, sq := set k | k in p, set k | k in q;
    assert sp == sq;
    DistinctMultiset(p);
    DistinctMultiset(q);
  }

  /** A duplicate-free list's multiset is its set of elements. */
  lemma {:induction false} DistinctMultiset(p: seq<int>)
    requires forall a, b :: 0 <= a < b < |p| ==> p[a] != p[b]
    ensures multiset(p) == multiset(set k | k in p)
  {
    if |p| > 0 {
      var n := |p| - 1;
      DistinctMultiset(p[..n]);
      assert p == p[..n] + [p[n]];
      assert p[n] !in p[..n];
      assert (set k | k in p) == (set k | k in p[..n]) + {p[n]};
    }
  }
}
