/** Similarity Matcher: `getSimilarContours` (size and shape filters against
    the reference contour), `selectContour` and `appendContour` (the
    selection lists `closeInds`, `addConts`, `removeConts`), and
    `findCenters` (centroids and the index dictionary `indDict`).
    `cv2.matchShapes` and `cv2.moments` are OpenCV calls: their results arrive
    as one score and one moment triple per contour. */
module Selection {
  import opened Basics
  import opened Ordering

  /** numpy's default absolute tolerance in `isclose`. */
  const Atol: real := 0.00000001

  /** `np.isclose(a, b, rtol)`: the tolerance is relative to `b` only. */
  predicate IsClose(a: real, b: real, rtol: real) {
    Abs(a - b) <= Atol + rtol * Abs(b)
  }

  /** The size tolerance in percent as the slider leaves it: clipped to
      0..100. */
  function SizeTolerance(slider: real): real {
    ClipReal(slider, 0.0, 100.0)
  }

  /** The shape tolerance as the slider leaves it: clipped to 0..2. */
  function ShapeTolerance(slider: real): real {
    ClipReal(slider, 0.0, 2.0)
  }

  /** The size filter of `getSimilarContours`: contour `i` survives iff its
      area is within the (clipped) percentage of the reference's area,
      measured against the reference only. */
  function SizeMatches(sizes: seq<real>, ref: int, sizeTol: real): (m: set<int>)
    requires 0 <= ref < |sizes|
    ensures forall i :: i in m ==> 0 <= i < |sizes|
    ensures forall i :: 0 <= i < |sizes| ==>
      (i in m <==> Abs(sizes[i] - sizes[ref]) <= Atol + SizeTolerance(sizeTol) / 100.0 * Abs(sizes[ref]))
    ensures ref in m
  {
    set i | 0 <= i < |sizes| && IsClose(sizes[i], sizes[ref], SizeTolerance(sizeTol) / 100.0)
  }

  /** The shape filter: a size survivor stays iff its shape score against the
      reference is strictly below the (clipped) shape tolerance. */
  function ShapeMatches(candidates: set<int>, scores: seq<real>, shapeTol: real): (m: set<int>)
    requires forall i :: i in candidates ==> 0 <= i < |scores|
    ensures m <= candidates
    ensures forall i :: i in candidates ==> (i in m <==> scores[i] < ShapeTolerance(shapeTol))
  {
    set i | i in candidates && scores[i] < ShapeTolerance(shapeTol)
  }

  /** A larger size tolerance never loses a match. */
  lemma SizeMatchesMonotone(sizes: seq<real>, ref: int, s1: real, s2: real)
    requires 0 <= ref < |sizes| && s1 <= s2
    ensures SizeMatches(sizes, ref, s1) <= SizeMatches(sizes, ref, s2)
  {
    var t1, t2 := SizeTolerance(s1), SizeTolerance(s2);
    assert t1 <= t2;
    var a := Abs(sizes[ref]);
    ScaleMonotone(t1, t2, a);
    var w1, w2 := Atol + t1 / 100.0 * a, Atol + t2 / 100.0 * a;
    assert w1 <= w2;
    forall i | i in SizeMatches(sizes, ref, s1) ensures i in SizeMatches(sizes, ref, s2) {
      assert 0 <= i < |sizes|;
      assert Abs(sizes[i] - sizes[ref]) <= w1;
    }
  }

  lemma ScaleMonotone(t1: real, t2: real, a: real)
    requires t1 <= t2 && a >= 0.0
    ensures t1 / 100.0 * a <= t2 / 100.0 * a
  {
    assert (t2 / 100.0 - t1 / 100.0) * a >= 0.0;
  }

  /** At tolerance 0 only areas within numpy's absolute tolerance of the
      reference's survive (not only the exactly equal ones). */
  lemma SizeToleranceZero(sizes: seq<real>, ref: int, i: int)
    requires 0 <= ref < |sizes| && 0 <= i < |sizes|
    ensures i in SizeMatches(sizes, ref, 0.0) <==> Abs(sizes[i] - sizes[ref]) <= Atol
  {
  }

  /** The size test is not symmetric: with a 10% tolerance an area of 90.5
      matches a reference of 100, but 100 does not match a reference of 90.5. */
  lemma SizeMatchNotSymmetric()
    ensures 1 in SizeMatches([100.0, 90.5], 0, 10.0)
    ensures 0 !in SizeMatches([100.0, 90.5], 1, 10.0)
  {
  }

  /** With non-negative scores a shape tolerance of 0 keeps nothing. */
  lemma ShapeToleranceZeroKeepsNothing(candidates: set<int>, scores: seq<real>, shapeTol: real)
    requires forall i :: i in candidates ==> 0 <= i < |scores| && scores[i] >= 0.0
    requires shapeTol <= 0.0
    ensures ShapeMatches(candidates, scores, shapeTol) == {}
  {
  }

  /** The selection state: the reference contour and the three index lists. */
  datatype SelectionState = SelectionState(selected: int, closeInds: set<int>,
                                           addConts: set<int>, removeConts: set<int>)

  /** `closeIndsPlus`: the matched contours plus the manually added ones,
      minus the manually removed ones. */
  function Effective(st: SelectionState): set<int> {
    (st.closeInds + st.addConts) - st.removeConts
  }

  /** Every removal is of a matched contour. */
  predicate RemovalsMatched(st: SelectionState) {
    st.removeConts <= st.closeInds
  }

  /** `selectContour`: a click inside a contour makes it the reference and
      clears all three lists; a click outside any contour (-1) does nothing. */
  function SelectContour(st: SelectionState, inContour: int): (r: SelectionState)
    ensures inContour != -1 ==>
      r.selected == inContour && r.closeInds == {} && r.addConts == {} && Effective(r) == {} && RemovalsMatched(r)
    ensures inContour == -1 ==> r == st
  {
    if inContour != -1 then SelectionState(inContour, {}, {}, {}) else st
  }

  /** `getSimilarContours`: recompute the matches for the current reference;
      the added list is kept and the removed list is cleared, so afterwards
      the effective set is the matches plus the added contours. */
  function FindSimilar(st: SelectionState, sizes: seq<real>, scores: seq<real>,
                       sizeTol: real, shapeTol: real): (r: SelectionState)
    requires 0 <= st.selected < |sizes| == |scores|
    ensures r.selected == st.selected && r.addConts == st.addConts && r.removeConts == {}
    ensures RemovalsMatched(r)
    ensures Effective(r) == r.closeInds + st.addConts
    ensures forall i :: i in r.closeInds <==>
      0 <= i < |sizes| && IsClose(sizes[i], sizes[st.selected], SizeTolerance(sizeTol) / 100.0)
      && scores[i] < ShapeTolerance(shapeTol)
  {
    var bySize := SizeMatches(sizes, st.selected, sizeTol);
    st.(closeInds := ShapeMatches(bySize, scores, shapeTol), removeConts := {})
  }

  /** The reference matches itself whenever its own shape score is below the
      tolerance (`matchShapes` scores identical contours 0). */
  lemma ReferenceMatchesItself(st: SelectionState, sizes: seq<real>, scores: seq<real>,
                               sizeTol: real, shapeTol: real)
    requires 0 <= st.selected < |sizes| == |scores|
    requires scores[st.selected] == 0.0 && shapeTol > 0.0
    ensures st.selected in FindSimilar(st, sizes, scores, sizeTol, shapeTol).closeInds
  {
    assert ShapeTolerance(shapeTol) > 0.0;
  }

  /** The four-way shift-click toggle of `appendContour` on a contour index. */
  function Toggle(st: SelectionState, x: int): (r: SelectionState)
    ensures r.selected == st.selected && r.closeInds == st.closeInds
    ensures RemovalsMatched(st) ==> RemovalsMatched(r)
    ensures RemovalsMatched(st) ==> (x in Effective(r) <==> x !in Effective(st))
    ensures forall y :: y != x ==> (y in Effective(r) <==> y in Effective(st))
  {
    if x !in st.closeInds && x !in st.addConts then st.(addConts := st.addConts + {x})
    else if x !in st.closeInds && x in st.addConts then st.(addConts := st.addConts - {x})
    else if x in st.closeInds && x !in st.removeConts then st.(removeConts := st.removeConts + {x})
    else st.(removeConts := st.removeConts - {x})
  }

  /** A second shift-click on the same contour restores both lists. */
  lemma ToggleTwice(st: SelectionState, x: int)
    ensures Toggle(Toggle(st, x), x) == st
  {
  }

  /** `appendContour` as written: before any matches exist it acts as a plain
      click; afterwards it toggles whatever index the pointer is in, including
      -1 (the pointer in no contour). */
  function AppendContour(st: SelectionState, inContour: int): (r: SelectionState)
    ensures |st.closeInds| == 0 ==> r == SelectContour(st, inContour)
    ensures |st.closeInds| != 0 && RemovalsMatched(st) ==>
      RemovalsMatched(r) && (forall y :: y in Effective(r) <==> (y in Effective(st) <==> y != inContour))
  {
    if |st.closeInds| == 0 then SelectContour(st, inContour) else Toggle(st, inContour)
  }

  /** A shift-click outside every contour puts the index -1 into the
      effective set. */
  lemma AppendOutsideAddsPhantom()
    ensures -1 in Effective(AppendContour(SelectionState(0, {0}, {}, {}), -1))
  {
  }

  /** `appendContour` with the guard `selectContour` has: a click outside
      every contour changes nothing. */
  function AppendContourGuarded(st: SelectionState, inContour: int): (r: SelectionState)
    ensures inContour == -1 ==> r == st
    ensures inContour != -1 ==> r == AppendContour(st, inContour)
  {
    if inContour == -1 then st else AppendContour(st, inContour)
  }

  /** All indices refer to one of the `n` current contours. */
  predicate WithinContours(st: SelectionState, n: nat) {
    (forall i :: i in st.closeInds ==> 0 <= i < n) && (forall i :: i in st.addConts ==> 0 <= i < n)
  }

  /** With the guard, a click that is outside every contour or inside one of
      them keeps every selected index a real contour index. */
  lemma GuardedKeepsIndicesValid(st: SelectionState, n: nat, inContour: int)
    requires WithinContours(st, n) && -1 <= inContour < n
    ensures WithinContours(AppendContourGuarded(st, inContour), n)
  {
  }

  /** Python's indexing of a sequence of length `n` by `i` (negative from the
      end). */
  function PyIndex(n: nat, i: int): (k: nat)
    requires -(n as int) <= i < n
    ensures k < n
    ensures i >= 0 ==> k == i
    ensures i < 0 ==> k == n + i
  {
    if i < 0 then n + i else i
  }

  /** Zeroth and first image moments of one contour (`cv2.moments`). */
  datatype Moments = Moments(m00: real, m10: real, m01: real)

  datatype Point = Point(x: int, y: int)

  /** What `findCenters` leaves behind: one center and one filled area per
      zone, and the dictionary from contour index to zone position. */
  datatype Centers = Centers(centers: seq<Point>, closeSizes: seq<real>, indDict: map<int, int>)

  /** The centroid `int(m10/m00), int(m01/m00)`. */
  function Centroid(m: Moments): (p: Point)
    requires m.m00 != 0.0
  {
    Point(Trunc(m.m10 / m.m00), Trunc(m.m01 / m.m00))
  }

  /** A centroid is the exact moment ratio truncated toward zero: within one
      pixel of it, on the side of zero. */
  lemma CentroidWithinOnePixel(m: Moments)
    requires m.m00 != 0.0
    ensures Abs(Centroid(m).x as real - m.m10 / m.m00) < 1.0
    ensures Abs(Centroid(m).y as real - m.m01 / m.m00) < 1.0
    ensures Abs(Centroid(m).x as real) <= Abs(m.m10 / m.m00)
  {
  }

  /** `i` addresses one of `n` contours, counting from either end. */
  predicate Addressable(n: nat, i: int) {
    -(n as int) <= i < n
  }

  /** What goes wrong at contour index `ind` in `findCenters`, if anything:
      an index past the list, or a contour of zero area. */
  function Fault(ind: int, moments: seq<Moments>): (e: Option<Error>)
    ensures e.None? <==> Addressable(|moments|, ind) && moments[PyIndex(|moments|, ind)].m00 != 0.0
  {
    var n := |moments|;
    if !Addressable(n, ind) then Some(IndexOutOfRange)
    else if moments[PyIndex(n, ind)].m00 == 0.0 then Some(ZeroDivision)
    else None
  }

  /** The fault at the first position from `k` on that has one. */
  function FirstFault(plus: seq<int>, moments: seq<Moments>, k: nat): (e: Option<Error>)
    requires k <= |plus|
    ensures e.None? <==> forall j :: k <= j < |plus| ==> Fault(plus[j], moments).None?
    ensures e.Some? ==> exists j :: (k <= j < |plus| && Fault(plus[j], moments) == e
                                     && forall i :: k <= i < j ==> Fault(plus[i], moments).None?)
    decreases |plus| - k
  {
    if k == |plus| then None
    else if Fault(plus[k], moments).Some? then Fault(plus[k], moments)
    else FirstFault(plus, moments, k + 1)
  }

  /** `findCenters` over the sorted effective indices `plus`, zone by zone:
      the first zone whose index is past the contour list or whose contour
      has `m00` of 0 raises; otherwise zone `i` gets the centroid and filled
      area of contour `plus[i]` (read Python-style, negative from the end),
      and `indDict` is the inverse of `plus`. */
  function FindCenters(plus: seq<int>, moments: seq<Moments>): (r: Result<Centers>)
    requires Distinct(plus)
    ensures r.Failure? <==> exists k :: 0 <= k < |plus| && Fault(plus[k], moments).Some?
    ensures r.Failure? ==> exists k :: (0 <= k < |plus| && Fault(plus[k], moments) == Some(r.error)
                                        && forall j :: 0 <= j < k ==> Fault(plus[j], moments).None?)
    ensures r.Success? ==> |r.value.centers| == |r.value.closeSizes| == |plus|
    ensures r.Success? ==> forall i :: 0 <= i < |plus| ==>
      Addressable(|moments|, plus[i]) &&
      var m := moments[PyIndex(|moments|, plus[i])];
      m.m00 != 0.0 && r.value.closeSizes[i] == m.m00 && r.value.centers[i] == Centroid(m)
    ensures r.Success? ==> r.value.indDict.Keys == set k | k in plus
    ensures r.Success? ==> forall i :: 0 <= i < |plus| ==> r.value.indDict[plus[i]] == i
    ensures r.Success? ==> forall k :: k in r.value.indDict ==>
      0 <= r.value.indDict[k] < |plus| && plus[r.value.indDict[k]] == k
  {
    var n := |moments|;
    var fault := FirstFault(plus, moments, 0);
    if fault.Some? then Failure(fault.value)
    else
      var centers := seq(|plus|, i requires 0 <= i < |plus| => Centroid(moments[PyIndex(n, plus[i])]));
      var sizes := seq(|plus|, i requires 0 <= i < |plus| => moments[PyIndex(n, plus[i])].m00);
      Success(Centers(centers, sizes, Positions(plus)))
  }

  /** `indDict`: each contour index of a list without repeats mapped to its
      position in the list. */
  function Positions(plus: seq<int>): (d: map<int, int>)
    requires Distinct(plus)
    ensures d.Keys == set k | k in plus
    ensures forall i :: 0 <= i < |plus| ==> d[plus[i]] == i
    ensures forall k :: k in d ==> 0 <= d[k] < |plus| && plus[d[k]] == k
  {
    var d := map i | 0 <= i < |plus| :: plus[i] := i;
    assert forall k :: k in d ==> exists i :: 0 <= i < |plus| && plus[i] == k;
    d
  }

  lemma NonEmptyHasElement(s: set<int>)
    requires s != {}
    ensures exists x :: x in s
  {
    if forall x :: x !in s {
      assert false;
    }
  }

  /** The smallest element of a finite non-empty set of indices. */
  ghost function SetMin(s: set<int>): (m: int)
    requires s != {}
    ensures m in s && forall y :: y in s ==> m <= y
  {
    NonEmptyHasElement(s);
    var x :| x in s;
    if s == {x} then x
    else
      var rest := s - {x};
      assert rest != {};
      var low := SetMin(rest);
      assert forall y :: y in s ==> y == x || y in rest;
      if x < low then x else low
  }

  /** `np.union1d` / `np.setdiff1d` results: the set's elements in
      increasing order. */
  ghost function SortedElements(s: set<int>): (r: seq<int>)
    ensures forall i :: i in s <==> i in r
    ensures forall a, b :: 0 <= a < b < |r| ==> r[a] < r[b]
    decreases |s|
  {
    if s == {} then []
    else
      var m := SetMin(s);
      var rest := SortedElements(s - {m});
      forall k | 0 <= k < |rest| ensures m < rest[k] {
        assert rest[k] in s - {m};
      }
      ConsIncreasing(m, rest);
      [m] + rest
  }

  /** A value below every entry of an increasing list can lead it. */
  lemma ConsIncreasing(m: int, rest: seq<int>)
    requires forall k :: 0 <= k < |rest| ==> m < rest[k]
    requires forall a, b :: 0 <= a < b < |rest| ==> rest[a] < rest[b]
    ensures forall i :: i in [m] + rest <==> i == m || i in rest
    ensures forall a, b :: 0 <= a < b < |[m] + rest| ==> ([m] + rest)[a] < ([m] + rest)[b]
  {
    var r := [m] + rest;
    forall a, b | 0 <= a < b < |r| ensures r[a] < r[b] {
      assert r[b] == rest[b - 1];
      if a > 0 { assert r[a] == rest[a - 1]; }
    }
  }

  /** In a strictly increasing list of integers the `k`-th entry is at least
      `k` above the first. */
  lemma {:induction false} IncreasingSpread(plus: seq<int>, k: int)
    requires forall a, b :: 0 <= a < b < |plus| ==> plus[a] < plus[b]
    requires 0 <= k < |plus|
    ensures plus[k] >= plus[0] + k
  {
    if k > 0 {
      IncreasingSpread(plus, k - 1);
    }
  }

  /** The only increasing list of the indices -1 and 0. */
  lemma SortedPair(plus: seq<int>)
    requires forall i :: i in plus <==> i == -1 || i == 0
    requires forall a, b :: 0 <= a < b < |plus| ==> plus[a] < plus[b]
    ensures plus == [-1, 0]
  {
    assert -1 in plus && 0 in plus;
    var i :| 0 <= i < |plus| && plus[i] == -1;
    var j :| 0 <= j < |plus| && plus[j] == 0;
    assert i < j;
    var last := |plus| - 1;
    IncreasingSpread(plus, last);
    assert plus[0] in plus && plus[last] in plus;
    assert |plus| == 2;
  }

  /** The phantom zone: after a shift-click outside every contour, with one
      contour matched, the effective list is [-1, 0] and both entries read
      the same contour, so the one pad is sampled as two zones. */
  lemma PhantomZoneDuplicates(m: Moments)
    requires m.m00 != 0.0
    ensures var st := AppendContour(SelectionState(0, {0}, {}, {}), -1);
      var plus := SortedElements(Effective(st));
      plus == [-1, 0] && FindCenters(plus, [m]).Success?
      && FindCenters(plus, [m]).value.centers[0] == FindCenters(plus, [m]).value.centers[1]
  {
    var st := AppendContour(SelectionState(0, {0}, {}, {}), -1);
    assert Effective(st) == {-1, 0};
    var plus := SortedElements(Effective(st));
    SortedPair(plus);
    PhantomCenters(m);
  }

  /** Zones -1 and 0 of a one-contour list both read that contour. */
  lemma PhantomCenters(m: Moments)
    requires m.m00 != 0.0
    ensures var r := FindCenters([-1, 0], [m]);
      r.Success? && r.value.centers[0] == r.value.centers[1]
  {
    var plus := [-1, 0];
    assert PyIndex(1, plus[0]) == 0 && PyIndex(1, plus[1]) == 0;
    assert FindCenters(plus, [m]).Success?;
  }
}
