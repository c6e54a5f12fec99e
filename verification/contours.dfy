/** Contour Extractor: the filtering and ordering half of
    `AnalysisWindow.cvContour`. Boundary tracing and `cv2.contourArea` are
    OpenCV calls; their results arrive here as a list of contours and a
    parallel list of areas. */
module Contours {
  import opened Basics
  import opened Ordering

  /** Contours of area 5 px or less are dropped. */
  const MinArea: real := 5.0

  /** Sort keys for ordering contours by area. */
  function AreaKeys(sizes: seq<real>): (keys: seq<Key>)
    ensures |keys| == |sizes|
    ensures forall i :: 0 <= i < |sizes| ==> keys[i].major == sizes[i]
  {
    seq(|sizes|, i requires 0 <= i < |sizes| => Key(sizes[i], 0.0))
  }

  /** The indices below `n` whose area is above `MinArea`, ascending. */
  function LargeIndices(sizes: seq<real>, n: nat): (idx: seq<int>)
    requires n <= |sizes|
    ensures forall k :: 0 <= k < |idx| ==> 0 <= idx[k] < n
    ensures forall i :: i in idx <==> 0 <= i < n && sizes[i] > MinArea
    ensures forall a, b :: 0 <= a < b < |idx| ==> idx[a] < idx[b]
  {
    if n == 0 then []
    else LargeIndices(sizes, n - 1) + (if sizes[n - 1] > MinArea then [n - 1] else [])
  }

  /** `bysize`: the indices of the contours of area above 5, argsorted by
      area. */
  function AreaOrder(sizes: seq<real>): (order: seq<int>)
    ensures forall k :: 0 <= k < |order| ==> 0 <= order[k] < |sizes| && sizes[order[k]] > MinArea
    ensures forall i :: 0 <= i < |sizes| && sizes[i] > MinArea ==> i in order
    ensures forall a, b :: 0 <= a < b < |order| ==> order[a] != order[b]
    ensures forall a, b :: 0 <= a < b < |order| ==> sizes[order[a]] <= sizes[order[b]]
  {
    var keys := AreaKeys(sizes);
    var large := LargeIndices(sizes, |sizes|);
    assert ValidIndices(keys, large);
    var order := Argsort(keys, large);
    SortedDistinct(keys, order);
    LargeMembers(sizes, order);
    AreasAscending(sizes, order);
    order
  }

  /** An arrangement of the large indices holds exactly the large indices. */
  lemma LargeMembers(sizes: seq<real>, order: seq<int>)
    requires multiset(order) == multiset(LargeIndices(sizes, |sizes|))
    ensures forall k :: 0 <= k < |order| ==> 0 <= order[k] < |sizes| && sizes[order[k]] > MinArea
    ensures forall i :: 0 <= i < |sizes| && sizes[i] > MinArea ==> i in order
  {
    var large := LargeIndices(sizes, |sizes|);
    forall k | 0 <= k < |order| ensures 0 <= order[k] < |sizes| && sizes[order[k]] > MinArea {
      assert order[k] in multiset(large);
    }
    forall i | 0 <= i < |sizes| && sizes[i] > MinArea ensures i in order {
      assert i in multiset(order);
    }
  }

  lemma AreasAscending(sizes: seq<real>, order: seq<int>)
    requires SortedBy(AreaKeys(sizes), order)
    ensures forall a, b :: 0 <= a < b < |order| ==> sizes[order[a]] <= sizes[order[b]]
  {
    var keys := AreaKeys(sizes);
    forall a, b | 0 <= a < b < |order| ensures sizes[order[a]] <= sizes[order[b]] {
      assert Precedes(keys, order[a], order[b]);
    }
  }

  /** The regenerated contour list: the contours and their areas, reindexed
      together by `order`. */
  datatype Extraction<C> = Extraction(order: seq<int>, contours: seq<C>, sizes: seq<real>)

  /** `cvContour` on a mask that is single-channel (`grayscale`); any other
      buffer is refused and nothing is regenerated. The kept contours are
      exactly those of area above 5, each once, in non-decreasing area order,
      each still paired with its own area. Ties keep no particular order in
      the source (an unstable `argsort`); the model breaks them by index. */
  function ExtractContours<C>(grayscale: bool, contours: seq<C>, sizes: seq<real>): (r: Option<Extraction<C>>)
    requires |contours| == |sizes|
    ensures r.Some? <==> grayscale
    ensures r.Some? ==> |r.value.order| == |r.value.contours| == |r.value.sizes|
    ensures r.Some? ==> forall k :: 0 <= k < |r.value.order| ==>
      (0 <= r.value.order[k] < |sizes| && r.value.contours[k] == contours[r.value.order[k]]
       && r.value.sizes[k] == sizes[r.value.order[k]])
    ensures r.Some? ==> forall k :: 0 <= k < |r.value.sizes| ==> r.value.sizes[k] > MinArea
    ensures r.Some? ==> forall i :: 0 <= i < |sizes| && sizes[i] > MinArea ==> i in r.value.order
    ensures r.Some? ==> forall a, b :: 0 <= a < b < |r.value.order| ==> r.value.order[a] != r.value.order[b]
    ensures r.Some? ==> forall a, b :: 0 <= a < b < |r.value.sizes| ==> r.value.sizes[a] <= r.value.sizes[b]
  {
    if !grayscale then None
    else
      var order := AreaOrder(sizes);
      Some(Extraction(order, Permute(order, contours), Permute(order, sizes)))
  }

  /** Area exactly 5 is discarded; any area just above is kept. */
  lemma BoundaryAreaDropped<C>(c: C, d: C)
    ensures var r := ExtractContours(true, [c, d], [5.0, 5.5]);
      r.Some? && r.value.sizes == [5.5] && r.value.contours == [d]
  {
    var r := ExtractContours(true, [c, d], [5.0, 5.5]);
    assert 1 in r.value.order;
    assert |r.value.order| == 1;
  }
}
