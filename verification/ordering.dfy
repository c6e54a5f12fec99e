/** Index sorting shared by the contour extractor (`np.argsort` of the areas)
    and the reading-order relabelling (`np.lexsort` on the zone centers):
    a stable sort of a list of indices by a two-part key. */
module Ordering {

  /** A sort key compared lexicographically, `major` first. */
  datatype Key = Key(major: real, minor: real)

  predicate KeyLess(a: Key, b: Key) {
    a.major < b.major || (a.major == b.major && a.minor < b.minor)
  }

  predicate KeyLessEq(a: Key, b: Key) {
    KeyLess(a, b) || a == b
  }

  /** Index `i` is placed before index `j`: smaller key first, equal keys in
      their original (index) order. */
  predicate Precedes(keys: seq<Key>, i: int, j: int)
    requires 0 <= i < |keys| && 0 <= j < |keys|
  {
    KeyLess(keys[i], keys[j]) || (keys[i] == keys[j] && i < j)
  }

  predicate ValidIndices(keys: seq<Key>, s: seq<int>) {
    forall k :: 0 <= k < |s| ==> 0 <= s[k] < |keys|
  }

  predicate Distinct(s: seq<int>) {
    forall a, b :: 0 <= a < b < |s| ==> s[a] != s[b]
  }

  /** `s` lists indices in strictly increasing (key, index) order. */
  predicate SortedBy(keys: seq<Key>, s: seq<int>) {
    ValidIndices(keys, s) && forall a, b :: 0 <= a < b < |s| ==> Precedes(keys, s[a], s[b])
  }

  /** The indices 0 .. n-1 in order. */
  function Range(n: nat): (r: seq<int>)
    ensures |r| == n
    ensures forall k :: 0 <= k < n ==> r[k] == k
  {
    seq(n, k => k)
  }

  lemma PrecedesTotal(keys: seq<Key>, i: int, j: int)
    requires 0 <= i < |keys| && 0 <= j < |keys| && i != j
    ensures Precedes(keys, i, j) || Precedes(keys, j, i)
  {
  }

  lemma PrecedesTransitive(keys: seq<Key>, i: int, j: int, k: int)
    requires 0 <= i < |keys| && 0 <= j < |keys| && 0 <= k < |keys|
    requires Precedes(keys, i, j) && Precedes(keys, j, k)
    ensures Precedes(keys, i, k)
  {
  }

  /** A sorted index list holds each index once. */
  lemma SortedDistinct(keys: seq<Key>, s: seq<int>)
    requires SortedBy(keys, s)
    ensures Distinct(s)
  {
    forall a, b | 0 <= a < b < |s| ensures s[a] != s[b] {
      assert Precedes(keys, s[a], s[b]);
    }
  }

  /** What a sorted index list means: keys never decrease along it, and
      indices with equal keys keep their original relative order. */
  lemma SortedMeaning(keys: seq<Key>, s: seq<int>)
    requires SortedBy(keys, s)
    ensures forall a, b :: 0 <= a < b < |s| ==> KeyLessEq(keys[s[a]], keys[s[b]])
    ensures forall a, b :: 0 <= a < b < |s| && keys[s[a]] == keys[s[b]] ==> s[a] < s[b]
  {
  }

  /** An index placed before every index of a sorted list can lead it. */
  lemma ConsSorted(keys: seq<Key>, h: int, t: seq<int>)
    requires SortedBy(keys, t) && 0 <= h < |keys|
    requires forall k :: 0 <= k < |t| ==> Precedes(keys, h, t[k])
    ensures SortedBy(keys, [h] + t)
  {
    var r := [h] + t;
    forall a, b | 0 <= a < b < |r| ensures Precedes(keys, r[a], r[b]) {
      if a == 0 {
        assert r[b] == t[b - 1];
      } else {
        assert r[a] == t[a - 1] && r[b] == t[b - 1];
      }
    }
  }

  /** The inserted index goes first when it precedes the head. */
  lemma InsertFront(keys: seq<Key>, s: seq<int>, x: int)
    requires SortedBy(keys, s) && |s| > 0 && 0 <= x < |keys|
    requires Precedes(keys, x, s[0])
    ensures SortedBy(keys, [x] + s)
  {
    forall k | 0 <= k < |s| ensures Precedes(keys, x, s[k]) {
      if k > 0 { PrecedesTransitive(keys, x, s[0], s[k]); }
    }
    ConsSorted(keys, x, s);
  }

  /** The head stays first when the inserted index does not precede it. */
  lemma InsertLater(keys: seq<Key>, s: seq<int>, x: int, rest: seq<int>)
    requires SortedBy(keys, s) && |s| > 0 && 0 <= x < |keys| && x !in s
    requires !Precedes(keys, x, s[0])
    requires SortedBy(keys, rest) && multiset(rest) == multiset(s[1..]) + multiset{x}
    ensures SortedBy(keys, [s[0]] + rest)
  {
    PrecedesTotal(keys, x, s[0]);
    forall k | 0 <= k < |rest| ensures Precedes(keys, s[0], rest[k]) {
      assert rest[k] in multiset(rest);
      if rest[k] != x {
        assert rest[k] in multiset(s[1..]);
        var j :| 0 <= j < |s[1..]| && s[1..][j] == rest[k];
        assert s[j + 1] == rest[k];
      }
    }
    ConsSorted(keys, s[0], rest);
  }

  /** Insert index `x` into a sorted index list at its place. */
  function Insert(keys: seq<Key>, s: seq<int>, x: int): (r: seq<int>)
    requires SortedBy(keys, s) && 0 <= x < |keys| && x !in s
    ensures SortedBy(keys, r)
    ensures multiset(r) == multiset(s) + multiset{x}
    ensures |r| == |s| + 1
  {
    if |s| == 0 then [x]
    else if Precedes(keys, x, s[0]) then
      InsertFront(keys, s, x);
      [x] + s
    else
      assert s == [s[0]] + s[1..];
      var rest := Insert(keys, s[1..], x);
      InsertLater(keys, s, x, rest);
      [s[0]] + rest
  }

  /** Dropping the last index of a valid distinct list keeps it valid and
      distinct, and the dropped index is not among the others. */
  lemma DropLast(keys: seq<Key>, idx: seq<int>)
    requires ValidIndices(keys, idx) && Distinct(idx) && |idx| > 0
    ensures ValidIndices(keys, idx[..|idx| - 1]) && Distinct(idx[..|idx| - 1])
    ensures idx[|idx| - 1] !in idx[..|idx| - 1]
    ensures idx == idx[..|idx| - 1] + [idx[|idx| - 1]]
  {
    var n := |idx| - 1;
    assert forall k :: 0 <= k < n ==> idx[..n][k] == idx[k];
  }

  /** A stable argsort of the index list `idx` by `keys`: insertion sort. The
      result holds the same indices, in non-decreasing key order, with equal
      keys in their order of index. */
  function Argsort(keys: seq<Key>, idx: seq<int>): (r: seq<int>)
    requires ValidIndices(keys, idx) && Distinct(idx)
    ensures SortedBy(keys, r)
    ensures multiset(r) == multiset(idx)
    ensures |r| == |idx|
  {
    if |idx| == 0 then []
    else
      var n := |idx| - 1;
      DropLast(keys, idx);
      var front := Argsort(keys, idx[..n]);
      assert idx[n] !in multiset(front);
      Insert(keys, front, idx[n])
  }

  /** Applies one permutation of positions to a per-zone array. */
  function Permute<T>(perm: seq<int>, a: seq<T>): (r: seq<T>)
    requires forall k :: 0 <= k < |perm| ==> 0 <= perm[k] < |a|
    ensures |r| == |perm|
    ensures forall k :: 0 <= k < |perm| ==> r[k] == a[perm[k]]
  {
    seq(|perm|, k requires 0 <= k < |perm| => a[perm[k]])
  }

  /** No index is placed both before and after another. */
  lemma PrecedesAsymmetric(keys: seq<Key>, i: int, j: int)
    requires 0 <= i < |keys| && 0 <= j < |keys|
    requires Precedes(keys, i, j)
    ensures !Precedes(keys, j, i)
  {
  }

  /** Two sorted arrangements of the same indices start with the same index. */
  lemma SameHead(keys: seq<Key>, s: seq<int>, t: seq<int>)
    requires SortedBy(keys, s) && SortedBy(keys, t)
    requires multiset(s) == multiset(t) && |s| > 0
    ensures |t| > 0 && s[0] == t[0]
  {
    assert s[0] in multiset(t);
    var i :| 0 <= i < |t| && t[i] == s[0];
    assert t[0] in multiset(s);
    var j :| 0 <= j < |s| && s[j] == t[0];
    if i != 0 && j != 0 {
      assert Precedes(keys, t[0], t[i]);
      PrecedesAsymmetric(keys, s[0], s[j]);
      assert false;
    }
  }

  /** The stable sort is unique: two sorted arrangements of the same indices
      are the same list. So the insertion sort above is exactly what any
      stable sort by these keys produces. */
  lemma {:induction false} SortedUnique(keys: seq<Key>, s: seq<int>, t: seq<int>)
    requires SortedBy(keys, s) && SortedBy(keys, t)
    requires multiset(s) == multiset(t)
    ensures s == t
    decreases |s|
  {
    if |s| > 0 {
      SameHead(keys, s, t);
      assert s == [s[0]] + s[1..];
      assert t == [t[0]] + t[1..];
      assert multiset(s[1..]) == multiset(s) - multiset{s[0]};
      assert multiset(t[1..]) == multiset(t) - multiset{t[0]};
      SortedUnique(keys, s[1..], t[1..]);
    } else {
      assert |t| == |multiset(t)| == 0;
    }
  }
}
