/** Shared vocabulary of the ColorScan model: 8-bit channel values, optional
    and fallible results, Python's truncating `int()` on a rational, numpy's
    `clip`, and sums over sequences of exact rationals. */
module Basics {

  /** One 8-bit image channel value (numpy `uint8`). */
  type Byte = x: int | 0 <= x < 256

  datatype Option<+T> = None | Some(value: T)

  /** The exceptions the analysis window can raise on the paths modelled here. */
  datatype Error =
    | ZeroDivision      // a zeroth image moment of 0 in `findCenters`
    | IndexOutOfRange   // a contour index past either end of the contour list,
                        // or a zone past the end of the refined masks
    | UnboundRgb        // `saveColors` reading `rgb` when RGB output is off
    | EmptyArgmax       // `np.argmax` of the sizes when there are no zones
    | MissingKey        // `indDict` holding no entry for the reference contour

  datatype Result<+T> = Success(value: T) | Failure(error: Error)

  /** Python's `int(q)` on a float: truncation toward zero. */
  function Trunc(q: real): (r: int)
    ensures q >= 0.0 ==> r as real <= q < r as real + 1.0
    ensures q < 0.0 ==> r as real - 1.0 < q <= r as real
  {
    if q >= 0.0 then q.Floor else -((-q).Floor)
  }

  /** numpy's `clip(x, lo, hi)`. */
  function Clip(x: int, lo: int, hi: int): (r: int)
    requires lo <= hi
    ensures lo <= r <= hi
    ensures lo <= x <= hi ==> r == x
  {
    if x < lo then lo else if x > hi then hi else x
  }

  /** The same clip over rationals (tolerance sliders). */
  function ClipReal(x: real, lo: real, hi: real): (r: real)
    requires lo <= hi
    ensures lo <= r <= hi
    ensures lo <= x <= hi ==> r == x
  {
    if x < lo then lo else if x > hi then hi else x
  }

  function Abs(x: real): real {
    if x < 0.0 then -x else x
  }

  /** Sum of a sequence of rationals, peeled from the end so that loops over
      prefixes `s[..i]` unfold one step at a time. */
  function Sum(s: seq<real>): real {
    if |s| == 0 then 0.0 else Sum(s[..|s| - 1]) + s[|s| - 1]
  }

  /** Sum of a sequence of naturals. */
  function SumNat(s: seq<nat>): nat {
    if |s| == 0 then 0 else SumNat(s[..|s| - 1]) + s[|s| - 1]
  }

  /** Incrementing one entry of a sequence of counts raises its total by one. */
  lemma {:induction false} SumNatIncrement(s: seq<nat>, k: nat)
    requires k < |s|
    ensures SumNat(s[k := s[k] + 1]) == SumNat(s) + 1
    decreases |s|
  {
    var t := s[k := s[k] + 1];
    var n := |s| - 1;
    assert t[..n] == if k < n then s[..n][k := s[k] + 1] else s[..n];
    if k < n {
      SumNatIncrement(s[..n], k);
    }
  }

  /** A run of zero counts sums to zero. */
  lemma {:induction false} SumNatZeros(n: nat)
    ensures SumNat(seq(n, _ => 0)) == 0
  {
    if n > 0 {
      assert seq(n, _ => 0)[..n - 1] == seq(n - 1, _ => 0);
      SumNatZeros(n - 1);
    }
  }

  lemma AppendAssociative<T>(x: seq<T>, y: seq<T>, z: seq<T>)
    ensures (x + y) + z == x + (y + z)
  {
  }

  /** A block that follows `before` at the start of `row` is the slice of
      `row` after `before`. */
  lemma BlockAt<T>(before: seq<T>, block: seq<T>, row: seq<T>)
    requires before + block <= row
    ensures row[|before|..|before| + |block|] == block
  {
    forall k | |before| <= k < |before| + |block|
      ensures row[k] == block[k - |before|]
    {
      assert row[k] == (before + block)[k];
    }
  }

  /** A non-empty sequence is its front followed by its last element. */
  lemma FrontLast<T>(s: seq<T>)
    requires |s| > 0
    ensures s[..|s| - 1] + [s[|s| - 1]] == s
  {
  }
}
