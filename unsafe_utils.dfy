/**
 * The search of UnsafeUtils.binarySearch over a sorted range of a Java `int[]`.
 * Array lengths and indices are Java `int`s, so every index expression below stays in
 * `[-2^31, 2^31)` once `offset + length <= a.Length < 2^31`; only the midpoint sum
 * `min + max` can leave that range, and it is modelled with its wrap-around.
 */
module UnsafeUtils {

  const TwoTo31: int := 0x8000_0000
  const TwoTo32: int := 0x1_0000_0000

  /** The range `[from, to)` of `a` is non-decreasing. */
  ghost predicate SortedRange(a: seq<int>, from: int, to: int)
    requires 0 <= from <= to <= |a|
  {
    forall i, j :: from <= i < j < to ==> a[i] <= a[j]
  }

  /** Java `int` arithmetic: the two's-complement value of `x` taken modulo 2^32. */
  function Wrap32(x: int): (r: int)
    ensures -TwoTo31 <= r < TwoTo31
    ensures (r - x) % TwoTo32 == 0
  {
    (x + TwoTo31) % TwoTo32 - TwoTo31
  }

  /** The midpoint pivot as written, `(min + max) >> 1` on Java `int`s. */
  function MidpointAsWritten(min: int, max: int): (pivot: int)
    ensures 0 <= min <= max && min + max < TwoTo31 ==> min <= pivot <= max
  {
    Wrap32(min + max) / 2  // `>> 1` is floor division by 2, as Dafny's `/` is for a positive divisor
  }

  /** Two in-range indices whose midpoint as written is negative, i.e. outside `[min, max]`. */
  lemma MidpointAsWrittenOverflows()
    ensures var min, max := 0x4000_0000, 0x4000_0002;
      min < TwoTo31 && max < TwoTo31 && MidpointAsWritten(min, max) < 0
  {
  }

  /**
   * The midpoint `(min + max) >>> 1`: the sum of two non-negative `int`s read as unsigned
   * never wraps, so the pivot always lies in `[min, max]`.
   */
  function Midpoint(min: int, max: int): (pivot: int)
    requires 0 <= min <= max < TwoTo31
    ensures min <= pivot <= max
    ensures pivot - min <= max - pivot <= pivot - min + 1
  {
    (min + max) / 2
  }

  /**
   * Searches `a[offset .. offset + length)` for `key`: a non-negative result is an index holding
   * `key` (not necessarily its first occurrence); a negative result is `-(ins + 1)` where `ins`
   * is the insertion point. The interpolated pivot of the first three steps is any index in
   * `[min, max]`; afterwards the pivot is the midpoint.
   */
  method BinarySearch(a: array<int>, key: int, offset: int, length: int) returns (r: int)
    requires 0 <= offset && 0 <= length && offset + length <= a.Length < TwoTo31
    requires SortedRange(a[..], offset, offset + length)
    ensures length == 0 ==> r == -1 - offset
    ensures 0 <= r ==> offset <= r < offset + length && a[r] == key
    ensures r < 0 ==> var ins := -(r + 1);
      && offset <= ins <= offset + length
      && (forall k :: offset <= k < ins ==> a[k] < key)
      && (forall k :: ins <= k < offset + length ==> key < a[k])
    ensures 0 <= r <==> exists k :: offset <= k < offset + length && a[k] == key
  {
    if length == 0 {
      return -1 - offset;
    }
    var min, max := offset, offset + length - 1;
    var minVal, maxVal := a[min], a[max];
    var nPreviousSteps := 0;
    while true
      invariant offset <= min < offset + length && offset <= max < offset + length
      invariant min <= max + 1
      invariant minVal == a[min] && maxVal == a[max]
      invariant forall k :: offset <= k < min ==> a[k] < key
      invariant forall k :: max < k < offset + length ==> key < a[k]
      decreases max - min + 1
    {
      if key <= minVal {
        return if key == minVal then min else -1 - min;
      }
      if key >= maxVal {
        return if key == maxVal then max else -2 - max;
      }
      var pivot: int;
      if nPreviousSteps > 2 {
        pivot := Midpoint(min, max);
      } else {
        pivot :| min <= pivot <= max;  // the interpolated guess, abstracted
        nPreviousSteps := nPreviousSteps + 1;
      }
      var pivotVal := a[pivot];
      if key > pivotVal {
        min := pivot + 1;
        max := max - 1;
      } else if key == pivotVal {
        return pivot;
      } else {
        min := min + 1;
        max := pivot - 1;
      }
      maxVal := a[max];
      minVal := a[min];
    }
  }
}
