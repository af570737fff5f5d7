/**
 * OrderedAtomicList: a list kept sorted by its elements' `compareTo`, with an index-aligned
 * array of cached hash codes that `indexOf` binary-searches. The lock, the atomic array and
 * the field updater are read as plain sequential reads and writes.
 */
module OrderedCollection {
  import opened Optional
  import opened Slots
  import DataUtils
  import UnsafeUtils

  const TwoTo30: int := 0x4000_0000

  /** `a` sorts no later than `b`. */
  ghost predicate Le<T>(compareTo: (T, T) -> int, a: T, b: T) {
    compareTo(a, b) <= 0
  }

  /**
   * What sorting needs of `Comparable.compareTo`: a total, transitive order. The laws fire
   * only on `Le` terms, so a proof invokes them where it names a comparison with `Le`.
   */
  ghost predicate IsOrdering<T(!new)>(compareTo: (T, T) -> int) {
    && (forall a, b {:trigger Le(compareTo, a, b)} :: Le(compareTo, a, b) || Le(compareTo, b, a))
    && (forall a, b, c {:trigger Le(compareTo, a, b), Le(compareTo, b, c)} ::
          Le(compareTo, a, b) && Le(compareTo, b, c) ==> Le(compareTo, a, c))
  }

  ghost predicate Sorted<T>(s: seq<T>, compareTo: (T, T) -> int) {
    forall i, j :: 0 <= i < j < |s| ==> compareTo(s[i], s[j]) <= 0
  }

  /** Elements in order never have decreasing hash codes (true of ObservableEntry). */
  ghost predicate AgreesWithHash<T(!new)>(compareTo: (T, T) -> int, hashCode: T -> int) {
    forall a, b :: compareTo(a, b) <= 0 ==> hashCode(a) <= hashCode(b)
  }

  /** Arrays.copyOf: the first `newLen` entries of `a`, padded with `pad`. */
  method CopyOf<X>(a: array<X>, newLen: nat, pad: X) returns (b: array<X>)
    ensures fresh(b) && b.Length == newLen
    ensures forall k :: 0 <= k < newLen ==> b[k] == if k < a.Length then a[k] else pad
  {
    b := new X[newLen](_ => pad);
    var k := 0;
    while k < newLen && k < a.Length
      invariant 0 <= k <= newLen && k <= a.Length
      invariant forall j :: 0 <= j < k ==> b[j] == a[j]
      invariant forall j :: k <= j < newLen ==> b[j] == pad
    {
      b[k] := a[k];
      k := k + 1;
    }
  }

  /** The first `n` slots are non-null and non-decreasing under `compareTo`. */
  ghost predicate SortedSlots<T>(a: array<Option<T>>, n: int, compareTo: (T, T) -> int)
    requires 0 <= n <= a.Length
    reads a
  {
    && (forall k :: 0 <= k < n ==> a[k].Some?)
    && (forall p, q :: 0 <= p < q < n ==> compareTo(a[p].value, a[q].value) <= 0)
  }

  /**
   * Arrays.sort(a, 0, n): a stable in-place sort of the first `n` slots by `compareTo`
   * (insertion sort). With two or more slots a null among them would make a comparison
   * throw; the caller rules that out.
   */
  method SortSlots<T(!new)>(a: array<Option<T>>, n: int, compareTo: (T, T) -> int)
    requires 0 <= n <= a.Length
    requires IsOrdering(compareTo)
    requires n < 2 || forall k :: 0 <= k < n ==> a[k].Some?
    modifies a
    ensures multiset(a[..]) == multiset(old(a[..]))
    ensures forall k :: n <= k < a.Length ==> a[k] == old(a[k])
    ensures n < 2 ==> a[..] == old(a[..])
    ensures n >= 2 ==> SortedSlots(a, n, compareTo)
  {
    if n < 2 {
      return;
    }
    var i := 1;
    while i < n
      invariant 1 <= i <= n
      invariant forall k :: 0 <= k < n ==> a[k].Some?
      invariant SortedSlots(a, i, compareTo)
      invariant multiset(a[..]) == multiset(old(a[..]))
      invariant forall k :: n <= k < a.Length ==> a[k] == old(a[k])
    {
      InsertSlot(a, i, n, compareTo);
      i := i + 1;
    }
  }

  /** One insertion step: slides slot `i` left into the sorted slots before it. */
  method InsertSlot<T(!new)>(a: array<Option<T>>, i: int, n: int, compareTo: (T, T) -> int)
    requires 0 < i < n <= a.Length
    requires IsOrdering(compareTo)
    requires forall k :: 0 <= k < n ==> a[k].Some?
    requires SortedSlots(a, i, compareTo)
    modifies a
    ensures forall k :: 0 <= k < n ==> a[k].Some?
    ensures SortedSlots(a, i + 1, compareTo)
    ensures multiset(a[..]) == multiset(old(a[..]))
    ensures forall k :: i < k < a.Length ==> a[k] == old(a[k])
  {
    var j := i;
    while 0 < j && compareTo(a[j - 1].value, a[j].value) > 0
      invariant 0 <= j <= i
      invariant forall k :: 0 <= k < n ==> a[k].Some?
      invariant forall p, q :: 0 <= p < q <= i && q != j ==> compareTo(a[p].value, a[q].value) <= 0
      invariant multiset(a[..]) == multiset(old(a[..]))
      invariant forall k :: i < k < a.Length ==> a[k] == old(a[k])
    {
      assert Le(compareTo, a[j].value, a[j - 1].value);
      Swap(a, j - 1, j);
      j := j - 1;
    }
    if 0 < j {
      forall p | 0 <= p < j - 1
        ensures compareTo(a[p].value, a[j].value) <= 0
      {
        assert Le(compareTo, a[p].value, a[j - 1].value) && Le(compareTo, a[j - 1].value, a[j].value);
      }
    }
  }

  method Swap<X>(a: array<X>, i: int, j: int)
    requires 0 <= i < j < a.Length
    modifies a
    ensures a[i] == old(a[j]) && a[j] == old(a[i])
    ensures forall k :: 0 <= k < a.Length && k != i && k != j ==> a[k] == old(a[k])
    ensures multiset(a[..]) == multiset(old(a[..]))
  {
    a[i], a[j] := a[j], a[i];
  }

  /**
   * java.util.Arrays.binarySearch(a, from, to, key), the midpoint search `indexOf` calls.
   * Whatever `a` holds, a hit is genuine and reads stay in range; on a sorted range the
   * search is also complete and a miss gives the insertion point.
   */
  method ArraysBinarySearch(a: array<int>, from: int, to: int, key: int) returns (r: int)
    requires 0 <= from <= to <= a.Length < UnsafeUtils.TwoTo31
    ensures 0 <= r ==> from <= r < to && a[r] == key
    ensures r < 0 ==> from <= -(r + 1) <= to
    ensures UnsafeUtils.SortedRange(a[..], from, to) ==>
      && (0 <= r <==> exists k :: from <= k < to && a[k] == key)
      && (r < 0 ==>
            && (forall k :: from <= k < -(r + 1) ==> a[k] < key)
            && (forall k :: -(r + 1) <= k < to ==> key < a[k]))
  {
    ghost var sorted := UnsafeUtils.SortedRange(a[..], from, to);
    var low, high := from, to - 1;
    while low <= high
      invariant from <= low <= high + 1 <= to
      invariant sorted ==> forall k :: from <= k < low ==> a[k] < key
      invariant sorted ==> forall k :: high < k < to ==> key < a[k]
    {
      var mid := (low + high) / 2;  // `(low + high) >>> 1`: the unsigned sum never wraps
      var midVal := a[mid];
      if midVal < key {
        low := mid + 1;
      } else if midVal > key {
        high := mid - 1;
      } else {
        return mid;
      }
    }
    return -(low + 1);
  }

  /**
   * The compaction at the end of `sort()`: every non-null slot of `a`, in order, copied into
   * fresh arrays exactly `n` long, with each element's hash code alongside.
   */
  method Compact<T>(a: array<Option<T>>, n: int, hashCode: T -> int) returns (vs: array<Option<T>>, hs: array<int>)
    requires |Present(a[..])| == n
    ensures fresh(vs) && fresh(hs) && vs.Length == hs.Length == n
    ensures Holds(vs[..], Present(a[..]))
    ensures forall k :: 0 <= k < n ==> hs[k] == hashCode(Present(a[..])[k])
  {
    vs := new Option<T>[n](_ => None);
    hs := new int[n];
    var nextIdx := 0;
    var j := 0;
    while j < a.Length
      invariant 0 <= j <= a.Length
      invariant nextIdx == |Present(a[..j])| <= n
      invariant forall k :: 0 <= k < nextIdx ==>
        vs[k] == Some(Present(a[..j])[k]) && hs[k] == hashCode(Present(a[..j])[k])
    {
      PresentSnoc(a[..], j);
      PresentPrefix(a[..], j + 1);
      assert a[..][..j] == a[..j] && a[..][..j + 1] == a[..j + 1];
      if a[j].Some? {
        hs[nextIdx] := hashCode(a[j].value);
        vs[nextIdx] := a[j];
        nextIdx := nextIdx + 1;
      }
      j := j + 1;
    }
    assert a[..j] == a[..];
  }

  /**
   * After sorting the first `n` slots of a permutation of `t`, where `t` has exactly `n`
   * non-null slots, the compaction is sorted and is a permutation of `t`'s.
   */
  lemma SortedCompaction<T>(a: array<Option<T>>, t: seq<Option<T>>, n: int, compareTo: (T, T) -> int)
    requires 0 <= n <= a.Length && multiset(a[..]) == multiset(t) && |Present(t)| == n
    requires n >= 2 ==> SortedSlots(a, n, compareTo)
    ensures |Present(a[..])| == n
    ensures Sorted(Present(a[..]), compareTo)
    ensures multiset(Present(a[..])) == multiset(Present(t))
  {
    PresentPermutation(a[..], t);
    assert |multiset(Present(a[..]))| == |multiset(Present(t))|;
    SortedSlotsCompact(a[..], n, compareTo);
  }

  /** When the first `n` slots are the only non-null ones and are sorted, so is the compaction. */
  lemma SortedSlotsCompact<T>(s: seq<Option<T>>, n: int, compareTo: (T, T) -> int)
    requires 0 <= n <= |s| && |Present(s)| == n
    requires n >= 2 ==> AllSome(s[..n])
    requires n >= 2 ==> forall p, q :: 0 <= p < q < n ==> compareTo(s[p].value, s[q].value) <= 0
    ensures Sorted(Present(s), compareTo)
  {
    if n >= 2 {
      PresentCompact(s, n);
    }
  }

  class OrderedAtomicList<T(!new)> {
    const compareTo: (T, T) -> int  // the elements' Comparable.compareTo
    const hashCode: T -> int        // the elements' Object.hashCode
    var values: array<Option<T>>
    var hashes: array<int>
    var size: int
    /** The list's elements in slot order: what `get(0)` .. `get(size() - 1)` return. */
    ghost var elements: seq<T>

    /** The arrays line up and `size` fits them. */
    ghost predicate Shape()
      reads this
    {
      && values.Length == hashes.Length < UnsafeUtils.TwoTo31
      && 0 <= size <= values.Length
      && IsOrdering(compareTo)
    }

    /**
     * The class invariant between public operations: the live prefix holds the elements, in
     * order under `compareTo`, every slot after it is null, and each cached hash is its
     * element's hash code.
     */
    ghost predicate Valid()
      reads this, values, hashes
    {
      && Shape()
      && |elements| == size
      && Holds(values[..], elements)
      && Sorted(elements, compareTo)
      && (forall k :: 0 <= k < size ==> hashes[k] == hashCode(elements[k]))
    }

    ghost predicate HashesSorted()
      reads this, hashes
    {
      forall i, j :: 0 <= i < j < size && j < hashes.Length ==> hashes[i] <= hashes[j]
    }

    /** When the order agrees with `hashCode`, the hash prefix is sorted too. */
    lemma HashesSortedWhenOrderAgrees()
      requires Valid() && AgreesWithHash(compareTo, hashCode)
      ensures HashesSorted()
    {
    }

    /** `new OrderedAtomicList()`: capacity 2 and no elements. */
    constructor (compareTo: (T, T) -> int, hashCode: T -> int)
      requires IsOrdering(compareTo)
      ensures Valid() && fresh(values) && fresh(hashes)
      ensures elements == [] && values.Length == 2
    {
      this.compareTo, this.hashCode := compareTo, hashCode;
      values := new Option<T>[2](_ => None);
      hashes := new int[2];
      size := 0;
      elements := [];
    }

    /**
     * `new OrderedAtomicList(n)`: capacity nextClosestPowerOf2(n) and no elements. When that
     * capacity is Integer.MIN_VALUE (n past 2^30, or n == Integer.MIN_VALUE) Java throws
     * NegativeArraySizeException; the precondition rules that out.
     */
    constructor WithCapacity(n: bv32, compareTo: (T, T) -> int, hashCode: T -> int)
      requires IsOrdering(compareTo)
      requires !DataUtils.IsNegative(DataUtils.NextClosestPowerOf2(n))
      ensures Valid() && fresh(values) && fresh(hashes)
      ensures elements == [] && values.Length == DataUtils.NextClosestPowerOf2(n) as int
    {
      this.compareTo, this.hashCode := compareTo, hashCode;
      var capacity := DataUtils.NextClosestPowerOf2(n) as int;
      values := new Option<T>[capacity](_ => None);
      hashes := new int[capacity];
      size := 0;
      elements := [];
    }

    /**
     * `new OrderedAtomicList(collection)`: capacity nextClosestPowerOf2(collection.size()), then
     * every element appended in turn. `count` is `collection.size()` as a Java `int`.
     */
    constructor FromCollection(xs: seq<T>, count: bv32, compareTo: (T, T) -> int, hashCode: T -> int)
      requires IsOrdering(compareTo)
      requires count as int == |xs| <= TwoTo30
      ensures Valid() && fresh(values) && fresh(hashes)
      ensures multiset(elements) == multiset(xs)
    {
      this.compareTo, this.hashCode := compareTo, hashCode;
      DataUtils.CapacityFor(count);
      var capacity := DataUtils.NextClosestPowerOf2(count) as int;
      values := new Option<T>[capacity](_ => None);
      hashes := new int[capacity];
      size := 0;
      elements := [];
      new;
      AppendAll(xs);
    }

    /** The loop of `new OrderedAtomicList(collection)`: appends every element of `xs` in turn. */
    method AppendAll(xs: seq<T>)
      requires Valid() && size == 0 && |xs| <= TwoTo30
      modifies this, values, hashes
      ensures Valid() && multiset(elements) == multiset(xs)
      ensures values == old(values) || fresh(values)
      ensures hashes == old(hashes) || fresh(hashes)
    {
      var i := 0;
      while i < |xs|
        invariant 0 <= i <= |xs|
        invariant Valid() && size == i
        invariant i == 0 || values.Length == i
        invariant values == old(values) || fresh(values)
        invariant hashes == old(hashes) || fresh(hashes)
        invariant multiset(elements) == multiset(xs[..i])
      {
        Append(xs[i]);
        assert xs[..i + 1] == xs[..i] + [xs[i]];
        i := i + 1;
      }
      assert xs[..i] == xs;
    }

    method Size() returns (n: int)
      requires Valid()
      ensures n == |elements|
    {
      n := size;
    }

    /** `get(index)`: the element at `index`, or null in a slot past the live prefix. */
    method Get(index: int) returns (r: Option<T>)
      requires Valid() && 0 <= index < values.Length
      ensures index < size ==> r == Some(elements[index])
      ensures size <= index ==> r == None
    {
      r := values[index];
    }

    /**
     * `indexOf(o)`: binary search of the hash prefix for `o.hashCode()`. A hit is a slot
     * whose element has that hash code (not necessarily `o`); the search is complete when
     * the hash prefix is sorted.
     */
    method IndexOf(o: T) returns (r: int)
      requires Valid()
      ensures 0 <= r ==> r < size && hashes[r] == hashCode(o) && hashCode(elements[r]) == hashCode(o)
      ensures r < 0 ==> -(size + 1) <= r
      ensures HashesSorted() ==> (0 <= r <==> exists k :: 0 <= k < size && hashes[k] == hashCode(o))
    {
      r := ArraysBinarySearch(hashes, 0, size, hashCode(o));
    }

    /** `contains(o)`: false for null, else whether `indexOf` finds a slot with `o`'s hash code. */
    method Contains(o: Option<T>) returns (b: bool)
      requires Valid()
      ensures o.None? ==> !b
      ensures b ==> o.Some? && exists k :: 0 <= k < size && hashCode(elements[k]) == hashCode(o.value)
      ensures o.Some? && HashesSorted() ==>
        (b <==> exists k :: 0 <= k < size && hashCode(elements[k]) == hashCode(o.value))
    {
      if o.None? {
        return false;
      }
      var i := IndexOf(o.value);
      b := i > -1;
    }

    /**
     * `expand()`: unless the live prefix is shorter than the arrays, doubles both arrays,
     * keeping their contents. A zero-length array stays zero-length.
     */
    method Expand()
      requires Valid()
      requires size < values.Length || 2 * values.Length < UnsafeUtils.TwoTo31
      modifies this
      ensures Valid() && size == old(size) && elements == old(elements)
      ensures old(size) < old(values.Length) ==> values == old(values) && hashes == old(hashes)
      ensures old(values.Length) <= old(size) ==>
        && fresh(values) && fresh(hashes) && values.Length == 2 * old(values.Length)
        && values[..old(values.Length)] == old(values[..])
        && hashes[..old(values.Length)] == old(hashes[..])
    {
      if size < values.Length {
        return;
      }
      var oldLen := values.Length;
      var newLen := oldLen * 2;
      var newValues := CopyOf(values, newLen, None);
      hashes := CopyOf(hashes, newLen, 0);
      values := newValues;
    }

    /**
     * `expand()` as evidently intended: an empty array grows to the default capacity 2 instead
     * of doubling to empty again, so a full list always gains room.
     */
    method ExpandGrowing()
      requires Valid()
      requires size < values.Length || 2 * values.Length < UnsafeUtils.TwoTo31
      modifies this
      ensures Valid() && size == old(size) && elements == old(elements)
      ensures size < values.Length
      ensures old(size) < old(values.Length) ==> values == old(values) && hashes == old(hashes)
      ensures old(values.Length) <= old(size) ==>
        && fresh(values) && fresh(hashes)
        && values.Length == (if old(values.Length) == 0 then 2 else 2 * old(values.Length))
        && values[..old(values.Length)] == old(values[..])
        && hashes[..old(values.Length)] == old(hashes[..])
    {
      if size < values.Length {
        return;
      }
      var oldLen := values.Length;
      var newLen := if oldLen == 0 then 2 else oldLen * 2;
      var newValues := CopyOf(values, newLen, None);
      hashes := CopyOf(hashes, newLen, 0);
      values := newValues;
    }

    /**
     * `sort()`: sorts the live prefix in place, then copies every non-null slot of the whole
     * array, in order, into fresh arrays exactly `size` long and recomputes their hashes.
     * The preconditions exclude the exceptions the source swallows: a null compared inside
     * the sorted range, and more non-null slots than `size`.
     */
    method Sort()
      requires Shape()
      requires |Present(values[..])| == size
      requires size < 2 || AllSome(values[..size])
      modifies this, values
      ensures Valid() && fresh(values) && fresh(hashes)
      ensures size == old(size) && values.Length == size
      ensures multiset(elements) == multiset(Present(old(values[..])))
    {
      SortSlots(values, size, compareTo);
      SortedCompaction(values, old(values[..]), size, compareTo);
      elements := Present(values[..]);
      values, hashes := Compact(values, size, hashCode);
    }

    /**
     * `add(index, e)`: a null element is refused before anything changes. Otherwise the
     * arrays are expanded until `index` fits, slot `index` is written (overwriting and dropping
     * any element there), `size` grows when `index` is past the live prefix, and the list is
     * re-sorted. `index <= size()` keeps nulls out of the sorted range. The arrays grow through
     * `ExpandGrowing`, since `Expand` never grows an empty array.
     */
    method Add(index: int, e: Option<T>) returns (outcome: Outcome)
      requires Valid()
      requires e.Some? ==> 0 <= index <= size
      requires e.Some? ==> index < values.Length || 2 * values.Length < UnsafeUtils.TwoTo31
      modifies this, values, hashes
      ensures e.None? ==> outcome == Fail(NullElement) && unchanged(this) && unchanged(values, hashes)
      ensures e.Some? ==> outcome == Pass && Valid() && fresh(values) && fresh(hashes) && values.Length == size
      ensures e.Some? && index < old(size) ==>
        size == old(size) && multiset(elements) == multiset(old(elements)[index := e.value])
      ensures e.Some? && index == old(size) ==>
        size == old(size) + 1 && multiset(elements) == multiset(old(elements) + [e.value])
    {
      if e.None? {
        return Fail(NullElement);
      }
      var element := e.value;
      while index >= values.Length
        invariant Valid() && size == old(size) && elements == old(elements)
        invariant index < values.Length || 2 * values.Length < UnsafeUtils.TwoTo31
        invariant values == old(values) || fresh(values)
        invariant hashes == old(hashes) || fresh(hashes)
        decreases index - values.Length
      {
        ExpandGrowing();
      }
      outcome := Pass;
      Store(index, element);
    }

    /** AbstractList's `add(e)`: `add(size(), e)`, which appends. */
    method Append(element: T)
      requires Valid() && (size < values.Length || 2 * values.Length < UnsafeUtils.TwoTo31)
      modifies this, values, hashes
      ensures Valid() && fresh(values) && fresh(hashes) && values.Length == size
      ensures size == old(size) + 1 && multiset(elements) == multiset(old(elements) + [element])
    {
      var _ := Add(size, Some(element));
    }

    /** The part of `add` after expansion: writes slot `index` and re-sorts. */
    method Store(index: int, element: T)
      requires Valid() && 0 <= index <= size && index < values.Length
      modifies this, values, hashes
      ensures Valid() && fresh(values) && fresh(hashes) && values.Length == size
      ensures index < old(size) ==>
        size == old(size) && multiset(elements) == multiset(old(elements)[index := element])
      ensures index == old(size) ==>
        size == old(size) + 1 && multiset(elements) == multiset(old(elements) + [element])
    {
      ghost var written := if index < size then elements[index := element] else elements + [element];
      WriteHeld(values[..], elements, index, element);
      PresentHeld(values[..][index := Some(element)], written);
      var h := hashCode(element);
      values[index] := Some(element);
      hashes[index] := h;
      if index >= size {
        size := index + 1;
      }
      assert values[..] == old(values[..])[index := Some(element)];
      Sort();
    }

    /**
     * `remove(index)`: past the live prefix, returns null and changes nothing; otherwise nulls
     * the slot (the compare-and-set cannot fail sequentially), shrinks `size` and re-sorts.
     * Only the last element may go once three or more remain, since the sort would
     * otherwise compare the null slot.
     */
    method Remove(index: int) returns (r: Option<T>)
      requires Valid()
      requires 0 <= index && (size - 1 <= index || size <= 2)
      modifies this, values
      ensures old(size) <= index ==> r == None && unchanged(this) && unchanged(values)
      ensures index < old(size) ==>
        && r == Some(old(elements)[index])
        && Valid() && fresh(values) && fresh(hashes)
        && size == old(size) - 1 && values.Length == size
        && multiset(elements) == multiset(old(elements)) - multiset{r.value}
    {
      if index >= size {
        return None;
      }
      var oldVal := values[index];
      ClearHeld(values[..], elements, index);
      values[index] := None;
      size := size - 1;
      assert values[..] == old(values[..])[index := None];
      Sort();
      r := oldVal;
    }
  }

  /**
   * Removing the only element compacts the arrays to length 0, and `expand()` as written then
   * leaves them empty, so `add(0, e)` would call it forever.
   */
  method ExpandStallsAfterRemovingLast<T(!new)>(x: T, compareTo: (T, T) -> int, hashCode: T -> int)
    returns (size: int, capacity: int)
    requires IsOrdering(compareTo)
    ensures size == 0 && capacity == 0
  {
    var list := new OrderedAtomicList(compareTo, hashCode);
    list.Append(x);
    var _ := list.Remove(0);
    list.Expand();
    size, capacity := list.size, list.values.Length;
  }

  /** The same sequence with the growing expand: the empty list gets room for an element. */
  method ExpandGrowingAfterRemovingLast<T(!new)>(x: T, compareTo: (T, T) -> int, hashCode: T -> int)
    returns (size: int, capacity: int)
    requires IsOrdering(compareTo)
    ensures size == 0 && capacity == 2
  {
    var list := new OrderedAtomicList(compareTo, hashCode);
    list.Append(x);
    var _ := list.Remove(0);
    list.ExpandGrowing();
    size, capacity := list.size, list.values.Length;
  }
}
