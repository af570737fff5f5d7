/**
 * A backing array of `OrderedAtomicList` holds nullable slots. `Present` is the sequence of its
 * non-null elements in slot order: exactly what `sort()`'s compaction loop copies out.
 */
module Slots {
  import opened Optional

  ghost predicate AllSome<T>(s: seq<Option<T>>) {
    forall k :: 0 <= k < |s| ==> s[k].Some?
  }

  /** The non-null slots of `s`, in order. */
  function Present<T>(s: seq<Option<T>>): (r: seq<T>)
    ensures |r| <= |s|
  {
    if s == [] then []
    else Present(s[..|s| - 1]) + (if s[|s| - 1].Some? then [s[|s| - 1].value] else [])
  }

  lemma {:induction false} PresentAppend<T>(s: seq<Option<T>>, t: seq<Option<T>>)
    ensures Present(s + t) == Present(s) + Present(t)
  {
    if t == [] {
      assert s + t == s;
    } else {
      var last := t[|t| - 1];
      assert (s + t)[..|s + t| - 1] == s + t[..|t| - 1];
      PresentAppend(s, t[..|t| - 1]);
    }
  }

  /** Without nulls, compaction keeps every slot in place. */
  lemma {:induction false} PresentAllSome<T>(s: seq<Option<T>>)
    requires AllSome(s)
    ensures |Present(s)| == |s|
    ensures forall k :: 0 <= k < |s| ==> Present(s)[k] == s[k].value
  {
    if s != [] {
      PresentAllSome(s[..|s| - 1]);
    }
  }

  /** Each element is kept as often as its non-null slot occurs. */
  lemma {:induction false} PresentCount<T>(s: seq<Option<T>>, x: T)
    ensures multiset(Present(s))[x] == multiset(s)[Some(x)]
  {
    if s != [] {
      var init := s[..|s| - 1];
      assert s == init + [s[|s| - 1]];
      PresentCount(init, x);
    }
  }

  /** Permuting the slots permutes the compacted elements. */
  lemma PresentPermutation<T>(s: seq<Option<T>>, t: seq<Option<T>>)
    requires multiset(s) == multiset(t)
    ensures multiset(Present(s)) == multiset(Present(t))
  {
    var ps, pt := multiset(Present(s)), multiset(Present(t));
    forall x
      ensures ps[x] == pt[x]
    {
      PresentCount(s, x);
      PresentCount(t, x);
    }
    MultisetExtensionality(ps, pt);
  }

  lemma MultisetExtensionality<T>(a: multiset<T>, b: multiset<T>)
    requires forall x :: a[x] == b[x]
    ensures a == b
  {
  }

  /** Extending a slot sequence by one slot extends its compaction by at most that slot. */
  lemma PresentSnoc<T>(s: seq<Option<T>>, j: int)
    requires 0 <= j < |s|
    ensures Present(s[..j + 1]) == Present(s[..j]) + (if s[j].Some? then [s[j].value] else [])
  {
    assert s[..j + 1][..j] == s[..j];
  }

  /** Compacting a prefix never yields more than compacting the whole. */
  lemma PresentPrefix<T>(s: seq<Option<T>>, j: int)
    requires 0 <= j <= |s|
    ensures |Present(s[..j])| <= |Present(s)|
  {
    assert s == s[..j] + s[j..];
    PresentAppend(s[..j], s[j..]);
  }

  /**
   * When the first `n` slots are non-null and the whole sequence has just `n` non-null slots,
   * compaction is the first `n` slots' elements.
   */
  lemma PresentCompact<T>(s: seq<Option<T>>, n: int)
    requires 0 <= n <= |s| && AllSome(s[..n]) && |Present(s)| == n
    ensures |Present(s)| == n && forall k :: 0 <= k < n ==> Present(s)[k] == s[k].value
  {
    assert s == s[..n] + s[n..];
    PresentAppend(s[..n], s[n..]);
    PresentAllSome(s[..n]);
  }

  /** Slots `s` hold exactly `e`: its elements in the first `|e|` slots, nulls after. */
  ghost predicate Holds<T>(s: seq<Option<T>>, e: seq<T>) {
    && |e| <= |s|
    && (forall k :: 0 <= k < |e| ==> s[k] == Some(e[k]))
    && (forall k :: |e| <= k < |s| ==> s[k].None?)
  }

  /** Compacting slots that hold `e` gives back `e`. */
  lemma {:induction false} PresentHeld<T>(s: seq<Option<T>>, e: seq<T>)
    requires Holds(s, e)
    ensures Present(s) == e
  {
    if s != [] {
      var init := s[..|s| - 1];
      if |e| == |s| {
        PresentHeld(init, e[..|e| - 1]);
      } else {
        PresentHeld(init, e);
      }
    }
  }

  /**
   * Writing `x` into slot `i`, at most one past the held elements, overwrites element `i`, or
   * appends `x` when `i == |e|`.
   */
  lemma WriteHeld<T>(s: seq<Option<T>>, e: seq<T>, i: int, x: T)
    requires Holds(s, e) && 0 <= i <= |e| && i < |s|
    ensures i < |e| ==> Holds(s[i := Some(x)], e[i := x])
    ensures i == |e| ==> Holds(s[i := Some(x)], e + [x])
  {
  }

  /** Nulling the slot of element `i` leaves the others, in order. */
  lemma ClearHeld<T>(s: seq<Option<T>>, e: seq<T>, i: int)
    requires Holds(s, e) && 0 <= i < |e|
    ensures Present(s[i := None]) == e[..i] + e[i + 1..]
    ensures multiset(Present(s[i := None])) == multiset(e) - multiset{e[i]}
  {
    PresentClear(s, i);
    assert Present(s[..i]) == e[..i] by {
      PresentHeld(s[..i], e[..i]);
    }
    assert Present(s[i + 1..]) == e[i + 1..] by {
      PresentHeld(s[i + 1..], e[i + 1..]);
    }
    DropOne(e, i);
  }

  /** A null slot splits the compaction around it. */
  lemma PresentClear<T>(s: seq<Option<T>>, i: int)
    requires 0 <= i < |s|
    ensures Present(s[i := None]) == Present(s[..i]) + Present(s[i + 1..])
  {
    var none: seq<Option<T>> := [None];
    assert s[i := None] == s[..i] + none + s[i + 1..];
    PresentAppend(s[..i] + none, s[i + 1..]);
    PresentAppend(s[..i], none);
    assert Present(none) == [] by {
      assert none[..0] == [];
    }
  }

  lemma DropOne<T>(e: seq<T>, i: int)
    requires 0 <= i < |e|
    ensures multiset(e[..i] + e[i + 1..]) == multiset(e) - multiset{e[i]}
  {
    assert e == e[..i] + [e[i]] + e[i + 1..];
  }
}
