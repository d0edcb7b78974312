// The kernel's bounded sorted array (src/utils/ordered_array.c), the index
// of the kernel heap.
//
// The caller hands in a buffer of `max_size` pointer-sized slots and a
// comparator; the array keeps its first `size` slots ordered by that
// comparator.  Elements are `type_t` (a 32-bit pointer), modelled as `u32`,
// with 0 standing for the null pointer that `get` returns out of range.

module OrderedArrays {
  import opened Common
  import LinkedList

  /** A comparator_t: negative, zero or positive for less, equal, greater. */
  type Comparator = (u32, u32) -> int

  /** standard_comparator compares the pointer values themselves. */
  function StandardComparator(a: u32, b: u32): (r: int)
    ensures r == -1 <==> a < b
    ensures r == 0 <==> a == b
    ensures r == 1 <==> a > b
  {
    if a < b then -1 else if a == b then 0 else 1
  }

  /** What the array relies on of its comparator for sortedness to survive
      an insertion: "greater" is asymmetric and "not greater" is transitive. */
  ghost predicate IsOrdering(cmp: Comparator)
  {
    (forall a, b :: cmp(a, b) > 0 ==> cmp(b, a) <= 0) &&
    (forall a, b, c :: cmp(a, b) <= 0 && cmp(b, c) <= 0 ==> cmp(a, c) <= 0)
  }

  /** No element compares greater than one that follows it. */
  ghost predicate Sorted(s: seq<u32>, cmp: Comparator)
  {
    forall i, j :: 0 <= i < j < |s| ==> cmp(s[i], s[j]) <= 0
  }

  lemma StandardIsOrdering()
    ensures IsOrdering(StandardComparator)
  {
  }

  /** Where insert puts `item`: behind every leading element that does not
      compare greater than it, in front of the first one that does. */
  function Position(s: seq<u32>, item: u32, cmp: Comparator): (k: nat)
    ensures k <= |s|
    ensures forall i :: 0 <= i < k ==> cmp(s[i], item) <= 0
    ensures k < |s| ==> cmp(s[k], item) > 0
  {
    if |s| == 0 || cmp(s[0], item) > 0 then 0 else 1 + Position(s[1..], item, cmp)
  }

  /** The position is the only index with the two properties above, so the
      scanning loop of insert finds exactly it. */
  lemma {:induction false} PositionFirst(s: seq<u32>, item: u32, cmp: Comparator, k: nat)
    requires k <= |s|
    requires forall i :: 0 <= i < k ==> cmp(s[i], item) <= 0
    requires k < |s| ==> cmp(s[k], item) > 0
    ensures Position(s, item, cmp) == k
  {
    if k > 0 {
      assert cmp(s[0], item) <= 0;
      PositionFirst(s[1..], item, cmp, k - 1);
    }
  }

  /** The contents after inserting `item`. */
  function Inserted(s: seq<u32>, item: u32, cmp: Comparator): (r: seq<u32>)
  {
    LinkedList.InsertAfter(s, Position(s, item, cmp) - 1, item)
  }

  /** Insertion adds one copy of `item` and keeps everything else. */
  lemma InsertedContents(s: seq<u32>, item: u32, cmp: Comparator)
    ensures multiset(Inserted(s, item, cmp)) == multiset(s) + multiset{item}
  {
    LinkedList.InsertAfterSplice(s, Position(s, item, cmp) - 1, item);
  }

  /** Slot k after inserting `item`: the elements before its position,
      then `item`, then the rest moved one slot up. */
  lemma InsertedAt(s: seq<u32>, item: u32, cmp: Comparator, k: nat)
    requires k <= |s|
    ensures |Inserted(s, item, cmp)| == |s| + 1
    ensures Inserted(s, item, cmp)[k]
         == (if k < Position(s, item, cmp) then s[k]
             else if k == Position(s, item, cmp) then item
             else s[k - 1])
  {
  }

  /** Under an ordering comparator insertion keeps a sorted array sorted. */
  lemma InsertKeepsSorted(s: seq<u32>, item: u32, cmp: Comparator)
    requires IsOrdering(cmp)
    requires Sorted(s, cmp)
    ensures Sorted(Inserted(s, item, cmp), cmp)
  {
    var p := Position(s, item, cmp);
    var r := Inserted(s, item, cmp);
    InsertedAt(s, item, cmp, 0);
    forall i, j | 0 <= i < j < |r| ensures cmp(r[i], r[j]) <= 0 {
      InsertedAt(s, item, cmp, i);
      InsertedAt(s, item, cmp, j);
      if j == p {
        assert r[i] == s[i] && r[j] == item;
      } else if i == p {
        assert r[i] == item && r[j] == s[j - 1];
        ItemBeforeLater(s, item, cmp, p, j - 1);
      } else {
        assert r[i] == s[if i < p then i else i - 1];
        assert r[j] == s[if j < p then j else j - 1];
      }
    }
  }

  /** An element at or after one that compares greater than `item` (the
      element at the insert position) does not compare below `item`. */
  lemma ItemBeforeLater(s: seq<u32>, item: u32, cmp: Comparator, p: nat, k: nat)
    requires IsOrdering(cmp)
    requires Sorted(s, cmp)
    requires p <= k < |s| && cmp(s[p], item) > 0
    ensures cmp(item, s[k]) <= 0
  {
    var first, later := s[p], s[k];
    Asymmetric(cmp, first, item);
    if k > p {
      assert cmp(first, later) <= 0;
      Transitive(cmp, item, first, later);
    }
  }

  lemma Asymmetric(cmp: Comparator, a: u32, b: u32)
    requires IsOrdering(cmp) && cmp(a, b) > 0
    ensures cmp(b, a) <= 0
  {
  }

  lemma Transitive(cmp: Comparator, a: u32, b: u32, c: u32)
    requires IsOrdering(cmp) && cmp(a, b) <= 0 && cmp(b, c) <= 0
    ensures cmp(a, c) <= 0
  {
  }

  /** Removal drops one copy of the element and keeps a sorted array sorted. */
  lemma RemoveKeepsSorted(s: seq<u32>, k: nat, cmp: Comparator)
    requires k < |s|
    requires Sorted(s, cmp)
    ensures multiset(LinkedList.RemoveAt(s, k)) + multiset{s[k]} == multiset(s)
    ensures Sorted(LinkedList.RemoveAt(s, k), cmp)
  {
    LinkedList.RemoveAtSplice(s, k);
    var r := LinkedList.RemoveAt(s, k);
    forall i, j | 0 <= i < j < |r| ensures cmp(r[i], r[j]) <= 0 {
      assert r[i] == s[if i < k then i else i + 1];
      assert r[j] == s[if j < k then j else j + 1];
    }
  }

  /** The shift loop of insert exactly as written (ordered_array.c:31): the
      index goes up, `i++`, although the slots have to move right.  Followed
      over the buffer `a` it returns the buffer when the loop test fails and
      None when the next access would leave the buffer. */
  function ShiftAsWritten(a: seq<u32>, i: int, scan: int): (r: Option<seq<u32>>)
    requires 0 <= scan
    ensures i <= scan ==> r == Some(a)
    ensures i > scan ==> r == None
    decreases |a| - i
  {
    if i <= scan then Some(a)
    else if i >= |a| then None
    else ShiftAsWritten(a[i := a[i - 1]], i + 1, scan)
  }

  /** Inserting 3 into [5] with room for two: the slot opens at 0, the loop
      starts at 1 and runs past the end of the two-slot buffer. */
  lemma AsWrittenInsertOverruns()
    ensures Position([5], 3, StandardComparator) == 0
    ensures ShiftAsWritten([5, 0], 1, 0) == None
  {
  }

  class OrderedArray {
    /** The caller's buffer. */
    const items: array<u32>
    var size: nat
    const maxSize: nat
    const comparator: Comparator

    ghost predicate Valid()
      reads this
    {
      size <= maxSize <= items.Length && maxSize < 0x1_0000_0000
    }

    /** The elements in order. */
    function Contents(): (r: seq<u32>)
      reads this, items
      requires Valid()
      ensures |r| == size
    {
      items[..size]
    }

    /** ordered_array_create: empty, over the given buffer. */
    constructor (buffer: array<u32>, maxSize: u32, comparator: Comparator)
      requires maxSize <= buffer.Length
      ensures Valid()
      ensures items == buffer && this.maxSize == maxSize && this.comparator == comparator
      ensures Contents() == []
    {
      items := buffer;
      size := 0;
      this.maxSize := maxSize;
      this.comparator := comparator;
    }

    /** ordered_array_get: the element at `i`, or 0 out of range. */
    method Get(i: u32) returns (r: u32)
      requires Valid()
      ensures i < size ==> r == Contents()[i]
      ensures i >= size ==> r == 0
    {
      if i >= size {
        return 0;
      }
      return items[i];
    }

    /** ordered_array_insert: 0 and no change when full; otherwise 1, with
      `item` placed at its Position (the shift loop going down, as intended)
      and the slots past the new size untouched. */
    method Insert(item: u32) returns (r: i32)
      requires Valid()
      modifies this, items
      ensures Valid()
      ensures old(size) >= maxSize ==> r == 0 && size == old(size) && items[..] == old(items[..])
      ensures old(size) < maxSize ==> r == 1 && size == old(size) + 1
      ensures old(size) < maxSize ==> Contents() == Inserted(old(Contents()), item, comparator)
      ensures IsOrdering(comparator) && Sorted(old(Contents()), comparator) ==> Sorted(Contents(), comparator)
      ensures items[size..] == old(items[..])[size..]
    {
      if size >= maxSize {
        return 0;
      }
      ghost var s := Contents();
      var scan := 0;
      while scan < size && comparator(items[scan], item) <= 0
        invariant scan <= size
        invariant forall k :: 0 <= k < scan ==> comparator(items[k], item) <= 0
      {
        scan := scan + 1;
      }
      PositionFirst(s, item, comparator, scan);
      size := size + 1;
      ShiftRight(scan, item);
      r := 1;
      if IsOrdering(comparator) && Sorted(s, comparator) {
        InsertKeepsSorted(s, item, comparator);
      }
    }

    /** The intended shift: moves the slots `p .. size - 2` one place up,
        walking down from the top, then stores `item` at `p`. */
    method ShiftRight(p: nat, item: u32)
      requires Valid() && p < size
      modifies items
      ensures items[..] == LinkedList.InsertAfter(old(items[..size - 1]), p - 1, item) + old(items[size..])
    {
      ghost var a := items[..];
      var i := size - 1;
      while i > p
        invariant p <= i <= size - 1
        invariant forall k :: 0 <= k <= i ==> items[k] == a[k]
        invariant forall k :: i < k < size ==> items[k] == a[k - 1]
        invariant forall k :: size <= k < items.Length ==> items[k] == a[k]
      {
        items[i] := items[i - 1];
        i := i - 1;
      }
      items[p] := item;
      assert items[..] == LinkedList.InsertAfter(a[..size - 1], p - 1, item) + a[size..];
    }

    /** ordered_array_remove: no change for `i >= size`; otherwise element
        `i` is dropped and the rest shift down.  The vacated top slot keeps
        its old value. */
    method Remove(i: u32)
      requires Valid()
      modifies this, items
      ensures Valid()
      ensures i >= old(size) ==> size == old(size) && items[..] == old(items[..])
      ensures i < old(size) ==> size == old(size) - 1 && Contents() == LinkedList.RemoveAt(old(Contents()), i)
      ensures Sorted(old(Contents()), comparator) ==> Sorted(Contents(), comparator)
      ensures items[size..] == old(items[..])[size..]
    {
      if i >= size {
        return;
      }
      if Sorted(Contents(), comparator) {
        RemoveKeepsSorted(Contents(), i as nat, comparator);
      }
      ShiftLeft(i);
      size := size - 1;
    }

    /** The shift loop of remove: moves the slots `p + 1 .. size - 1` one
        place down, walking up from `p`; the top slot keeps its value. */
    method ShiftLeft(p: nat)
      requires Valid() && p < size
      modifies items
      ensures items[..size - 1] == LinkedList.RemoveAt(old(items[..size]), p)
      ensures items[size - 1..] == old(items[size - 1..])
    {
      ghost var a := items[..];
      var j := p;
      while j < size - 1
        invariant p <= j <= size - 1
        invariant forall k :: 0 <= k < p ==> items[k] == a[k]
        invariant forall k :: p <= k < j ==> items[k] == a[k + 1]
        invariant forall k :: j <= k < items.Length ==> items[k] == a[k]
      {
        items[j] := items[j + 1];
        j := j + 1;
      }
      assert items[..size - 1] == LinkedList.RemoveAt(a[..size], p);
    }
  }
}
