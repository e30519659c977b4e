/** The NavigableSet operations that `NavigableArraySet` adds on top of
    `ArraySet`: nearest-element queries, ranges with inclusive or exclusive
    ends, the descending view and the descending iterator. The ranges and the
    descending view are built through the sorting constructor again, not as
    views. */
module NavigableArraySet {
  import opened Results
  import opened ArraySet

  /** `e` lies on the right side of a lower range end. */
  predicate AtOrAbove(o: Order, from: int, inclusive: bool, e: int) {
    Less(o, from, e) || (inclusive && e == from)
  }

  /** `e` lies on the right side of an upper range end. */
  predicate AtOrBelow(o: Order, to: int, inclusive: bool, e: int) {
    Less(o, e, to) || (inclusive && e == to)
  }

  /** getElement: the element at `index`, or null outside [0, size). */
  function GetElement(s: ArraySet, index: int): (r: Option<int>)
    ensures r.Some? <==> 0 <= index < |s.elements|
    ensures r.Some? ==> r.value == s.elements[index]
  {
    if 0 <= index < |s.elements| then Some(s.elements[index]) else None
  }

  /** ceiling(e): the least element at or above `e`, or null. */
  function Ceiling(s: ArraySet, e: int): (r: Option<int>)
    requires s.Valid()
    ensures r.None? <==> forall x :: x in s.elements ==> Less(s.order, x, e)
    ensures r.Some? ==> r.value in s.elements && !Less(s.order, r.value, e)
    ensures r.Some? ==> forall x :: x in s.elements && !Less(s.order, x, e) ==> !Less(s.order, x, r.value)
  {
    var searched := BinarySearch(s, e);
    var index := if searched < 0 then -searched - 1 else searched;
    var r := GetElement(s, index);
    assert r.Some? ==> s.elements[index] in s.elements;
    r
  }

  /** higher(e): the least element strictly above `e`, or null. */
  function Higher(s: ArraySet, e: int): (r: Option<int>)
    requires s.Valid()
    ensures r.None? <==> forall x :: x in s.elements ==> !Less(s.order, e, x)
    ensures r.Some? ==> r.value in s.elements && Less(s.order, e, r.value)
    ensures r.Some? ==> forall x :: x in s.elements && Less(s.order, e, x) ==> !Less(s.order, x, r.value)
  {
    var searched := BinarySearch(s, e);
    var index := if searched < 0 then -searched - 1 else searched + 1;
    GetElement(s, index)
  }

  /** floor(e): the greatest element at or below `e`, or null. */
  function Floor(s: ArraySet, e: int): (r: Option<int>)
    requires s.Valid()
    ensures r.None? <==> forall x :: x in s.elements ==> Less(s.order, e, x)
    ensures r.Some? ==> r.value in s.elements && !Less(s.order, e, r.value)
    ensures r.Some? ==> forall x :: x in s.elements && !Less(s.order, e, x) ==> !Less(s.order, r.value, x)
  {
    var searched := BinarySearch(s, e);
    var index := if searched < 0 then -searched - 2 else searched;
    var r := GetElement(s, index);
    assert r.Some? ==> s.elements[index] in s.elements;
    r
  }

  /** lower(e): the greatest element strictly below `e`, or null. */
  function Lower(s: ArraySet, e: int): (r: Option<int>)
    requires s.Valid()
    ensures r.None? <==> forall x :: x in s.elements ==> !Less(s.order, x, e)
    ensures r.Some? ==> r.value in s.elements && Less(s.order, r.value, e)
    ensures r.Some? ==> forall x :: x in s.elements && Less(s.order, x, e) ==> !Less(s.order, r.value, x)
  {
    var index := GetElementIndex(s, e) - 1;
    GetElement(s, index)
  }

  /** Where a lower range end cuts the list: past `from` when it is present
      and excluded, otherwise at its insertion point. Exactly the indices from
      the cut on hold elements on the right side of the end. */
  lemma LowerCut(s: ArraySet, from: int, inclusive: bool, low: int)
    requires s.Valid()
    requires low == (var searched := BinarySearch(s, from);
                     if searched < 0 then -searched - 1 else if !inclusive then searched + 1 else searched)
    ensures 0 <= low <= |s.elements|
    ensures forall i :: 0 <= i < |s.elements| ==> (low <= i <==> AtOrAbove(s.order, from, inclusive, s.elements[i]))
  {
    var searched := BinarySearch(s, from);
    if searched >= 0 {
      forall i | 0 <= i < |s.elements|
        ensures low <= i <==> AtOrAbove(s.order, from, inclusive, s.elements[i])
      {
        if i != searched {
          assert Less(s.order, s.elements[i], from) <==> i < searched;
        }
      }
    }
  }

  /** Where an upper range end cuts the list: past `to` when it is present
      and included, otherwise at its insertion point. */
  lemma UpperCut(s: ArraySet, to: int, inclusive: bool, high: int)
    requires s.Valid()
    requires high == (var searched := BinarySearch(s, to);
                      if searched < 0 then -searched - 1 else if inclusive then searched + 1 else searched)
    ensures 0 <= high <= |s.elements|
    ensures forall i :: 0 <= i < |s.elements| ==> (i < high <==> AtOrBelow(s.order, to, inclusive, s.elements[i]))
  {
    var searched := BinarySearch(s, to);
    if searched >= 0 {
      forall i | 0 <= i < |s.elements|
        ensures i < high <==> AtOrBelow(s.order, to, inclusive, s.elements[i])
      {
        if i != searched {
          assert Less(s.order, s.elements[i], to) <==> i < searched;
        }
      }
    }
  }

  /** The members of a slice are the members at the indices it covers. */
  lemma SliceMembers(s: seq<int>, low: int, high: int)
    requires 0 <= low <= high <= |s|
    ensures forall x :: x in s[low..high] <==> exists i :: low <= i < high && s[i] == x
  {
    forall x | x in s[low..high] ensures exists i :: low <= i < high && s[i] == x {
      var k :| 0 <= k < high - low && s[low..high][k] == x;
      assert s[low + k] == x;
    }
  }

  /** tailSet(from, inclusive): the elements above `from`, and `from` itself
      when inclusive; a suffix of the list. */
  function TailSet(s: ArraySet, from: int, inclusive: bool): (r: ArraySet)
    requires s.Valid()
    ensures r.Valid() && r.order == s.order
    ensures exists k :: 0 <= k <= |s.elements| && r.elements == s.elements[k..]
    ensures forall x :: x in r.elements <==> x in s.elements && AtOrAbove(s.order, from, inclusive, x)
  {
    var searched := BinarySearch(s, from);
    var fromIndex := if searched < 0 then -searched - 1 else if !inclusive then searched + 1 else searched;
    LowerCut(s, from, inclusive, fromIndex);
    var tail := s.elements[fromIndex..|s.elements|];
    SliceMembers(s.elements, fromIndex, |s.elements|);
    FromSortedKeepsList(tail, s.order);
    assert tail == s.elements[fromIndex..];
    FromCollectionWith(tail, s.order)
  }

  /** headSet(to, inclusive): the elements below `to`, and `to` itself when
      inclusive; a prefix of the list. */
  function HeadSet(s: ArraySet, to: int, inclusive: bool): (r: ArraySet)
    requires s.Valid()
    ensures r.Valid() && r.order == s.order
    ensures r.elements <= s.elements
    ensures forall x :: x in r.elements <==> x in s.elements && AtOrBelow(s.order, to, inclusive, x)
  {
    var searched := BinarySearch(s, to);
    var toIndex := if searched < 0 then -searched - 1 else if inclusive then searched + 1 else searched;
    UpperCut(s, to, inclusive, toIndex);
    var head := s.elements[0..toIndex];
    SliceMembers(s.elements, 0, toIndex);
    FromSortedKeepsList(head, s.order);
    assert head == s.elements[..toIndex];
    FromCollectionWith(head, s.order)
  }

  /** subSet(from, fromInclusive, to, toInclusive), as written. The only
      explicit check compares the two insertion points; the later subList
      call rejects a start past the end. Both raise
      IllegalArgumentException. Ordered bounds never fail, and a successful
      result holds exactly the elements between the bounds. */
  function SubSet(s: ArraySet, from: int, fromInclusive: bool, to: int, toInclusive: bool): (r: Result<ArraySet>)
    requires s.Valid()
    ensures r.Err? ==> r.error == IllegalArgument
    ensures !Less(s.order, to, from) ==> r.Ok?
    ensures r.Err? <==>
      (exists x :: x in s.elements && !Less(s.order, x, to) && Less(s.order, x, from)) ||
      (Less(s.order, to, from) && from in s.elements && !fromInclusive)
    ensures r.Ok? ==> r.value.Valid() && r.value.order == s.order
    ensures r.Ok? ==> forall x :: x in r.value.elements <==>
      x in s.elements && AtOrAbove(s.order, from, fromInclusive, x) && AtOrBelow(s.order, to, toInclusive, x)
  {
    var fromSearched := BinarySearch(s, from);
    var toSearched := BinarySearch(s, to);
    var fromIndex := if fromSearched < 0 then -fromSearched - 1 else fromSearched;
    var toIndex := if toSearched < 0 then -toSearched - 1 else toSearched;
    InsertionPointOrder(s, from, fromIndex, to, toIndex);
    if fromIndex > toIndex then
      Err(IllegalArgument)
    else if fromIndex == toIndex && !(fromInclusive && toInclusive) && fromSearched >= 0 && toSearched >= 0 then
      assert from == to;
      Ok(FromCollectionWith([], s.order))
    else
      var low := if !fromInclusive && fromSearched >= 0 then fromIndex + 1 else fromIndex;
      var high := if toInclusive && toSearched >= 0 then toIndex + 1 else toIndex;
      SubSetCut(s, from, fromInclusive, to, toInclusive, low, high);
      match Slice(s, low, high)
      case Err(error) => Err(error)
      case Ok(view) =>
        assert view.elements == s.elements[low..high];
        FromSortedKeepsList(view.elements, s.order);
        Ok(FromCollectionWith(view.elements, s.order))
  }

  /** The two cuts of subSet once the explicit checks have passed: the start
      passes the end only for a present, excluded `from` above `to`, and
      otherwise the slice between them is the requested range. */
  lemma SubSetCut(s: ArraySet, from: int, fromInclusive: bool, to: int, toInclusive: bool, low: int, high: int)
    requires s.Valid()
    requires GetElementIndex(s, from) <= GetElementIndex(s, to)
    requires !(GetElementIndex(s, from) == GetElementIndex(s, to) && !(fromInclusive && toInclusive) &&
               from in s.elements && to in s.elements)
    requires low == (var searched := BinarySearch(s, from);
                     if searched < 0 then -searched - 1 else if !fromInclusive then searched + 1 else searched)
    requires high == (var searched := BinarySearch(s, to);
                      if searched < 0 then -searched - 1 else if toInclusive then searched + 1 else searched)
    ensures 0 <= low && high <= |s.elements|
    ensures low > high <==> Less(s.order, to, from) && from in s.elements && !fromInclusive
    ensures low <= high ==> forall x :: x in s.elements[low..high] <==>
      x in s.elements && AtOrAbove(s.order, from, fromInclusive, x) && AtOrBelow(s.order, to, toInclusive, x)
  {
    LowerCut(s, from, fromInclusive, low);
    UpperCut(s, to, toInclusive, high);
    if low <= high {
      SliceMembers(s.elements, low, high);
    }
  }

  /** The insertion points of two values are out of order exactly when an
      element lies in [to, from). */
  lemma InsertionPointOrder(s: ArraySet, from: int, fromIndex: int, to: int, toIndex: int)
    requires s.Valid()
    requires fromIndex == GetElementIndex(s, from) && toIndex == GetElementIndex(s, to)
    ensures fromIndex > toIndex <==>
      exists x :: x in s.elements && !Less(s.order, x, to) && Less(s.order, x, from)
  {
    if fromIndex > toIndex {
      var x := s.elements[toIndex];
      assert x in s.elements && !Less(s.order, x, to) && Less(s.order, x, from);
    }
    forall x | x in s.elements && !Less(s.order, x, to) && Less(s.order, x, from)
      ensures fromIndex > toIndex
    {
      var i :| 0 <= i < |s.elements| && s.elements[i] == x;
      assert toIndex <= i < fromIndex;
    }
  }

  // ---------------------------------------------------------------------
  // Descending order
  // ---------------------------------------------------------------------

  /** The list read from its last element to its first. */
  function Reverse(s: seq<int>): (r: seq<int>)
  {
    if s == [] then [] else [s[|s| - 1]] + Reverse(s[..|s| - 1])
  }

  lemma {:induction false} ReverseAt(s: seq<int>)
    ensures |Reverse(s)| == |s|
    ensures forall k :: 0 <= k < |s| ==> Reverse(s)[k] == s[|s| - 1 - k]
  {
    if s != [] {
      ReverseAt(s[..|s| - 1]);
    }
  }

  /** descendingSet(): a new set over the same elements under the reversed
      comparator, so its list is the original list reversed. */
  function DescendingSet(s: ArraySet): (r: ArraySet)
    requires s.Valid()
    ensures r.Valid() && r.order == Flip(s.order)
    ensures r.elements == Reverse(s.elements)
  {
    var r := FromCollectionWith(s.elements, Flip(s.order));
    ReverseAt(s.elements);
    assert forall x :: x in Reverse(s.elements) <==> x in s.elements by {
      forall x ensures x in Reverse(s.elements) <==> x in s.elements {
        if x in s.elements {
          var i :| 0 <= i < |s.elements| && s.elements[i] == x;
          assert Reverse(s.elements)[|s.elements| - 1 - i] == x;
        }
      }
    }
    SortedUnique(r.elements, Reverse(s.elements), Flip(s.order));
    r
  }

  /** Taking the descending set twice gives back the original set. */
  lemma DescendingSetTwice(s: ArraySet)
    requires s.Valid()
    ensures DescendingSet(DescendingSet(s)) == s
  {
    var d := DescendingSet(DescendingSet(s));
    ReverseAt(s.elements);
    ReverseAt(Reverse(s.elements));
    assert d.elements == s.elements;
  }

  /** pollFirst(): the set is immutable, so always UnsupportedOperationException. */
  function PollFirst(s: ArraySet): (r: Result<int>)
    ensures r.Err? && r.error == UnsupportedOperation
  {
    Err(UnsupportedOperation)
  }

  /** pollLast(): likewise always UnsupportedOperationException. */
  function PollLast(s: ArraySet): (r: Result<int>)
    ensures r.Err? && r.error == UnsupportedOperation
  {
    Err(UnsupportedOperation)
  }

  /** The SortedSet contract asks subSet to reject a lower bound above the
      upper bound. The version above lets such bounds through whenever no
      element lies in [to, from) and `from` is absent or included: it then
      returns an empty set. */
  lemma SubSetAcceptsReversedBounds(s: ArraySet, from: int, fromInclusive: bool, to: int, toInclusive: bool)
    requires s.Valid()
    requires Less(s.order, to, from)
    requires forall x :: x in s.elements ==>
      Less(s.order, x, to) || Less(s.order, from, x) || (fromInclusive && x == from)
    ensures SubSet(s, from, fromInclusive, to, toInclusive).Ok?
    ensures forall x :: x !in SubSet(s, from, fromInclusive, to, toInclusive).value.elements
  {
  }

  /** subSet with the bound check the SortedSet contract asks for: bounds
      in the wrong order always raise IllegalArgumentException. */
  function SubSetChecked(s: ArraySet, from: int, fromInclusive: bool, to: int, toInclusive: bool): (r: Result<ArraySet>)
    requires s.Valid()
    ensures r.Err? <==> Less(s.order, to, from)
    ensures r.Err? ==> r.error == IllegalArgument
    ensures r.Ok? ==> r.value.Valid() && r.value.order == s.order
    ensures r.Ok? ==> forall x :: x in r.value.elements <==>
      x in s.elements && AtOrAbove(s.order, from, fromInclusive, x) && AtOrBelow(s.order, to, toInclusive, x)
  {
    if Compare(s.order, from, to) > 0 then Err(IllegalArgument)
    else SubSet(s, from, fromInclusive, to, toInclusive)
  }

  // ---------------------------------------------------------------------
  // The descending iterator
  // ---------------------------------------------------------------------

  /** What `next()` returns while `hasNext()` holds, starting from index
      `to`: the guard is `to > from` with `from` fixed at 0. */
  function Descending(s: seq<int>, index: int): (r: seq<int>)
    requires index < |s|
    decreases index
  {
    if index > 0 then [s[index]] + Descending(s, index - 1) else []
  }

  /** The iteration as written walks indices `to` down to 1: it yields the
      list without its first element, reversed. */
  lemma {:induction false} DescendingIsReverseOfTail(s: seq<int>, to: int)
    requires 0 <= to < |s|
    ensures Descending(s, to) == Reverse(s[1..to + 1])
  {
    if to > 0 {
      DescendingIsReverseOfTail(s, to - 1);
      assert s[1..to + 1][..to - 1] == s[1..to];
    }
  }

  /** Index 0 is never returned: in a non-empty set the first (least)
      element never comes out of the descending iterator. */
  lemma DescendingIteratorSkipsFirst(s: ArraySet)
    requires s.Valid() && |s.elements| > 0
    ensures |Descending(s.elements, |s.elements| - 1)| == |s.elements| - 1
    ensures s.elements[0] !in Descending(s.elements, |s.elements| - 1)
  {
    var n := |s.elements|;
    DescendingIsReverseOfTail(s.elements, n - 1);
    var tail := s.elements[1..n];
    ReverseAt(tail);
    forall k | 0 <= k < |tail| ensures Reverse(tail)[k] != s.elements[0] {
      assert Reverse(tail)[k] == s.elements[n - 1 - k];
      assert Less(s.order, s.elements[0], s.elements[n - 1 - k]);
    }
  }

  /** The iteration the Iterator contract asks for: guard `to >= from`. */
  function DescendingIntended(s: seq<int>, index: int): (r: seq<int>)
    requires index < |s|
    decreases index
  {
    if index >= 0 then [s[index]] + DescendingIntended(s, index - 1) else []
  }

  /** With the intended guard every element comes out, last to first. */
  lemma {:induction false} DescendingIntendedIsReverse(s: seq<int>, to: int)
    requires -1 <= to < |s|
    ensures DescendingIntended(s, to) == Reverse(s[..to + 1])
  {
    if to >= 0 {
      DescendingIntendedIsReverse(s, to - 1);
      assert s[..to + 1][..to] == s[..to];
    }
  }

  /** DescendingIterator: walks the list from its last index down while
      `to > from`. */
  class DescendingIterator {
    const elements: seq<int>
    const from: int
    var to: int

    ghost predicate Valid()
      reads this
    {
      from == 0 && to < |elements|
    }

    /** The values the remaining `next()` calls return while `hasNext()`
        holds. */
    ghost function Pending(): seq<int>
      reads this
      requires Valid()
    {
      Descending(elements, to)
    }

    /** descendingIterator(): starts at the last index. */
    constructor (elements: seq<int>)
      ensures this.elements == elements && from == 0 && to == |elements| - 1
      ensures Valid() && Pending() == Descending(elements, |elements| - 1)
    {
      this.elements := elements;
      from := 0;
      to := |elements| - 1;
    }

    predicate HasNext()
      reads this
      requires Valid()
      ensures HasNext() <==> Pending() != []
    {
      to > from
    }

    /** next(): the element at `to`, then `to` moves down one; reading
        below index 0 raises IndexOutOfBoundsException, after the
        decrement. */
    method Next() returns (r: Result<int>)
      requires Valid()
      modifies this
      ensures Valid() && to == old(to) - 1
      ensures r == if old(to) >= 0 then Ok(elements[old(to)]) else Err(IndexOutOfBounds)
      ensures old(HasNext()) ==> r == Ok(old(Pending())[0]) && Pending() == old(Pending())[1..]
    {
      var index := to;
      to := to - 1;
      if 0 <= index < |elements| {
        r := Ok(elements[index]);
      } else {
        r := Err(IndexOutOfBounds);
      }
    }
  }
}
