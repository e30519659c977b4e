/** An immutable sorted set backed by a strictly ascending list of elements
    (the `ArraySet` SortedSet). Elements are integers; the comparator is the
    natural order or its reverse. Every query is a binary search for a lower
    bound followed by index arithmetic or a slice. */
module ArraySet {
  import opened Results

  /** The set's comparator: natural order when none is given, or the reverse
      order that `descendingSet` installs. */
  datatype Order = Natural | Reversed

  /** Collections.reverseOrder: `a` comes before `b` under the result
      exactly when `b` comes before `a` under `o`. */
  function Flip(o: Order): (r: Order)
    ensures forall a, b :: Less(r, a, b) <==> Less(o, b, a)
  {
    if o == Natural then Reversed else Natural
  }

  /** `compare(a, b) < 0` under the comparator. */
  predicate Less(o: Order, a: int, b: int) {
    if o == Natural then a < b else b < a
  }

  /** The sign of `compare(a, b)`. */
  function Compare(o: Order, a: int, b: int): (c: int)
    ensures c < 0 <==> Less(o, a, b)
    ensures c > 0 <==> Less(o, b, a)
    ensures c == 0 <==> a == b
  {
    if Less(o, a, b) then -1 else if a == b then 0 else 1
  }

  predicate StrictlySorted(s: seq<int>, o: Order) {
    forall i, j :: 0 <= i < j < |s| ==> Less(o, s[i], s[j])
  }

  /** The elements list and the comparator of one set. */
  datatype ArraySet = ArraySet(elements: seq<int>, order: Order) {
    /** What every constructor establishes: ascending under the comparator,
        hence free of duplicates. */
    predicate Valid() {
      StrictlySorted(elements, order)
    }
  }

  // ---------------------------------------------------------------------
  // Construction: a TreeSet sorts and de-duplicates the collection, and
  // its iteration order becomes the elements list.
  // ---------------------------------------------------------------------

  /** Adds one element to a sorted list, as TreeSet.add does. */
  function Insert(s: seq<int>, o: Order, x: int): (r: seq<int>)
    requires StrictlySorted(s, o)
    ensures StrictlySorted(r, o)
    ensures forall e :: e in r <==> e in s || e == x
  {
    if s == [] then [x]
    else if Less(o, x, s[0]) then [x] + s
    else if x == s[0] then s
    else
      var rest := Insert(s[1..], o, x);
      assert forall e :: e in rest ==> Less(o, s[0], e) by {
        forall e | e in rest ensures Less(o, s[0], e) {
          if e != x {
            var j :| 0 <= j < |s[1..]| && s[1..][j] == e;
            assert s[j + 1] == e;
          }
        }
      }
      [s[0]] + rest
  }

  /** TreeSet.addAll: the elements added one after another, in order. */
  function SortDistinct(c: seq<int>, o: Order): (r: seq<int>)
    ensures StrictlySorted(r, o)
    ensures forall e :: e in r <==> e in c
  {
    if c == [] then []
    else
      var r := Insert(SortDistinct(c[..|c| - 1], o), o, c[|c| - 1]);
      assert forall e :: e in c <==> e in c[..|c| - 1] || e == c[|c| - 1] by {
        assert c == c[..|c| - 1] + [c[|c| - 1]];
      }
      r
  }

  /** `new ArraySet<>(collection, comparator)`. */
  function FromCollectionWith(c: seq<int>, o: Order): (r: ArraySet)
    ensures r.Valid() && r.order == o
    ensures forall e :: e in r.elements <==> e in c
  {
    ArraySet(SortDistinct(c, o), o)
  }

  /** `new ArraySet<>(collection)`: no comparator, so natural order. */
  function FromCollection(c: seq<int>): (r: ArraySet)
    ensures r.Valid() && r.order == Natural
    ensures forall e :: e in r.elements <==> e in c
  {
    FromCollectionWith(c, Natural)
  }

  /** `new ArraySet<>()`. */
  function Empty(): (r: ArraySet)
    ensures r.Valid() && r.order == Natural && |r.elements| == 0
  {
    FromCollection([])
  }

  /** Two sorted duplicate-free lists with the same members are equal: the
      elements list of a set is determined by its members and comparator. */
  lemma {:induction false} SortedUnique(a: seq<int>, b: seq<int>, o: Order)
    requires StrictlySorted(a, o) && StrictlySorted(b, o)
    requires forall e :: e in a <==> e in b
    ensures a == b
  {
    if a != [] || b != [] {
      var x := if a != [] then a[0] else b[0];
      assert x in a || x in b;
      assert x in a && x in b;
      var a0, b0 := a[0], b[0];
      assert a0 in a && b0 in b;
      assert a0 in b && b0 in a;
      var i :| 0 <= i < |a| && a[i] == b0;
      var j :| 0 <= j < |b| && b[j] == a0;
      assert i == 0 || Less(o, a0, b0);
      assert j == 0 || Less(o, b0, a0);
      assert a0 == b0;
      forall e ensures e in a[1..] <==> e in b[1..] {
        if e in a[1..] {
          var k :| 0 <= k < |a[1..]| && a[1..][k] == e;
          assert Less(o, a[0], a[k + 1]) && a[k + 1] == e && e in a;
          var m :| 0 <= m < |b| && b[m] == e;
          assert m != 0;
          assert b[1..][m - 1] == e;
        }
        if e in b[1..] {
          var m :| 0 <= m < |b[1..]| && b[1..][m] == e;
          assert Less(o, b[0], b[m + 1]) && b[m + 1] == e && e in b;
          var k :| 0 <= k < |a| && a[k] == e;
          assert k != 0;
          assert a[1..][k - 1] == e;
        }
      }
      SortedUnique(a[1..], b[1..], o);
      assert a == [a[0]] + a[1..] && b == [b[0]] + b[1..];
    }
  }

  /** Rebuilding a set from a list that is already sorted under the same
      comparator gives back that list. */
  lemma FromSortedKeepsList(s: seq<int>, o: Order)
    requires StrictlySorted(s, o)
    ensures FromCollectionWith(s, o).elements == s
  {
    SortedUnique(FromCollectionWith(s, o).elements, s, o);
  }

  /** A duplicate-free list is as long as its set of members. */
  lemma {:induction false} DistinctLength(s: seq<int>, o: Order)
    requires StrictlySorted(s, o)
    ensures |s| == |set e | e in s|
  {
    if s != [] {
      var t := s[1..];
      DistinctLength(t, o);
      forall j | 0 <= j < |t| ensures t[j] != s[0] {
        assert Less(o, s[0], s[j + 1]);
      }
      assert s[0] !in t;
      assert (set e | e in s) == (set e | e in t) + {s[0]} by {
        assert s == [s[0]] + t;
      }
    }
  }

  /** `size()` of a set built from a collection is the number of distinct
      elements in that collection. */
  lemma SizeIsDistinctCount(c: seq<int>, o: Order)
    ensures Size(FromCollectionWith(c, o)) == |set e | e in c|
  {
    var r := FromCollectionWith(c, o);
    DistinctLength(r.elements, o);
    assert (set e | e in r.elements) == (set e | e in c);
  }

  // ---------------------------------------------------------------------
  // Lookup
  // ---------------------------------------------------------------------

  /** Collections.binarySearch on elements[low..high]: every element before
      `low` is below `x`, every element after `high` above it. */
  function Search(s: seq<int>, o: Order, x: int, low: int, high: int): (r: int)
    requires StrictlySorted(s, o)
    requires 0 <= low <= high + 1 <= |s|
    requires forall i :: 0 <= i < low ==> Less(o, s[i], x)
    requires forall i :: high < i < |s| ==> Less(o, x, s[i])
    ensures 0 <= r ==> r < |s| && s[r] == x
    ensures r < 0 ==> -r - 1 <= |s|
    ensures r < 0 ==> forall i :: 0 <= i < -r - 1 ==> Less(o, s[i], x)
    ensures r < 0 ==> forall i :: -r - 1 <= i < |s| ==> Less(o, x, s[i])
    decreases high - low
  {
    if low > high then -(low + 1)
    else
      var mid := (low + high) / 2;
      var cmp := Compare(o, s[mid], x);
      if cmp < 0 then Search(s, o, x, mid + 1, high)
      else if cmp > 0 then Search(s, o, x, low, mid - 1)
      else mid
  }

  /** Collections.binarySearch(elementsList, x, comparator): the index of `x`
      when present, otherwise -(insertion point) - 1. */
  function BinarySearch(s: ArraySet, x: int): (r: int)
    requires s.Valid()
    ensures 0 <= r ==> r < |s.elements| && s.elements[r] == x
    ensures r < 0 <==> x !in s.elements
    ensures r < 0 ==> -r - 1 <= |s.elements|
    ensures r < 0 ==> forall i :: 0 <= i < -r - 1 ==> Less(s.order, s.elements[i], x)
    ensures r < 0 ==> forall i :: -r - 1 <= i < |s.elements| ==> Less(s.order, x, s.elements[i])
  {
    var r := Search(s.elements, s.order, x, 0, |s.elements| - 1);
    assert r < 0 ==> forall i :: 0 <= i < |s.elements| ==> s.elements[i] != x;
    r
  }

  /** getElementIndex: the index of `x` when present, otherwise its
      insertion point. Either way it is the number of elements below `x`. */
  function GetElementIndex(s: ArraySet, x: int): (k: int)
    requires s.Valid()
    ensures 0 <= k <= |s.elements|
    ensures x in s.elements ==> k < |s.elements| && s.elements[k] == x
    ensures forall i :: 0 <= i < k ==> Less(s.order, s.elements[i], x)
    ensures forall i :: k <= i < |s.elements| ==> !Less(s.order, s.elements[i], x)
  {
    var index := BinarySearch(s, x);
    if index < 0 then -index - 1
    else
      assert forall i :: 0 <= i < index ==> Less(s.order, s.elements[i], x);
      index
  }

  /** contains: a successful binary search. */
  function Contains(s: ArraySet, x: int): (b: bool)
    requires s.Valid()
    ensures b <==> x in s.elements
  {
    BinarySearch(s, x) >= 0
  }

  /** size(): the number of distinct members. */
  function Size(s: ArraySet): (n: nat)
    requires s.Valid()
    ensures n == |set e | e in s.elements|
  {
    DistinctLength(s.elements, s.order);
    |s.elements|
  }

  // ---------------------------------------------------------------------
  // Views
  // ---------------------------------------------------------------------

  /** `new ArraySet<>(initialSet, fromIndex, toIndex)`: a subList view that
      shares the comparator. subList rejects a negative start or an end past
      the size with IndexOutOfBoundsException, and start > end with
      IllegalArgumentException. */
  function Slice(s: ArraySet, fromIndex: int, toIndex: int): (r: Result<ArraySet>)
    requires s.Valid()
    ensures r.Err? <==> fromIndex < 0 || toIndex > |s.elements| || fromIndex > toIndex
    ensures r.Err? ==> r.error == (if fromIndex < 0 || toIndex > |s.elements| then IndexOutOfBounds else IllegalArgument)
    ensures r.Ok? ==> r.value.Valid() && r.value.order == s.order
    ensures r.Ok? ==> |r.value.elements| == toIndex - fromIndex
    ensures r.Ok? ==> forall i :: 0 <= i < |r.value.elements| ==> r.value.elements[i] == s.elements[fromIndex + i]
  {
    if fromIndex < 0 || toIndex > |s.elements| then Err(IndexOutOfBounds)
    else if fromIndex > toIndex then Err(IllegalArgument)
    else Ok(ArraySet(s.elements[fromIndex..toIndex], s.order))
  }

  /** headSet(to): the elements strictly below `to`, a prefix. */
  function HeadSet(s: ArraySet, to: int): (r: ArraySet)
    requires s.Valid()
    ensures r.Valid() && r.order == s.order
    ensures r.elements <= s.elements
    ensures forall e :: e in r.elements <==> e in s.elements && Less(s.order, e, to)
  {
    var toIndex := GetElementIndex(s, to);
    var r := Slice(s, 0, toIndex).value;
    assert r.elements == s.elements[..toIndex];
    r
  }

  /** tailSet(from): the elements at or above `from`, a suffix. */
  function TailSet(s: ArraySet, from: int): (r: ArraySet)
    requires s.Valid()
    ensures r.Valid() && r.order == s.order
    ensures exists k :: 0 <= k <= |s.elements| && r.elements == s.elements[k..]
    ensures forall e :: e in r.elements <==> e in s.elements && !Less(s.order, e, from)
  {
    var fromIndex := GetElementIndex(s, from);
    var r := Slice(s, fromIndex, |s.elements|).value;
    assert r.elements == s.elements[fromIndex..];
    r
  }

  /** subSet(from, to): IllegalArgumentException when `from` is above `to`,
      otherwise the elements in [from, to). */
  function SubSet(s: ArraySet, from: int, to: int): (r: Result<ArraySet>)
    requires s.Valid()
    ensures r.Err? <==> Less(s.order, to, from)
    ensures r.Err? ==> r.error == IllegalArgument
    ensures r.Ok? ==> r.value.Valid() && r.value.order == s.order
    ensures r.Ok? ==> forall e :: e in r.value.elements <==>
      e in s.elements && !Less(s.order, e, from) && Less(s.order, e, to)
  {
    var toIndex := GetElementIndex(s, to);
    var fromIndex := GetElementIndex(s, from);
    if Compare(s.order, from, to) > 0 then Err(IllegalArgument)
    else
      assert fromIndex <= toIndex by {
        forall i | 0 <= i < fromIndex ensures Less(s.order, s.elements[i], to) {
          assert Less(s.order, s.elements[i], from);
        }
        assert toIndex < |s.elements| ==> !Less(s.order, s.elements[toIndex], to);
      }
      var r := Slice(s, fromIndex, toIndex).value;
      assert r.elements == s.elements[fromIndex..toIndex];
      Ok(r)
  }

  /** first(): the least element, or NoSuchElementException when empty. */
  function First(s: ArraySet): (r: Result<int>)
    requires s.Valid()
    ensures r.Err? <==> |s.elements| == 0
    ensures r.Err? ==> r.error == NoSuchElement
    ensures r.Ok? ==> r.value in s.elements
    ensures r.Ok? ==> forall e :: e in s.elements && e != r.value ==> Less(s.order, r.value, e)
  {
    if |s.elements| == 0 then Err(NoSuchElement) else Ok(s.elements[0])
  }

  /** last(): the greatest element, or NoSuchElementException when empty. */
  function Last(s: ArraySet): (r: Result<int>)
    requires s.Valid()
    ensures r.Err? <==> |s.elements| == 0
    ensures r.Err? ==> r.error == NoSuchElement
    ensures r.Ok? ==> r.value in s.elements
    ensures r.Ok? ==> forall e :: e in s.elements && e != r.value ==> Less(s.order, e, r.value)
  {
    if |s.elements| == 0 then Err(NoSuchElement) else Ok(s.elements[|s.elements| - 1])
  }
}
