/** A list of integers kept in ascending order with binary search
    (`SortedCollection` with the identity key). Duplicates are allowed. */
module SortedCollections {
  import opened Outcomes

  ghost predicate Sorted(s: seq<int>) {
    forall i, j :: 0 <= i < j < |s| ==> s[i] <= s[j]
  }

  /** The binary search of `bisect_left`, confined to `s[lo..hi]`. */
  function BisectLeftIn(s: seq<int>, x: int, lo: nat, hi: nat): (i: nat)
    requires lo <= hi <= |s| && Sorted(s)
    ensures lo <= i <= hi
    ensures forall j :: lo <= j < i ==> s[j] < x
    ensures forall j :: i <= j < hi ==> x <= s[j]
    decreases hi - lo
  {
    if lo < hi then
      var mid := (lo + hi) / 2;
      if s[mid] < x then BisectLeftIn(s, x, mid + 1, hi) else BisectLeftIn(s, x, lo, mid)
    else
      lo
  }

  /** The binary search of `bisect_right`, confined to `s[lo..hi]`. */
  function BisectRightIn(s: seq<int>, x: int, lo: nat, hi: nat): (i: nat)
    requires lo <= hi <= |s| && Sorted(s)
    ensures lo <= i <= hi
    ensures forall j :: lo <= j < i ==> s[j] <= x
    ensures forall j :: i <= j < hi ==> x < s[j]
    decreases hi - lo
  {
    if lo < hi then
      var mid := (lo + hi) / 2;
      if x < s[mid] then BisectRightIn(s, x, lo, mid) else BisectRightIn(s, x, mid + 1, hi)
    else
      lo
  }

  /** `bisect_left(s, x)`: the first slot where `x` can go with everything before it smaller. */
  function BisectLeft(s: seq<int>, x: int): (i: nat)
    requires Sorted(s)
    ensures i <= |s|
    ensures forall j :: 0 <= j < i ==> s[j] < x
    ensures forall j :: i <= j < |s| ==> x <= s[j]
  {
    BisectLeftIn(s, x, 0, |s|)
  }

  /** `bisect_right(s, x)`: the last slot where `x` can go with everything after it larger. */
  function BisectRight(s: seq<int>, x: int): (i: nat)
    requires Sorted(s)
    ensures i <= |s|
    ensures forall j :: 0 <= j < i ==> s[j] <= x
    ensures forall j :: i <= j < |s| ==> x < s[j]
  {
    BisectRightIn(s, x, 0, |s|)
  }

  /** The run of entries equal to `x`, delimited by the two bisections. */
  function EqualRange(s: seq<int>, x: int): (r: (nat, nat))
    requires Sorted(s)
    ensures r.0 <= r.1 <= |s|
    ensures forall j :: r.0 <= j < r.1 ==> s[j] == x
    ensures forall j :: 0 <= j < |s| && (j < r.0 || r.1 <= j) ==> s[j] != x
  {
    var i := BisectLeft(s, x);
    var j := BisectRight(s, x);
    assert j < |s| ==> x < s[j];
    assert i <= j;
    (i, j)
  }

  /** Python's `list.index`, with `None` where it raises `ValueError`. */
  function FirstIndexOf(s: seq<int>, x: int): (r: Option<nat>)
    ensures r.Some? <==> x in s
    ensures r.Some? ==> r.value < |s| && s[r.value] == x && forall k :: 0 <= k < r.value ==> s[k] != x
  {
    if s == [] then None
    else if s[0] == x then Some(0)
    else match FirstIndexOf(s[1..], x)
      case Some(k) => Some(k + 1)
      case None => None
  }

  /** Removing the head takes one copy of it out of the multiset. */
  lemma MultisetTail(s: seq<int>)
    requires s != []
    ensures multiset(s[1..]) == multiset(s) - multiset{s[0]}
  {
    assert s == [s[0]] + s[1..];
  }

  /** The head of a sorted list is its least entry. */
  lemma SortedHeadLeast(s: seq<int>, x: int)
    requires Sorted(s) && x in multiset(s)
    ensures s != [] && s[0] <= x
  {
    var i :| 0 <= i < |s| && s[i] == x;
  }

  /** A sorted list is determined by the multiset of its entries. */
  lemma {:induction false} SortedUnique(a: seq<int>, b: seq<int>)
    requires Sorted(a) && Sorted(b) && multiset(a) == multiset(b)
    ensures a == b
  {
    if a == [] {
      assert |multiset(b)| == 0;
    } else {
      assert a[0] in multiset(b);
      SortedHeadLeast(b, a[0]);
      assert b[0] in multiset(a);
      SortedHeadLeast(a, b[0]);
      MultisetTail(a);
      MultisetTail(b);
      SortedTail(a);
      SortedTail(b);
      SortedUnique(a[1..], b[1..]);
      HeadTail(a, b);
    }
  }

  lemma SortedTail(s: seq<int>)
    requires Sorted(s) && s != []
    ensures Sorted(s[1..])
  {
  }

  lemma HeadTail(a: seq<int>, b: seq<int>)
    requires a != [] && b != [] && a[0] == b[0] && a[1..] == b[1..]
    ensures a == b
  {
    assert a == [a[0]] + a[1..] && b == [b[0]] + b[1..];
  }

  /** Splicing `x` in at a slot with smaller-or-equal entries before it and
      larger-or-equal ones after keeps the list sorted and adds one copy of `x`. */
  lemma SortedSplice(s: seq<int>, i: nat, x: int)
    requires Sorted(s) && i <= |s|
    requires forall j :: 0 <= j < i ==> s[j] <= x
    requires forall j :: i <= j < |s| ==> x <= s[j]
    ensures Sorted(s[..i] + [x] + s[i..])
    ensures multiset(s[..i] + [x] + s[i..]) == multiset(s) + multiset{x}
  {
    var r := s[..i] + [x] + s[i..];
    SpliceAt(s, i, x);
    forall a, b | 0 <= a < b < |r| ensures r[a] <= r[b] {
      if b < i {
      } else if a < i {
        assert r[a] <= x;
      } else if a == i {
        assert x <= r[b];
      }
    }
    assert s == s[..i] + s[i..];
  }

  /** Under the identity key, `insert` and `insert_right` build the same
      list: the two slots differ only across a run of entries equal to `x`. */
  lemma InsertSidesAgree(s: seq<int>, x: int)
    requires Sorted(s)
    ensures var i, j := BisectLeft(s, x), BisectRight(s, x);
      s[..i] + [x] + s[i..] == s[..j] + [x] + s[j..]
  {
    var i, j := BisectLeft(s, x), BisectRight(s, x);
    SortedSplice(s, i, x);
    SortedSplice(s, j, x);
    SortedUnique(s[..i] + [x] + s[i..], s[..j] + [x] + s[j..]);
  }

  lemma SpliceAt(s: seq<int>, i: nat, x: int)
    requires i <= |s|
    ensures |s[..i] + [x] + s[i..]| == |s| + 1
    ensures forall k :: 0 <= k < i ==> (s[..i] + [x] + s[i..])[k] == s[k]
    ensures (s[..i] + [x] + s[i..])[i] == x
    ensures forall k :: i < k <= |s| ==> (s[..i] + [x] + s[i..])[k] == s[k - 1]
  {
  }

  /** Deleting slot `i` keeps the list sorted and takes one copy of `s[i]` away. */
  lemma SortedDelete(s: seq<int>, i: nat)
    requires Sorted(s) && i < |s|
    ensures Sorted(s[..i] + s[i + 1..])
    ensures multiset(s[..i] + s[i + 1..]) == multiset(s) - multiset{s[i]}
  {
    var r := s[..i] + s[i + 1..];
    forall k | 0 <= k < |r| ensures r[k] == if k < i then s[k] else s[k + 1] {
    }
    assert s == s[..i] + [s[i]] + s[i + 1..];
  }

  class SortedCollection {
    /** `_items`; under the identity key `_keys` holds the same list. */
    var items: seq<int>

    ghost predicate Valid()
      reads this
    {
      Sorted(items)
    }

    /** `SortedCollection()`: an empty collection. */
    constructor ()
      ensures Valid() && items == []
    {
      items := [];
    }

    /** `__len__`: the number of stored entries, duplicates included. */
    function Len(): (n: nat)
      reads this
      ensures n == |multiset(items)|
    {
      |items|
    }

    /** `__contains__`: membership, found inside the bisected run. */
    function Contains(item: int): (b: bool)
      reads this
      requires Valid()
      ensures b <==> item in items
    {
      var (i, j) := EqualRange(items, item);
      assert item in items ==> item in items[i..j] by {
        if item in items {
          var k :| 0 <= k < |items| && items[k] == item;
          assert i <= k < j;
          assert items[i..j][k - i] == item;
        }
      }
      item in items[i..j]
    }

    /** `index`: the position of the first entry equal to `item`. */
    function Index(item: int): (r: Result<nat>)
      reads this
      requires Valid()
      ensures r.Success? <==> item in items
      ensures r.Success? ==> r.value < |items| && items[r.value] == item
      ensures r.Success? ==> forall k :: 0 <= k < r.value ==> items[k] != item
      ensures r.Failure? ==> r.error == ValueError
    {
      var (i, j) := EqualRange(items, item);
      match FirstIndexOf(items[i..j], item)
      case Some(k) => Success(k + i)
      case None =>
        assert forall k :: i <= k < j ==> items[k] == items[i..j][k - i];
        Failure(ValueError)
    }

    /** `count`: how many entries equal `item`. */
    function Count(item: int): (n: nat)
      reads this
      requires Valid()
      ensures n == multiset(items)[item]
    {
      var (i, j) := EqualRange(items, item);
      assert items == items[..i] + items[i..j] + items[j..];
      assert item !in items[..i] && item !in items[j..];
      multiset(items[i..j])[item]
    }

    /** `find`: the first entry equal to `k`. */
    function Find(k: int): (r: Result<int>)
      reads this
      requires Valid()
      ensures r.Success? <==> k in items
      ensures r.Success? ==> r.value == k
      ensures r.Failure? ==> r.error == ValueError
    {
      var i := BisectLeft(items, k);
      if i != |items| && items[i] == k then Success(items[i]) else Failure(ValueError)
    }

    /** `find_le`: the largest entry at or below `k`. */
    function FindLe(k: int): (r: Result<int>)
      reads this
      requires Valid()
      ensures r.Success? <==> exists x :: x in items && x <= k
      ensures r.Success? ==> r.value in items && r.value <= k
      ensures r.Success? ==> forall x :: x in items && x <= k ==> x <= r.value
      ensures r.Failure? ==> r.error == ValueError
    {
      var i := BisectRight(items, k);
      if i != 0 then assert items[i - 1] in items; Success(items[i - 1]) else Failure(ValueError)
    }

    /** `find_lt`: the largest entry strictly below `k`. */
    function FindLt(k: int): (r: Result<int>)
      reads this
      requires Valid()
      ensures r.Success? <==> exists x :: x in items && x < k
      ensures r.Success? ==> r.value in items && r.value < k
      ensures r.Success? ==> forall x :: x in items && x < k ==> x <= r.value
      ensures r.Failure? ==> r.error == ValueError
    {
      var i := BisectLeft(items, k);
      if i != 0 then assert items[i - 1] in items; Success(items[i - 1]) else Failure(ValueError)
    }

    /** `find_ge`: the smallest entry at or above `k`. */
    function FindGe(k: int): (r: Result<int>)
      reads this
      requires Valid()
      ensures r.Success? <==> exists x :: x in items && k <= x
      ensures r.Success? ==> r.value in items && k <= r.value
      ensures r.Success? ==> forall x :: x in items && k <= x ==> r.value <= x
      ensures r.Failure? ==> r.error == ValueError
    {
      var i := BisectLeft(items, k);
      if i != |items| then assert items[i] in items; Success(items[i]) else Failure(ValueError)
    }

    /** `find_gt`: the smallest entry strictly above `k`. */
    function FindGt(k: int): (r: Result<int>)
      reads this
      requires Valid()
      ensures r.Success? <==> exists x :: x in items && k < x
      ensures r.Success? ==> r.value in items && k < r.value
      ensures r.Success? ==> forall x :: x in items && k < x ==> r.value <= x
      ensures r.Failure? ==> r.error == ValueError
    {
      var i := BisectRight(items, k);
      if i != |items| then assert items[i] in items; Success(items[i]) else Failure(ValueError)
    }

    /** `insert`: adds one copy of `item`, to the left of equal entries. */
    method Insert(item: int)
      requires Valid()
      modifies this
      ensures Valid()
      ensures |items| == old(|items|) + 1
      ensures multiset(items) == old(multiset(items)) + multiset{item}
    {
      var i := BisectLeft(items, item);
      SortedSplice(items, i, item);
      items := items[..i] + [item] + items[i..];
    }

    /** `insert_right`: adds one copy of `item`, to the right of equal entries. */
    method InsertRight(item: int)
      requires Valid()
      modifies this
      ensures Valid()
      ensures |items| == old(|items|) + 1
      ensures multiset(items) == old(multiset(items)) + multiset{item}
    {
      var i := BisectRight(items, item);
      SortedSplice(items, i, item);
      items := items[..i] + [item] + items[i..];
    }

    /** `remove`: deletes one copy of `item`; `ValueError`, and no change, when absent. */
    method Remove(item: int) returns (r: Outcome)
      requires Valid()
      modifies this
      ensures Valid()
      ensures r.Pass? <==> item in old(items)
      ensures r.Pass? ==> |items| + 1 == old(|items|)
      ensures r.Pass? ==> multiset(items) == old(multiset(items)) - multiset{item}
      ensures r.Fail? ==> r.error == ValueError && items == old(items)
    {
      match Index(item)
      case Failure(e) =>
        r := Fail(e);
      case Success(i) =>
        SortedDelete(items, i);
        items := items[..i] + items[i + 1..];
        r := Pass;
    }
  }
}
