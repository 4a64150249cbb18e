/** `transactions.sort(key=lambda x: x['timestamp'], reverse=True)`: Python's sort is
    stable, also with reverse=True, so transactions of the same day keep their order.
    The key is the isoformat() text of midnight of the transaction's date, whose order
    is the order of day numbers (Clock.DayNumberOrder). */
module TransactionSort {
  import opened TransactionRows

  /** Entry i is at least as new as entry j. */
  predicate AtLeastAsNew(s: seq<Transaction>, i: int, j: int)
    requires 0 <= i < |s| && 0 <= j < |s|
  {
    s[i].day >= s[j].day
  }

  /** Non-increasing by day: newest first. */
  predicate NewestFirst(s: seq<Transaction>) {
    forall i, j :: 0 <= i < j < |s| ==> AtLeastAsNew(s, i, j)
  }

  /** x placed after every element at least as new as it. */
  function InsertByDay(x: Transaction, s: seq<Transaction>): (r: seq<Transaction>)
    ensures |r| == |s| + 1
  {
    if s == [] then [x]
    else if s[0].day >= x.day then [s[0]] + InsertByDay(x, s[1..])
    else [x] + s
  }

  /** The stable sort, newest first, as an insertion sort. */
  function SortNewest(s: seq<Transaction>): (r: seq<Transaction>)
    ensures |r| == |s|
  {
    if s == [] then [] else InsertByDay(s[|s| - 1], SortNewest(s[..|s| - 1]))
  }

  /** Where x goes: after the elements at least as new, before the older ones. */
  lemma {:induction false} InsertAt(x: Transaction, s: seq<Transaction>, j: nat)
    requires j <= |s|
    requires forall k :: 0 <= k < j ==> s[k].day >= x.day
    requires forall k :: j <= k < |s| ==> s[k].day < x.day
    ensures InsertByDay(x, s) == s[..j] + [x] + s[j..]
  {
    if s != [] {
      if j > 0 {
        InsertAt(x, s[1..], j - 1);
        assert s[1..][..j - 1] == s[1..j];
        assert s[1..][j - 1..] == s[j..];
        assert s[..j] == [s[0]] + s[1..j];
      } else {
        assert s[..0] == [];
      }
    }
  }

  /** In a list that is newest first, the elements at least as new as x form a prefix. */
  lemma {:induction false} SplitPoint(x: Transaction, s: seq<Transaction>) returns (j: nat)
    requires NewestFirst(s)
    ensures j <= |s|
    ensures forall k :: 0 <= k < j ==> s[k].day >= x.day
    ensures forall k :: j <= k < |s| ==> s[k].day < x.day
  {
    j := 0;
    while j < |s| && s[j].day >= x.day
      invariant 0 <= j <= |s|
      invariant forall k :: 0 <= k < j ==> s[k].day >= x.day
    {
      j := j + 1;
    }
    forall k | j <= k < |s|
      ensures s[k].day < x.day
    {
      assert k == j || AtLeastAsNew(s, j, k);
    }
  }

  /** x between the elements at least as new and the older ones keeps the order. */
  lemma {:induction false} SplitNewestFirst(x: Transaction, s: seq<Transaction>, j: nat)
    requires NewestFirst(s) && j <= |s|
    requires forall k :: 0 <= k < j ==> s[k].day >= x.day
    requires forall k :: j <= k < |s| ==> s[k].day < x.day
    ensures NewestFirst(s[..j] + [x] + s[j..])
  {
    var r := s[..j] + [x] + s[j..];
    assert forall k :: 0 <= k < j ==> r[k] == s[k];
    assert r[j] == x;
    assert forall k :: j < k < |r| ==> r[k] == s[k - 1];
    forall p, q | 0 <= p < q < |r|
      ensures AtLeastAsNew(r, p, q)
    {
      var dp := if p < j then s[p].day else if p == j then x.day else s[p - 1].day;
      var dq := if q < j then s[q].day else if q == j then x.day else s[q - 1].day;
      assert r[p].day == dp && r[q].day == dq;
      if p < j && q < j {
        assert AtLeastAsNew(s, p, q);
      } else if j < p {
        assert AtLeastAsNew(s, p - 1, q - 1);
      }
    }
  }

  lemma {:induction false} InsertKeepsOrder(x: Transaction, s: seq<Transaction>)
    requires NewestFirst(s)
    ensures NewestFirst(InsertByDay(x, s))
    ensures multiset(InsertByDay(x, s)) == multiset(s) + multiset{x}
  {
    var j := SplitPoint(x, s);
    InsertAt(x, s, j);
    SplitNewestFirst(x, s, j);
    var front, back := s[..j], s[j..];
    assert s == front + back;
    assert multiset(front + [x] + back) == multiset(front) + multiset{x} + multiset(back);
    assert multiset(s) == multiset(front) + multiset(back);
  }

  /** The sort yields its input reordered newest first. */
  lemma {:induction false} SortNewestSortedPermutation(s: seq<Transaction>)
    ensures NewestFirst(SortNewest(s))
    ensures multiset(SortNewest(s)) == multiset(s)
  {
    if s != [] {
      var n := |s| - 1;
      SortNewestSortedPermutation(s[..n]);
      InsertKeepsOrder(s[n], SortNewest(s[..n]));
      assert s == s[..n] + [s[n]];
    }
  }

  /** The transactions of one day, in order. */
  function OnDay(s: seq<Transaction>, day: int): seq<Transaction> {
    if s == [] then []
    else OnDay(s[..|s| - 1], day) + OfDay(s[|s| - 1], day)
  }

  lemma {:induction false} OnDayAppend(a: seq<Transaction>, b: seq<Transaction>, day: int)
    ensures OnDay(a + b, day) == OnDay(a, day) + OnDay(b, day)
  {
    if b == [] {
      assert a + b == a;
    } else {
      assert (a + b)[..|a + b| - 1] == a + b[..|b| - 1];
      OnDayAppend(a, b[..|b| - 1], day);
    }
  }

  /** A run of strictly older elements has nothing of the newer day. */
  lemma {:induction false} OnDayOlder(s: seq<Transaction>, day: int)
    requires forall k :: 0 <= k < |s| ==> s[k].day < day
    ensures OnDay(s, day) == []
  {
    if s != [] {
      OnDayOlder(s[..|s| - 1], day);
    }
  }

  function OfDay(x: Transaction, day: int): seq<Transaction> {
    if x.day == day then [x] else []
  }

  lemma {:induction false} OnDaySingle(x: Transaction, day: int)
    ensures OnDay([x], day) == OfDay(x, day)
  {
    assert [x][..0] == [];
  }

  /** x placed in front of strictly older elements ends up after the rest of its day. */
  lemma {:induction false} OnDaySplit(front: seq<Transaction>, x: Transaction, back: seq<Transaction>, day: int)
    requires forall k :: 0 <= k < |back| ==> back[k].day < x.day
    ensures OnDay(front + [x] + back, day) == OnDay(front + back, day) + OfDay(x, day)
  {
    var f, b, o := OnDay(front, day), OnDay(back, day), OfDay(x, day);
    assert OnDay(front + [x] + back, day) == f + o + b by {
      OnDayAppend(front + [x], back, day);
      OnDayAppend(front, [x], day);
      OnDaySingle(x, day);
    }
    assert OnDay(front + back, day) == f + b by {
      OnDayAppend(front, back, day);
    }
    if x.day == day {
      assert b == [] by {
        OnDayOlder(back, day);
      }
      assert f + o + b == f + o;
      assert f + b + o == f + o;
    } else {
      assert f + o + b == f + b;
    }
  }

  /** Inserting x puts it after every element of its own day. */
  lemma {:induction false} InsertOnDay(x: Transaction, s: seq<Transaction>, day: int)
    requires NewestFirst(s)
    ensures OnDay(InsertByDay(x, s), day) == OnDay(s, day) + OfDay(x, day)
  {
    var j := SplitPoint(x, s);
    InsertAt(x, s, j);
    OnDaySplit(s[..j], x, s[j..], day);
    assert s[..j] + s[j..] == s;
  }

  /** The sort is stable: the transactions of each day keep their input order. */
  lemma {:induction false} SortNewestStable(s: seq<Transaction>, day: int)
    ensures OnDay(SortNewest(s), day) == OnDay(s, day)
  {
    if s != [] {
      var n := |s| - 1;
      SortNewestStable(s[..n], day);
      SortNewestSortedPermutation(s[..n]);
      InsertOnDay(s[n], SortNewest(s[..n]), day);
    }
  }

  /** One insertion step: a[i] moves down past the older elements of the sorted prefix. */
  method InsertLast(a: array<Transaction>, i: nat)
    requires i < a.Length
    requires NewestFirst(a[..i])
    modifies a
    ensures a[..i + 1] == InsertByDay(old(a[i]), old(a[..i]))
    ensures a[i + 1..] == old(a[i + 1..])
  {
    ghost var sorted := a[..i];
    var x := a[i];
    var j := i;
    while j > 0 && a[j - 1].day < x.day
      invariant 0 <= j <= i
      invariant forall k :: 0 <= k < j ==> a[k] == sorted[k]
      invariant forall k :: j < k <= i ==> a[k] == sorted[k - 1]
      invariant forall k :: i < k < a.Length ==> a[k] == old(a[k])
      invariant forall k :: j <= k < i ==> sorted[k].day < x.day
    {
      a[j] := a[j - 1];
      j := j - 1;
    }
    a[j] := x;
    if j > 0 {
      assert sorted[j - 1].day >= x.day;
    }
    ShiftedIsInsert(x, sorted, j, a[..i + 1]);
    assert a[i + 1..] == old(a[i + 1..]);
  }

  /** The array after the shifting loop: the prefix up to j, then x, then the rest moved one up. */
  lemma {:induction false} ShiftedIsInsert(x: Transaction, sorted: seq<Transaction>, j: nat, b: seq<Transaction>)
    requires NewestFirst(sorted)
    requires j <= |sorted| && |b| == |sorted| + 1
    requires forall k :: 0 <= k < j ==> b[k] == sorted[k]
    requires b[j] == x
    requires forall k :: j < k < |b| ==> b[k] == sorted[k - 1]
    requires forall k :: j <= k < |sorted| ==> sorted[k].day < x.day
    requires j > 0 ==> sorted[j - 1].day >= x.day
    ensures b == InsertByDay(x, sorted)
  {
    forall k | 0 <= k < j
      ensures sorted[k].day >= x.day
    {
      assert k == j - 1 || AtLeastAsNew(sorted, k, j - 1);
    }
    InsertAt(x, sorted, j);
    var r := sorted[..j] + [x] + sorted[j..];
    forall k | 0 <= k < |b|
      ensures b[k] == r[k]
    {
      if k < j {
        assert r[k] == sorted[k];
      } else if k > j {
        assert r[k] == sorted[k - 1];
      }
    }
  }

  /** The in-place sort: insertion sort on the array, specified by SortNewest. */
  method SortInPlace(a: array<Transaction>)
    modifies a
    ensures a[..] == SortNewest(old(a[..]))
  {
    ghost var input := a[..];
    var i := 0;
    while i < a.Length
      invariant 0 <= i <= a.Length
      invariant a[..i] == SortNewest(input[..i])
      invariant a[i..] == input[i..]
    {
      SortNewestSortedPermutation(input[..i]);
      InsertLast(a, i);
      assert input[..i + 1][..i] == input[..i];
      assert input[i] == input[..i + 1][i];
      assert a[i + 1..] == input[i + 1..] by {
        assert input[i..][1..] == input[i + 1..];
      }
      i := i + 1;
    }
    assert input[..i] == input;
    assert a[..] == a[..i];
  }
}
