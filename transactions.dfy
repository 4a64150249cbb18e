/** get_tiller_financial_data and get_fallback_financial_data: the recent rows of the
    Tiller sheet, newest first and at most fifty, or placeholder data on any failure. */
module Transactions {
  import opened Wrappers
  import opened Clock
  import opened TransactionRows
  import opened TransactionSort

  /** The cutoff: strictly after now minus seven days. */
  predicate InWindow(t: Transaction, now: int) {
    Timestamp(t) > now - 7 * DaySeconds
  }

  /** What each row came to, in row order. */
  function Parsed(rows: seq<seq<string>>): (r: seq<Option<Transaction>>)
    ensures |r| == |rows|
    ensures forall k :: 0 <= k < |rows| ==> r[k] == ParseRow(rows[k])
  {
    seq(|rows|, k requires 0 <= k < |rows| => ParseRow(rows[k]))
  }

  /** The parsed transactions inside the window, in order. */
  function Keep(parsed: seq<Option<Transaction>>, now: int): seq<Transaction> {
    if parsed == [] then []
    else
      var last := parsed[|parsed| - 1];
      Keep(parsed[..|parsed| - 1], now) + (if last.Some? && InWindow(last.value, now) then [last.value] else [])
  }

  /** The transactions the row loop appends, in row order. */
  function Kept(rows: seq<seq<string>>, now: int): seq<Transaction> {
    Keep(Parsed(rows), now)
  }

  /** The row loop of get_tiller_financial_data. */
  method CollectRecent(rows: seq<seq<string>>, now: int) returns (kept: seq<Transaction>)
    ensures kept == Kept(rows, now)
  {
    ghost var parsed := Parsed(rows);
    kept := [];
    var cutoff := now - 7 * DaySeconds;
    var i := 0;
    while i < |rows|
      invariant 0 <= i <= |rows|
      invariant kept == Keep(parsed[..i], now)
    {
      var r := ParseRow(rows[i]);
      KeepOneMore(parsed, i, now);
      if r.Some? && Timestamp(r.value) > cutoff {
        kept := kept + [r.value];
      }
      i := i + 1;
    }
    assert parsed[..i] == parsed;
  }

  /** One more entry of the loop: it is appended when it parsed and is in the window. */
  lemma {:induction false} KeepOneMore(parsed: seq<Option<Transaction>>, i: nat, now: int)
    requires i < |parsed|
    ensures Keep(parsed[..i + 1], now) == Keep(parsed[..i], now) +
      (if parsed[i].Some? && InWindow(parsed[i].value, now) then [parsed[i].value] else [])
  {
    assert parsed[..i + 1][..i] == parsed[..i];
  }

  /** A transaction is kept exactly when some entry parsed to it and it is in the window. */
  lemma {:induction false} KeepMembers(parsed: seq<Option<Transaction>>, now: int)
    ensures forall t :: t in Keep(parsed, now) <==>
      (exists k :: 0 <= k < |parsed| && parsed[k] == Some(t)) && InWindow(t, now)
    ensures |Keep(parsed, now)| <= |parsed|
  {
    if parsed != [] {
      var n := |parsed| - 1;
      var front := parsed[..n];
      KeepMembers(front, now);
      forall t
        ensures t in Keep(parsed, now) <==>
          (exists k :: 0 <= k < |parsed| && parsed[k] == Some(t)) && InWindow(t, now)
      {
        if exists k :: 0 <= k < |parsed| && parsed[k] == Some(t) {
          var k :| 0 <= k < |parsed| && parsed[k] == Some(t);
          if k < n {
            assert front[k] == parsed[k];
          }
        }
        if exists k :: 0 <= k < n && front[k] == Some(t) {
          var k :| 0 <= k < n && front[k] == Some(t);
          assert parsed[k] == front[k];
        }
      }
    }
  }

  /** A transaction is kept exactly when some row parses to it and it is in the window;
      rows that are short or do not parse contribute nothing. */
  lemma {:induction false} KeptMembers(rows: seq<seq<string>>, now: int)
    ensures forall t :: t in Kept(rows, now) <==>
      (exists k :: 0 <= k < |rows| && ParseRow(rows[k]) == Some(t)) && InWindow(t, now)
    ensures |Kept(rows, now)| <= |rows|
  {
    var parsed := Parsed(rows);
    KeepMembers(parsed, now);
    forall t
      ensures (exists k :: 0 <= k < |rows| && ParseRow(rows[k]) == Some(t)) <==>
        (exists k :: 0 <= k < |parsed| && parsed[k] == Some(t))
    {
      if exists k :: 0 <= k < |parsed| && parsed[k] == Some(t) {
        var k :| 0 <= k < |parsed| && parsed[k] == Some(t);
        assert ParseRow(rows[k]) == Some(t);
      }
    }
  }

  const MaxTransactions := 50

  /** The first fifty: `transactions[:50]`. */
  function Newest(s: seq<Transaction>): (r: seq<Transaction>)
    ensures |r| <= MaxTransactions && r <= s
    ensures |s| <= MaxTransactions ==> r == s
    ensures |s| > MaxTransactions ==> |r| == MaxTransactions
  {
    if |s| <= MaxTransactions then s else s[..MaxTransactions]
  }

  /** Cutting a newest-first list to fifty keeps the newest: what is left out, together
      with what is kept, is the whole list, and none of it is newer than a kept entry. */
  lemma {:induction false} NewestCut(s: seq<Transaction>)
    requires NewestFirst(s)
    ensures var r := Newest(s);
      var rest := s[|r|..];
      && multiset(r) + multiset(rest) == multiset(s)
      && forall i, j :: 0 <= i < |r| && 0 <= j < |rest| ==> rest[j].day <= r[i].day
  {
    var r := Newest(s);
    var rest := s[|r|..];
    assert s == r + rest;
    forall i, j | 0 <= i < |r| && 0 <= j < |rest|
      ensures rest[j].day <= r[i].day
    {
      assert AtLeastAsNew(s, i, |r| + j);
    }
  }

  /** What the token helper and the Sheets request came to. */
  datatype SheetFetch =
    | NoToken                                          // the token helper printed nothing
    | Replied(status: int, rows: seq<seq<string>>)     // the HTTP status and the 'values' rows
    | Raised                                           // the helper, request or JSON raised

  /** The result: the live transactions, or the placeholder data, of which the model
      keeps the timestamps (charge i is stamped 2i hours and revenue entry i 3i hours
      before now). */
  datatype Financial =
    | Live(transactions: seq<Transaction>)
    | Sample(chargeTimes: seq<int>, revenueTimes: seq<int>)
  {
    /** The placeholder's transaction list is its charges followed by its revenue. */
    function SampleTimes(): (r: seq<int>)
      requires Sample?
      ensures |r| == |chargeTimes| + |revenueTimes|
      ensures r[..|chargeTimes|] == chargeTimes && r[|chargeTimes|..] == revenueTimes
    {
      chargeTimes + revenueTimes
    }
  }

  const SampleCharges := 6
  const SampleRevenue := 4

  /** get_fallback_financial_data, timestamps only. */
  function FallbackData(now: int): (f: Financial)
    ensures f.Sample? && |f.chargeTimes| == SampleCharges && |f.revenueTimes| == SampleRevenue
    ensures forall i :: 0 <= i < SampleCharges ==> f.chargeTimes[i] == now - 2 * i * HourSeconds
    ensures forall i :: 0 <= i < SampleRevenue ==> f.revenueTimes[i] == now - 3 * i * HourSeconds
  {
    Sample(seq(SampleCharges, i => now - 2 * i * HourSeconds), seq(SampleRevenue, i => now - 3 * i * HourSeconds))
  }

  /** get_tiller_financial_data: on a 200 reply the kept rows are sorted newest first in
      place and cut to fifty; every failure gives the placeholder data. */
  method TillerFinancialData(fetch: SheetFetch, now: int) returns (f: Financial)
    ensures fetch.Replied? && fetch.status == 200 ==> f == Live(Newest(SortNewest(Kept(fetch.rows, now))))
    ensures !(fetch.Replied? && fetch.status == 200) ==> f == FallbackData(now)
  {
    if !(fetch.Replied? && fetch.status == 200) {
      return FallbackData(now);
    }
    var kept := CollectRecent(fetch.rows, now);
    var a := new Transaction[|kept|](i requires 0 <= i < |kept| => kept[i]);
    assert a[..] == kept;
    SortInPlace(a);
    var n := if a.Length <= MaxTransactions then a.Length else MaxTransactions;
    f := Live(a[..n]);
  }

  /** What a live result promises: at most fifty transactions, newest first, each one
      parsed from a row and dated strictly after now minus seven days; the transactions
      of one day keep their row order; and when no more than fifty are kept, none is lost. */
  lemma {:induction false} LiveResult(rows: seq<seq<string>>, now: int)
    ensures var kept := Kept(rows, now);
      var r := Newest(SortNewest(kept));
      && |r| <= MaxTransactions
      && NewestFirst(r)
      && (forall t :: t in r ==> InWindow(t, now) && exists k :: 0 <= k < |rows| && ParseRow(rows[k]) == Some(t))
      && (forall day :: OnDay(SortNewest(kept), day) == OnDay(kept, day))
      && (|kept| <= MaxTransactions ==> multiset(r) == multiset(kept))
      && |r| == (if |kept| <= MaxTransactions then |kept| else MaxTransactions)
      && var rest := SortNewest(kept)[|r|..];
        && multiset(r) + multiset(rest) == multiset(kept)
        && forall i, j :: 0 <= i < |r| && 0 <= j < |rest| ==> rest[j].day <= r[i].day
  {
    var kept := Kept(rows, now);
    var sorted := SortNewest(kept);
    SortNewestSortedPermutation(kept);
    KeptMembers(rows, now);
    forall day
      ensures OnDay(sorted, day) == OnDay(kept, day)
    {
      SortNewestStable(kept, day);
    }
    NewestCut(sorted);
    var r := Newest(sorted);
    forall i, j | 0 <= i < j < |r|
      ensures AtLeastAsNew(r, i, j)
    {
      assert AtLeastAsNew(sorted, i, j);
    }
    forall t | t in r
      ensures t in kept
    {
      assert t in multiset(sorted);
    }
  }

  /** The placeholder list is not newest first: the last charge (ten hours old) comes
      before the first revenue entry (stamped now). */
  lemma {:induction false} SampleNotNewestFirst(now: int)
    ensures var times := FallbackData(now).SampleTimes();
      |times| == 10 && times[5] == now - 10 * HourSeconds && times[6] == now && times[5] < times[6]
  {
    var f := FallbackData(now);
    assert f.SampleTimes()[5] == f.chargeTimes[5];
    assert f.SampleTimes()[6] == f.revenueTimes[0];
  }
}
