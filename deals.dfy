/** get_airtable_deal_revenue: the "In Contract" offers returned by Airtable are folded
    into a total, a count, and the revenue of deals contracted in the last 24 hours. */
module Deals {
  import opened Wrappers
  import opened Clock

  /** A parsed 'In Contract' value: the instant it names on the local timeline, and
      whether its text carried a UTC offset (the code turns a trailing Z into +00:00),
      which makes the parsed datetime offset-aware. */
  datatype ContractDate = ContractDate(instant: int, hasOffset: bool)

  /** One offer record: its Revenue (0 when the field is absent) and its 'In Contract'
      date, None when the field is absent, empty or not in ISO form. */
  datatype Deal = Deal(revenue: int, contractDate: Option<ContractDate>)

  datatype Summary = Summary(totalRevenue: int, dealCount: nat, last24h: int)

  /** What the Airtable request came to. */
  datatype DealFetch =
    | NoToken                                   // the credential set has no airtable_token
    | Replied(status: int, records: seq<Deal>)  // the HTTP status and the records of the body
    | Raised                                    // reading credentials, the request or the JSON raised

  /** The result when there is no token. */
  const NoData := Summary(0, 0, 0)
  /** The fixed result after an HTTP error or an exception. */
  const Fallback := Summary(162000, 18, 0)

  /** The sum of the truthy (non-zero) revenues. */
  function Total(deals: seq<Deal>): int {
    if deals == [] then 0
    else
      var d := deals[|deals| - 1];
      Total(deals[..|deals| - 1]) + (if d.revenue != 0 then d.revenue else 0)
  }

  /** The deal's contract date parses and lies strictly after now minus 24 hours. */
  predicate Recent(d: Deal, now: int) {
    d.contractDate.Some? && d.contractDate.value.instant > now - 24 * HourSeconds
  }

  /** The deals that count for last_24h, in their original order. */
  function RecentDeals(deals: seq<Deal>, now: int): seq<Deal> {
    if deals == [] then []
    else
      var d := deals[|deals| - 1];
      RecentDeals(deals[..|deals| - 1], now) + (if Recent(d, now) then [d] else [])
  }

  /** last_24h as intended: the revenue of every deal whose date parses and is recent. */
  function RecentRevenue(deals: seq<Deal>, now: int): int {
    if deals == [] then 0
    else
      var d := deals[|deals| - 1];
      RecentRevenue(deals[..|deals| - 1], now) + (if Recent(d, now) then d.revenue else 0)
  }

  /** As written, `contract_date > cutoff_time` compares an offset-aware datetime with
      the naive cutoff when the date carries an offset; Python raises TypeError, the
      bare except swallows it, and the deal is left out of last_24h. */
  predicate CountedAsWritten(d: Deal, now: int) {
    Recent(d, now) && !d.contractDate.value.hasOffset
  }

  /** last_24h as the code computes it; with no negative revenue it lies between 0 and
      the total. */
  function RecentRevenueAsWritten(deals: seq<Deal>, now: int): (r: int)
    ensures (forall i :: 0 <= i < |deals| ==> deals[i].revenue >= 0) ==> 0 <= r <= Total(deals)
  {
    if deals == [] then 0
    else
      var d := deals[|deals| - 1];
      RecentRevenueAsWritten(deals[..|deals| - 1], now) + (if CountedAsWritten(d, now) then d.revenue else 0)
  }

  /** The whole fetcher: no token gives zeros, an HTTP error or an exception gives the
      fixed fallback, and a 200 reply is folded record by record. As in the code, a
      recent date carrying an offset is not counted in last_24h: its comparison with the
      naive cutoff raises, and the exception is swallowed. */
  method DealRevenue(fetch: DealFetch, now: int) returns (s: Summary)
    ensures fetch.NoToken? ==> s == NoData
    ensures fetch.Raised? || (fetch.Replied? && fetch.status != 200) ==> s == Fallback
    ensures fetch.Replied? && fetch.status == 200 ==>
      && s.dealCount == |fetch.records|
      && s.totalRevenue == Total(fetch.records)
      && s.last24h == RecentRevenueAsWritten(fetch.records, now)
  {
    match fetch
    case NoToken =>
      s := NoData;
    case Raised =>
      s := Fallback;
    case Replied(status, records) =>
      if status != 200 {
        s := Fallback;
        return;
      }
      var total, last24h := 0, 0;
      var cutoff := now - 24 * HourSeconds;
      var i := 0;
      while i < |records|
        invariant 0 <= i <= |records|
        invariant total == Total(records[..i])
        invariant last24h == RecentRevenueAsWritten(records[..i], now)
      {
        assert records[..i + 1][..i] == records[..i];
        var d := records[i];
        if d.revenue != 0 {
          total := total + d.revenue;
        }
        if d.contractDate.Some? && !d.contractDate.value.hasOffset && d.contractDate.value.instant > cutoff {
          last24h := last24h + d.revenue;
        }
        i := i + 1;
      }
      assert records[..i] == records;
      s := Summary(total, |records|, last24h);
  }

  /** The total is additive over any split of the record list. */
  lemma {:induction false} TotalAppend(a: seq<Deal>, b: seq<Deal>)
    ensures Total(a + b) == Total(a) + Total(b)
  {
    if b == [] {
      assert a + b == a;
    } else {
      assert (a + b)[..|a + b| - 1] == a + b[..|b| - 1];
      TotalAppend(a, b[..|b| - 1]);
    }
  }

  /** Every record counts toward the total, whatever its date: the total is the sum of
      all revenues. */
  lemma {:induction false} TotalIsSumOfRevenues(deals: seq<Deal>)
    ensures Total(deals) == (if deals == [] then 0 else deals[0].revenue + Total(deals[1..]))
  {
    if deals != [] {
      TotalAppend([deals[0]], deals[1..]);
      assert [deals[0]] + deals[1..] == deals;
      assert [deals[0]][..0] == [];
    }
  }

  /** last_24h is the total over exactly the recent deals. */
  lemma {:induction false} RecentRevenueIsWindowTotal(deals: seq<Deal>, now: int)
    ensures RecentRevenue(deals, now) == Total(RecentDeals(deals, now))
    ensures forall d :: d in RecentDeals(deals, now) <==> d in deals && Recent(d, now)
  {
    if deals != [] {
      var init := deals[..|deals| - 1];
      var d := deals[|deals| - 1];
      RecentRevenueIsWindowTotal(init, now);
      TotalAppend(RecentDeals(init, now), if Recent(d, now) then [d] else []);
      if Recent(d, now) {
        assert Total([d]) == d.revenue by { assert [d][..0] == []; }
      }
      assert deals == init + [d];
    }
  }

  /** With no negative revenue, last_24h never exceeds the total. */
  lemma {:induction false} RecentAtMostTotal(deals: seq<Deal>, now: int)
    requires forall i :: 0 <= i < |deals| ==> deals[i].revenue >= 0
    ensures 0 <= RecentRevenue(deals, now) <= Total(deals)
  {
    if deals != [] {
      RecentAtMostTotal(deals[..|deals| - 1], now);
    }
  }

  /** The code as written agrees with the intended last_24h on deals whose dates carry
      no offset. */
  lemma {:induction false} AsWrittenAgreesWithoutOffsets(deals: seq<Deal>, now: int)
    requires forall i :: 0 <= i < |deals| && deals[i].contractDate.Some? ==> !deals[i].contractDate.value.hasOffset
    ensures RecentRevenueAsWritten(deals, now) == RecentRevenue(deals, now)
  {
    if deals != [] {
      AsWrittenAgreesWithoutOffsets(deals[..|deals| - 1], now);
    }
  }

  /** A deal contracted one hour ago whose date ends in Z: the code as written reports
      no revenue in the last 24 hours, the intended count reports its revenue. */
  lemma {:induction false} OffsetDateMissedAsWritten(now: int)
    ensures var deals := [Deal(5000, Some(ContractDate(now - HourSeconds, true)))];
      RecentRevenueAsWritten(deals, now) == 0 && RecentRevenue(deals, now) == 5000
  {
    var deals := [Deal(5000, Some(ContractDate(now - HourSeconds, true)))];
    assert deals[..0] == [];
  }
}
