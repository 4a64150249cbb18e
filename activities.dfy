/** get_live_activities: eleven fixed activity entries, the first three carrying the
    deal summary and the SMS and email counts, each stamped some minutes or hours before
    now and shown with a 12-hour clock time. */
module Activities {
  import opened Text
  import opened Clock
  import opened Deals

  /** get_ghl_sms_stats()['today'] and get_arthur_email_stats()['today'], both constants. */
  const SmsToday := 50
  const EmailsToday := 8

  /** An entry as returned: its type, its text, the timestamp (seconds) and the
      `%I:%M %p` text of that timestamp. */
  datatype Activity = Activity(kind: Kind, description: string, timestamp: int, time: string)

  /** The `type` of an entry; the dashboard receives the constructor's name as text. */
  datatype Kind = REVENUE | SMS | EMAIL | SYSTEM | COORD | SCRAPE | ADMIN | FINANCIAL | CONTENT | OUTREACH | NETLIFY

  /** %I: the hour on a 12-hour clock, where midnight and noon are 12. */
  function Clock12(hour: int): (h: int)
    requires 0 <= hour < 24
    ensures 1 <= h <= 12
    ensures h % 12 == hour % 12
  {
    if hour % 12 == 0 then 12 else hour % 12
  }

  /** %p in the C locale. */
  function Meridiem(hour: int): string {
    if hour < 12 then "AM" else "PM"
  }

  /** strftime('%I:%M %p') of a timestamp. */
  function TimeText(t: int): (r: string)
    ensures |r| == 8 && r[2] == ':' && r[5] == ' '
  {
    Pad2(Clock12(HourOf(t))) + ":" + Pad2(MinuteOf(t)) + " " + Meridiem(HourOf(t))
  }

  /** Reading a 12-hour time back onto the 24-hour clock. */
  function To24(h12: int, pm: bool): (hour: int)
    requires 1 <= h12 <= 12
    ensures 0 <= hour < 24
    ensures pm <==> hour >= 12
  {
    h12 % 12 + (if pm then 12 else 0)
  }

  /** The 12-hour text loses nothing: its hour, minute and AM/PM read back as the hour
      and minute of the timestamp. */
  lemma {:induction false} TimeTextRoundTrip(t: int)
    ensures var s := TimeText(t);
      && AllDigits(s[..2]) && AllDigits(s[3..5])
      && (s[6..] == "AM" || s[6..] == "PM")
      && 1 <= NumberValue(s[..2]) <= 12
      && To24(NumberValue(s[..2]), s[6..] == "PM") == HourOf(t)
      && NumberValue(s[3..5]) == MinuteOf(t)
  {
    var s := TimeText(t);
    var h, m, p := Pad2(Clock12(HourOf(t))), Pad2(MinuteOf(t)), Meridiem(HourOf(t));
    assert s == h + ":" + m + " " + p;
    assert s[..2] == h && s[3..5] == m && s[6..] == p;
    assert p == "PM" <==> HourOf(t) >= 12;
  }

  /** The deal line: `f'Deal Revenue Tracker: ${total:,} from {count} deals'`. */
  function RevenueLine(deals: Summary): (r: string)
    ensures |r| >= 29 && r[..23] == "Deal Revenue Tracker: $" && r[|r| - 6..] == " deals"
  {
    "Deal Revenue Tracker: $" + GroupedInt(deals.totalRevenue) + " from " + Decimal(deals.dealCount) + " deals"
  }

  /** The types of the eleven entries, in list order. */
  const Kinds := [REVENUE, SMS, EMAIL, SYSTEM, COORD, SCRAPE, ADMIN, FINANCIAL, CONTENT, OUTREACH, NETLIFY]

  /** How long before now each entry is stamped, in seconds: 0, 3, 7, 2, 5, 12 and 18
      minutes, then 1, 2, 3 and 4 hours. */
  const Ages := [0, 180, 420, 120, 300, 720, 1080, 3600, 7200, 10800, 14400]

  /** The texts of the eleven entries; the first three carry the live figures. */
  function Descriptions(deals: Summary): (r: seq<string>)
    ensures |r| == |Kinds|
  {
    [ RevenueLine(deals),
      "SMS Operations: " + Decimal(SmsToday) + " messages sent today",
      "Arthur Email: " + Decimal(EmailsToday) + " emails processed today",
      "Dashboard v2 updated with live Airtable integration",
      "Arthur coordinating 4 active agents",
      "Zillow Bot found 2 new Section 8 listings",
      "Admin updated 3 Asana tasks to pre-approval",
      "Processed $8,500 LL Ventures revenue",
      "Ghost generated Twitter thread draft",
      "14% response rate on Detroit agent outreach",
      "Off-Market Deals website deployed successfully" ]
  }

  /** Entry i as the loop appends it: stamped its age before now. */
  function Row(descriptions: seq<string>, now: int, i: int): (a: Activity)
    requires 0 <= i < |Kinds| == |descriptions|
  {
    var stamp := now - Ages[i];
    Activity(Kinds[i], descriptions[i], stamp, TimeText(stamp))
  }

  /** The loop of get_live_activities: one activity per entry, in list order, each
      stamped its age before now. The first entry is the newest, but the list is not
      sorted: the SYSTEM entry (two minutes old) follows the EMAIL entry (seven minutes
      old). */
  method RenderAll(descriptions: seq<string>, now: int) returns (activities: seq<Activity>)
    requires |descriptions| == |Kinds|
    ensures |activities| == |Kinds|
    ensures forall i :: 0 <= i < |activities| ==>
      && activities[i].kind == Kinds[i]
      && activities[i].description == descriptions[i]
      && activities[i].timestamp == now - Ages[i]
      && activities[i].time == TimeText(activities[i].timestamp)
    ensures forall i :: 0 <= i < |activities| ==> activities[i].timestamp <= activities[0].timestamp
    ensures activities[2].timestamp < activities[3].timestamp
  {
    activities := [];
    for i := 0 to |Kinds|
      invariant |activities| == i
      invariant forall k :: 0 <= k < i ==> activities[k] == Row(descriptions, now, k)
    {
      activities := activities + [Row(descriptions, now, i)];
    }
    forall i | 0 <= i < |activities|
      ensures activities[i].kind == Kinds[i] && activities[i].description == descriptions[i]
      ensures activities[i].timestamp == now - Ages[i]
      ensures activities[i].time == TimeText(activities[i].timestamp)
    {
      var r := Row(descriptions, now, i);
      assert activities[i] == r;
    }
    AgesFromNewest();
  }

  /** get_live_activities: the eleven entries with the live deal figures, rendered. */
  method LiveActivities(deals: Summary, now: int) returns (activities: seq<Activity>)
    ensures |activities| == |Kinds|
    ensures forall i :: 0 <= i < |activities| ==>
      && activities[i].kind == Kinds[i]
      && activities[i].description == Descriptions(deals)[i]
      && activities[i].timestamp == now - Ages[i]
      && activities[i].time == TimeText(activities[i].timestamp)
  {
    var descriptions := Descriptions(deals);
    activities := RenderAll(descriptions, now);
  }

  /** The first entry is the newest, and the third is older than the fourth. */
  lemma AgesFromNewest()
    ensures forall i :: 0 <= i < |Ages| ==> Ages[0] <= Ages[i]
    ensures Ages[2] > Ages[3]
  {
  }

  /** The deal line carries the total in full and the deal count: between the fixed
      opening and ` from <count> deals` sits the total, whose commas, taken out, leave the
      plain decimal digits of the total with its sign. */
  lemma {:induction false} RevenueLineDigits(deals: Summary)
    ensures exists g ::
      && RevenueLine(deals) == "Deal Revenue Tracker: $" + g + " from " + Decimal(deals.dealCount) + " deals"
      && DropCommas(g) == (if deals.totalRevenue < 0 then "-" + Decimal(-deals.totalRevenue) else Decimal(deals.totalRevenue))
  {
    var total := deals.totalRevenue;
    var g := GroupedInt(total);
    if total < 0 {
      GroupedDigits(-total);
      DropCommasAppend("-", Grouped(-total));
      assert DropCommas("-") == "-" by {
        assert "-"[1..] == [];
      }
    } else {
      GroupedDigits(total);
    }
    assert RevenueLine(deals) == "Deal Revenue Tracker: $" + g + " from " + Decimal(deals.dealCount) + " deals";
  }
}
