/** get_agent_status with check_zillow_monitor and check_asana_activity: four agents,
    each active or idle with a task line, decided by the hour and two activity flags. */
module Agents {
  import opened Clock
  import opened Credentials

  datatype Agent = Agent(active: bool, task: string)

  const Arthur := "arthur"
  const ZillowBot := "zillow-bot"
  const Ghost := "ghost"
  const Admin := "admin"

  const Coordinating := "Coordinating Operations"
  const Monitoring := "Monitoring New Listings"
  const Scanning := "Scanning Detroit Properties"
  const Preparing := "Preparing Content Queue"
  const Writing := "Writing Social Content"
  const Managing := "Managing Asana Pipeline"
  const Processing := "Processing New Responses"

  /** check_zillow_monitor: the monitor counts as running from 6:00 to 18:59. */
  predicate ZillowMonitor(now: int): (r: bool)
    ensures r <==> 6 * HourSeconds <= now % DaySeconds < 19 * HourSeconds
  {
    6 <= HourOf(now) <= 18
  }

  /** What the Agent Responses request came to. */
  datatype AsanaReply =
    | Records(count: nat)   // the number of records in the body
    | Raised                // the request or the JSON raised

  /** check_asana_activity: true only when a token is configured and the reply holds a
      record; a missing token or any exception gives false. */
  function AsanaActive(creds: map<string, string>, reply: AsanaReply): (r: bool)
    ensures r <==> TokenKey in creds && reply.Records? && reply.count > 0
  {
    if TokenKey !in creds then false
    else match reply
      case Records(count) => count > 0
      case Raised => false
  }

  /** The agents as get_agent_status leaves them. */
  function Status(now: int, asanaActive: bool, contentActive: bool): (m: map<string, Agent>)
    ensures m.Keys == {Arthur, ZillowBot, Ghost, Admin}
    ensures m[Arthur] == Agent(true, Coordinating)
    ensures m[ZillowBot].active <==> 6 <= HourOf(now) <= 18
    ensures m[Admin].active == asanaActive && m[Ghost].active == contentActive
    ensures m[ZillowBot].task == (if m[ZillowBot].active then Scanning else Monitoring)
    ensures m[Admin].task == (if asanaActive then Processing else Managing)
    ensures m[Ghost].task == (if contentActive then Writing else Preparing)
  {
    var zillow := ZillowMonitor(now);
    map[
      Arthur := Agent(true, Coordinating),
      ZillowBot := Agent(zillow, if zillow then Scanning else Monitoring),
      Ghost := Agent(contentActive, if contentActive then Writing else Preparing),
      Admin := Agent(asanaActive, if asanaActive then Processing else Managing)]
  }

  /** get_agent_status: start from the defaults and update the entries one check at a
      time. The random content check is the contentActive input; none of the three checks
      can raise, so the except branch is never taken. */
  method AgentStatus(now: int, creds: map<string, string>, reply: AsanaReply, contentActive: bool)
    returns (agents: map<string, Agent>)
    ensures agents == Status(now, AsanaActive(creds, reply), contentActive)
  {
    agents := map[
      Arthur := Agent(true, Coordinating),
      ZillowBot := Agent(false, Monitoring),
      Ghost := Agent(false, Preparing),
      Admin := Agent(true, Managing)];

    var zillowActive := 6 <= HourOf(now) <= 18;
    agents := agents[ZillowBot := agents[ZillowBot].(active := zillowActive)];
    if zillowActive {
      agents := agents[ZillowBot := agents[ZillowBot].(task := Scanning)];
    }

    var asanaActive := AsanaActive(creds, reply);
    agents := agents[Admin := agents[Admin].(active := asanaActive)];
    if asanaActive {
      agents := agents[Admin := agents[Admin].(task := Processing)];
    }

    agents := agents[Ghost := agents[Ghost].(active := contentActive)];
    if contentActive {
      agents := agents[Ghost := agents[Ghost].(task := Writing)];
    }
  }

  /** How many agents are active: Arthur always, the others by their checks. */
  function ActiveCount(m: map<string, Agent>): (n: nat)
    requires {Arthur, ZillowBot, Ghost, Admin} <= m.Keys
  {
    (if m[Arthur].active then 1 else 0) + (if m[ZillowBot].active then 1 else 0)
      + (if m[Ghost].active then 1 else 0) + (if m[Admin].active then 1 else 0)
  }

  /** All four are active exactly in monitor hours with both flags set; otherwise fewer,
      and never fewer than one. */
  lemma {:induction false} AllFourActive(now: int, asanaActive: bool, contentActive: bool)
    ensures var n := ActiveCount(Status(now, asanaActive, contentActive));
      1 <= n && (n == 4 <==> ZillowMonitor(now) && asanaActive && contentActive)
  {
  }
}
