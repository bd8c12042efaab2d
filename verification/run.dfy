/** A bounded stretch of the polling loop: passes run one after another on
    the state the previous pass left, each with its own fetch results and
    clock reading. */
module PollLoop {
  import opened Strings
  import opened AuditRotation
  import opened PollLog
  import opened BalanceUpdate
  import opened AuditCheck
  import opened PollCycle

  /** What the outside world supplies to one pass. */
  datatype Fetch = Fetch(balance: BalanceOutcome, audit: AuditOutcome, now: nat)

  /** The state after a run, the log it wrote, the delay after each pass,
      and how many passes reached the audit step. */
  datatype Trace = Trace(monitor: Monitor, log: seq<LogLine>, delays: seq<nat>, auditSteps: nat)

  function Run(m: Monitor, fetches: seq<Fetch>): (t: Trace)
    ensures |t.delays| == |fetches|
    ensures t.auditSteps <= |fetches|
    decreases |fetches|
  {
    if |fetches| == 0 then Trace(m, [], [], 0)
    else
      var t := Run(m, fetches[..|fetches| - 1]);
      var f := fetches[|fetches| - 1];
      var r := Cycle(t.monitor, f.balance, f.audit, f.now);
      var steps := if ReachesAudit(t.monitor, f.balance) then t.auditSteps + 1 else t.auditSteps;
      Trace(r.monitor, t.log + r.log, t.delays + [r.delayMs], steps)
  }

  /** Every delay in the list is one of the loop's two waits. */
  predicate AllowedDelays(delays: seq<nat>) {
    forall k | 0 <= k < |delays| :: delays[k] == FastDelayMs || delays[k] == SlowDelayMs
  }

  /** Every pass of a run waits either 500 ms or 15000 ms. */
  lemma {:induction false} RunDelays(m: Monitor, fetches: seq<Fetch>)
    ensures AllowedDelays(Run(m, fetches).delays)
    decreases |fetches|
  {
    if |fetches| > 0 {
      var prefix := fetches[..|fetches| - 1];
      var f := fetches[|fetches| - 1];
      RunDelays(m, prefix);
      var t := Run(m, prefix);
      var r := Cycle(t.monitor, f.balance, f.audit, f.now);
      assert Run(m, fetches).delays == t.delays + [r.delayMs];
    }
  }

  /** No pass adds, drops or renames an address. */
  lemma {:induction false} RunKeepsAddresses(m: Monitor, fetches: seq<Fetch>)
    ensures var t := Run(m, fetches);
            && |t.monitor.entries| == |m.entries|
            && forall j | 0 <= j < |m.entries| :: t.monitor.entries[j].addr == m.entries[j].addr
    decreases |fetches|
  {
    if |fetches| > 0 {
      RunKeepsAddresses(m, fetches[..|fetches| - 1]);
    }
  }

  /** After a run the ring is the starting ring rotated once for every pass
      that reached the audit step. */
  lemma {:induction false} RunRotatesRing(m: Monitor, fetches: seq<Fetch>)
    requires |m.auditSites| > 0
    ensures Run(m, fetches).monitor.auditSites == RotateTimes(m.auditSites, Run(m, fetches).auditSteps)
    decreases |fetches|
  {
    if |fetches| > 0 {
      var prefix := fetches[..|fetches| - 1];
      var f := fetches[|fetches| - 1];
      var t := Run(m, prefix);
      RunRotatesRing(m, prefix);
      RingStep(m.auditSites, t, f);
      var r := Cycle(t.monitor, f.balance, f.audit, f.now);
      var steps := if ReachesAudit(t.monitor, f.balance) then t.auditSteps + 1 else t.auditSteps;
      assert Run(m, fetches) == Trace(r.monitor, t.log + r.log, t.delays + [r.delayMs], steps);
    }
  }

  /** One pass keeps the ring equal to the starting ring rotated once per
      audit step counted so far. */
  lemma RingStep(start: seq<string>, t: Trace, f: Fetch)
    requires |start| > 0
    requires t.monitor.auditSites == RotateTimes(start, t.auditSteps)
    ensures var r := Cycle(t.monitor, f.balance, f.audit, f.now);
            var steps := if ReachesAudit(t.monitor, f.balance) then t.auditSteps + 1 else t.auditSteps;
            r.monitor.auditSites == RotateTimes(start, steps)
  {
  }

  /** From startup, the ring always holds the three audit servers, its head
      (the server the next audit step queries) is the next one in round-robin
      order, and every third audit step brings back the initial order. */
  lemma StartupRingIsRoundRobin(lines: seq<string>, fetches: seq<Fetch>)
    ensures var t := Run(Startup(lines), fetches);
            && multiset(t.monitor.auditSites) == multiset(AuditSites)
            && t.monitor.auditSites[0] == AuditSites[t.auditSteps % 3]
            && (t.auditSteps % 3 == 0 ==> t.monitor.auditSites == AuditSites)
  {
    var t := Run(Startup(lines), fetches);
    RunRotatesRing(Startup(lines), fetches);
    RotateTimesPermutes(AuditSites, t.auditSteps);
    RoundRobin(t.auditSteps);
  }

  /** No pass adds, drops or renames an address, so the list loaded at
      startup never comes to hold two addresses equal ignoring case. */
  lemma AddressesStayDistinct(lines: seq<string>, fetches: seq<Fetch>)
    ensures var entries := Run(Startup(lines), fetches).monitor.entries;
            forall j, k | 0 <= j < k < |entries| :: !EqualsIgnoreCase(entries[j].addr, entries[k].addr)
  {
    RunKeepsAddresses(Startup(lines), fetches);
  }

}
