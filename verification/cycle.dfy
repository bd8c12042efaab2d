/** One pass of the polling loop, as a pure transition: pick the stalest
    address, run the balance step, rotate the audit ring and run the audit
    step, and choose the delay before the next pass. Any exception ends the
    pass early and keeps the writes made before it. */
module PollCycle {
  import opened Optional
  import opened AddressRecord
  import opened AddressLoader
  import opened Selection
  import opened AuditRotation
  import opened PollLog
  import opened BalanceUpdate
  import opened AuditCheck

  const BalanceUrlPrefix := "https://api.ethplorer.io/getAddressInfo/"
  const BalanceUrlSuffix := "?apiKey=freekey"
  const RequestTimeoutMs: nat := 10000
  const FastDelayMs: nat := 500
  const SlowDelayMs: nat := 15000

  /** The balance URL template with "{ADDR}" replaced by the address. */
  function BalanceUrl(addr: string): string {
    BalanceUrlPrefix + addr + BalanceUrlSuffix
  }

  function AuditUrl(site: string, addr: string): string {
    site + "nodes/" + addr
  }

  /** The loop's state: the address list and the audit ring. */
  datatype Monitor = Monitor(entries: seq<Address>, auditSites: seq<string>)

  /** An HTTP GET the pass issues. */
  datatype Request = HttpGet(url: string, timeoutMs: nat)

  /** Everything one pass produces: the new state, the position it polled
      (None when the list is empty), the requests it issued, the log lines
      and change events, and the delay before the next pass. */
  datatype CycleResult = CycleResult(
    monitor: Monitor,
    selected: Option<nat>,
    requests: seq<Request>,
    log: seq<LogLine>,
    events: seq<Notification>,
    delayMs: nat)

  /** The state right after construction: the loaded list and the ring in
      its initial order. */
  function Startup(lines: seq<string>): (m: Monitor)
    ensures m.auditSites == AuditSites
    ensures Addrs(m.entries) == FirstOccurrences(lines)
    ensures forall k | 0 <= k < |m.entries| :: m.entries[k] == Listed(m.entries[k].addr)
  {
    LoadKeepsFirstOccurrences(lines);
    Monitor(LoadAddresses(lines), AuditSites)
  }

  /** The pass gets past the balance step into the audit step: there is an
      address, its balance response was complete, and the ring has a head. */
  predicate ReachesAudit(m: Monitor, balance: BalanceOutcome) {
    |m.entries| > 0 && balance.BalanceResponse? && |m.auditSites| > 0
  }

  /** One pass. `balance` and `audit` are what the two requests yield and
      `now` is DateTime.Now at the update. The pass polls the stalest
      address (the earliest in list order among ties), waits 500 ms
      afterwards exactly when that address had never been fetched, changes
      no other entry and no address string, and turns the ring exactly when
      it reaches the audit step. */
  function Cycle(m: Monitor, balance: BalanceOutcome, audit: AuditOutcome, now: nat): (r: CycleResult)
    ensures r.selected.None? <==> |m.entries| == 0
    ensures r.selected.Some? ==> IsOldest(m.entries, r.selected.value)
    ensures r.delayMs == FastDelayMs || r.delayMs == SlowDelayMs
    ensures r.delayMs == FastDelayMs <==> r.selected.Some? && m.entries[r.selected.value].lastUpdated == Never
    ensures |r.monitor.entries| == |m.entries|
    ensures forall j | 0 <= j < |m.entries| && Some(j) != r.selected :: r.monitor.entries[j] == m.entries[j]
    ensures forall j | 0 <= j < |m.entries| :: r.monitor.entries[j].addr == m.entries[j].addr
    ensures ReachesAudit(m, balance) ==> r.monitor.auditSites == Rotate(m.auditSites)
    ensures !ReachesAudit(m, balance) ==> r.monitor.auditSites == m.auditSites
  {
    match Oldest(m.entries)
    case None => CycleResult(m, None, [], [], [], SlowDelayMs)
    case Some(i) =>
      var a := m.entries[i];
      var delay := if a.lastUpdated == Never then FastDelayMs else SlowDelayMs;
      var balanceRequest := HttpGet(BalanceUrl(a.addr), RequestTimeoutMs);
      var b := BalanceStep(a, balance, now);
      if !balance.BalanceResponse? || |m.auditSites| == 0 then
        CycleResult(Monitor(m.entries[i := b.address], m.auditSites), Some(i), [balanceRequest], b.log, b.events, delay)
      else
        var auditRequest := HttpGet(AuditUrl(m.auditSites[0], a.addr), RequestTimeoutMs);
        var c := AuditStep(b.address, audit);
        CycleResult(
          Monitor(m.entries[i := c.address], Rotate(m.auditSites)),
          Some(i), [balanceRequest, auditRequest], b.log + c.log, b.events + c.events, delay)
  }

  /** On an empty list First() throws at once: the pass issues no request,
      changes nothing and logs nothing, and the next pass comes after the
      long delay. */
  lemma EmptyListPassDoesNothing(m: Monitor, balance: BalanceOutcome, audit: AuditOutcome, now: nat)
    requires |m.entries| == 0
    ensures var r := Cycle(m, balance, audit, now);
            r.monitor == m && r.requests == [] && r.log == [] && r.events == [] && r.delayMs == SlowDelayMs
  {
  }

  /** The pass asks the balance API about the polled address and, when it
      reaches the audit step, the server at the head of the ring about the
      same address, each carrying the 10000 ms `Timeout` value the code assigns. */
  lemma PassRequests(m: Monitor, balance: BalanceOutcome, audit: AuditOutcome, now: nat)
    requires |m.entries| > 0
    ensures var r := Cycle(m, balance, audit, now);
            var addr := m.entries[r.selected.value].addr;
            && |r.requests| == (if ReachesAudit(m, balance) then 2 else 1)
            && r.requests[0] == HttpGet(BalanceUrl(addr), RequestTimeoutMs)
            && (ReachesAudit(m, balance) ==> r.requests[1] == HttpGet(AuditUrl(m.auditSites[0], addr), RequestTimeoutMs))
  {
  }

  /** A balance step cut short keeps the polled entry's token balance,
      timestamp and audit flag, turns no ring and logs nothing. A failed
      request changes nothing at all; a token failure has already written
      `BalEth`. */
  lemma BalanceFailureKeepsTimestamp(m: Monitor, balance: BalanceOutcome, audit: AuditOutcome, now: nat)
    requires |m.entries| > 0 && !balance.BalanceResponse?
    ensures var r := Cycle(m, balance, audit, now);
            var i := r.selected.value;
            && r.monitor.entries[i].balTnt == m.entries[i].balTnt
            && r.monitor.entries[i].lastUpdated == m.entries[i].lastUpdated
            && r.monitor.entries[i].auditPassed == m.entries[i].auditPassed
            && r.monitor.auditSites == m.auditSites
            && r.log == []
            && (balance.BalanceUnavailable? ==> r.monitor == m && r.events == [])
            && (balance.TokenUnreadable? ==> r.monitor.entries[i].balEth == balance.eth)
  {
  }

  /** A complete balance response writes both balances and sets the
      timestamp to `now`; a change line naming the address with the old and
      new token balance is logged exactly under the change rule. */
  lemma BalanceSuccessUpdates(m: Monitor, balance: BalanceOutcome, audit: AuditOutcome, now: nat)
    requires |m.entries| > 0 && balance.BalanceResponse?
    ensures var r := Cycle(m, balance, audit, now);
            var i := r.selected.value;
            var tnt := ScaleToken(balance.token);
            && r.monitor.entries[i].balEth == balance.eth
            && r.monitor.entries[i].balTnt == tnt
            && r.monitor.entries[i].lastUpdated == now
            && (ValueChanged(m.entries[i].addr, m.entries[i].balTnt, tnt) in r.log <==> Anomaly(m.entries[i].balTnt, tnt))
  {
    var r := Cycle(m, balance, audit, now);
    var i := r.selected.value;
    var b := BalanceStep(m.entries[i], balance, now);
    if |m.auditSites| > 0 {
      var c := AuditStep(b.address, audit);
      assert r.log == b.log + c.log;
      assert forall line | line in c.log :: line.AuditFailed?;
    }
  }

  /** When the pass reaches the audit step and the first record can be
      read, the audit flag becomes that record's verdict and a failing
      verdict is logged with the address and the raw body; otherwise the
      flag is left as it was and no audit line is logged. */
  lemma AuditVerdictApplied(m: Monitor, balance: BalanceOutcome, audit: AuditOutcome, now: nat)
    requires |m.entries| > 0
    ensures var r := Cycle(m, balance, audit, now);
            var i := r.selected.value;
            var decided := ReachesAudit(m, balance) && Decided(audit);
            && (decided ==> r.monitor.entries[i].auditPassed == Verdict(audit.recentAudits[0]).value)
            && (!decided ==> r.monitor.entries[i].auditPassed == m.entries[i].auditPassed)
            && ((exists line | line in r.log :: line.AuditFailed?) <==> decided && !Verdict(audit.recentAudits[0]).value)
            && (decided && !Verdict(audit.recentAudits[0]).value ==> AuditFailed(m.entries[i].addr, audit.body) in r.log)
  {
    var r := Cycle(m, balance, audit, now);
    var i := r.selected.value;
    var b := BalanceStep(m.entries[i], balance, now);
    assert forall line | line in b.log :: line.ValueChanged?;
    if ReachesAudit(m, balance) {
      var c := AuditStep(b.address, audit);
      assert r.log == b.log + c.log;
      assert c.log != [] ==> c.log[0] in r.log;
    }
  }

  /** A pass whose balance step did not complete leaves every timestamp as
      it was, so the next pass polls the same address again. */
  lemma FailedAddressIsPolledAgain(m: Monitor, balance: BalanceOutcome, audit: AuditOutcome, now: nat)
    requires |m.entries| > 0 && !balance.BalanceResponse?
    ensures Oldest(Cycle(m, balance, audit, now).monitor.entries) == Oldest(m.entries)
  {
    var r := Cycle(m, balance, audit, now);
    OldestDependsOnTimestampsOnly(r.monitor.entries, m.entries);
  }

  /** When the clock has moved past every stored timestamp, a complete
      balance response makes the polled address strictly fresher than before
      and than every other address, so (with more than one address) the
      next pass polls a different one. */
  lemma SuccessfulPollMovesOn(m: Monitor, balance: BalanceOutcome, audit: AuditOutcome, now: nat)
    requires |m.entries| > 0 && balance.BalanceResponse?
    requires forall j | 0 <= j < |m.entries| :: m.entries[j].lastUpdated < now
    ensures var r := Cycle(m, balance, audit, now);
            && r.monitor.entries[r.selected.value].lastUpdated > m.entries[r.selected.value].lastUpdated
            && (forall j | 0 <= j < |m.entries| && j != r.selected.value ::
                  r.monitor.entries[j].lastUpdated < r.monitor.entries[r.selected.value].lastUpdated)
            && (|m.entries| > 1 ==> Oldest(r.monitor.entries) != r.selected)
  {
    var r := Cycle(m, balance, audit, now);
    var i := r.selected.value;
    if |m.entries| > 1 {
      var j := if i == 0 then 1 else 0;
      assert r.monitor.entries[j].lastUpdated < r.monitor.entries[i].lastUpdated;
    }
  }

  /** The scenario of a freshly loaded address whose first balance response
      reports 1.5 ETH and a raw token balance of 250000000000: both balances
      are written, the update time is set, no change is logged and the next
      pass comes after the short delay. The audit step then sets the audit
      flag to the first record's verdict, with a fourth event, and logs a
      failing verdict; when it decides nothing, the flag stays false and
      nothing more happens. */
  lemma FirstPollScenario(addr: string, audit: AuditOutcome, now: nat)
    ensures var m := Monitor([Listed(addr)], AuditSites);
            var r := Cycle(m, BalanceResponse(1.5, JsonInteger(250000000000)), audit, now);
            var passed := Decided(audit) && Verdict(audit.recentAudits[0]).value;
            && r.monitor.entries == [Listed(addr).(balEth := 1.5, balTnt := 2500.0, lastUpdated := now, auditPassed := passed)]
            && r.monitor.auditSites == Rotate(AuditSites)
            && r.log == (if Decided(audit) && !passed then [AuditFailed(addr, audit.body)] else [])
            && r.events == [PropertyChanged("BalEth"), PropertyChanged("BalTnt"), PropertyChanged("LastUpdated")]
                           + (if Decided(audit) then [PropertyChanged("AuditPassed")] else [])
            && r.delayMs == FastDelayMs
  {
  }

}
