/** The audit step of a poll cycle: only the first (most recent) record of
    `recent_audits` is inspected, and it passes when its four test fields all
    read "true", ignoring case. */
module AuditCheck {
  import opened Optional
  import opened Strings
  import opened AddressRecord
  import opened PollLog

  /** The four test fields of an audit record, each as its ToString() text,
      or None when the property is absent from the record (reading it then
      throws). */
  datatype AuditRecord = AuditRecord(
    publicIpTest: Option<string>,
    timeTest: Option<string>,
    calendarStateTest: Option<string>,
    minimumCreditsTest: Option<string>)

  /** The fields in the order the condition reads them. */
  function Flags(record: AuditRecord): seq<Option<string>> {
    [record.publicIpTest, record.timeTest, record.calendarStateTest, record.minimumCreditsTest]
  }

  predicate IsTrue(text: string) {
    EqualsIgnoreCase(text, "true")
  }

  /** Field `k` is present and reads "true". */
  predicate Passes(flags: seq<Option<string>>, k: int)
    requires 0 <= k < |flags|
  {
    flags[k].Some? && IsTrue(flags[k].value)
  }

  /** The position of the first field that is absent or does not read
      "true", or the number of fields when there is none. */
  function FirstFailure(flags: seq<Option<string>>): (i: nat)
    ensures i <= |flags|
    ensures forall j | 0 <= j < i :: Passes(flags, j)
    ensures i < |flags| ==> !Passes(flags, i)
    decreases |flags|
  {
    if |flags| == 0 || !Passes(flags, 0) then 0
    else
      var tail := flags[1..];
      assert forall k | 0 <= k < |tail| :: Passes(tail, k) == Passes(flags, k + 1);
      var f := FirstFailure(tail);
      assert forall j | 1 <= j <= f :: Passes(flags, j) == Passes(tail, j - 1);
      1 + f
  }

  /** The short-circuit `!a || !b || !c || !d` test read left to right: it
      stops at the first field that is absent or does not read "true".
      Some(true) when there is none, Some(false) when that field is present,
      None when it is absent and reading it throws. */
  function CheckFlags(flags: seq<Option<string>>): (r: Option<bool>)
    ensures r == Some(true) <==> FirstFailure(flags) == |flags|
    ensures r == None <==> FirstFailure(flags) < |flags| && flags[FirstFailure(flags)].None?
    ensures r == Some(false) <==> FirstFailure(flags) < |flags| && flags[FirstFailure(flags)].Some?
    decreases |flags|
  {
    if |flags| == 0 then Some(true)
    else if flags[0].None? then None
    else if !IsTrue(flags[0].value) then Some(false)
    else
      var tail := flags[1..];
      assert forall k | 0 <= k < |tail| :: Passes(tail, k) == Passes(flags, k + 1);
      assert FirstFailure(flags) == 1 + FirstFailure(tail);
      CheckFlags(tail)
  }

  /** The check passes exactly when every field is present and reads
      "true". */
  lemma CheckFlagsPassesIffAllTrue(flags: seq<Option<string>>)
    ensures CheckFlags(flags) == Some(true) <==> forall k | 0 <= k < |flags| :: Passes(flags, k)
  {
  }

  /** The verdict on one record: it passes exactly when all four fields are
      present and read "true"; it throws (None) exactly when the first field
      that does not pass is absent, and fails when that field is present. */
  function Verdict(record: AuditRecord): (v: Option<bool>)
    ensures v == Some(true) <==> forall k | 0 <= k < 4 :: Passes(Flags(record), k)
    ensures v == None <==> FirstFailure(Flags(record)) < 4 && Flags(record)[FirstFailure(Flags(record))].None?
    ensures v == Some(false) <==> FirstFailure(Flags(record)) < 4 && Flags(record)[FirstFailure(Flags(record))].Some?
  {
    CheckFlagsPassesIffAllTrue(Flags(record));
    CheckFlags(Flags(record))
  }

  /** The verdict is the condition exactly as written: four negated tests
      joined by `||`, read left to right, each reading its field only when
      the tests before it were false. */
  lemma VerdictFollowsConditionChain(record: AuditRecord)
    ensures Verdict(record) ==
      if record.publicIpTest.None? then None
      else if !IsTrue(record.publicIpTest.value) then Some(false)
      else if record.timeTest.None? then None
      else if !IsTrue(record.timeTest.value) then Some(false)
      else if record.calendarStateTest.None? then None
      else if !IsTrue(record.calendarStateTest.value) then Some(false)
      else if record.minimumCreditsTest.None? then None
      else if !IsTrue(record.minimumCreditsTest.value) then Some(false)
      else Some(true)
  {
    var f := Flags(record);
    if Passes(f, 0) {
      var g := f[1..];
      assert CheckFlags(f) == CheckFlags(g);
      if Passes(g, 0) {
        var h := g[1..];
        assert CheckFlags(g) == CheckFlags(h);
        if Passes(h, 0) {
          assert CheckFlags(h) == CheckFlags(h[1..]);
        }
      }
    }
  }

  /** How far the audit request got. A failed request, an unreadable body or
      a missing `recent_audits` list all throw before the record is read. */
  datatype AuditOutcome =
    | AuditUnavailable
    | AuditResponse(body: string, recentAudits: seq<AuditRecord>)

  /** The record list holds a first record and its check does not throw. */
  predicate Decided(outcome: AuditOutcome) {
    outcome.AuditResponse? && |outcome.recentAudits| > 0 && Verdict(outcome.recentAudits[0]).Some?
  }

  /** The audit step on the selected address. */
  function AuditStep(a: Address, outcome: AuditOutcome): (r: Step)
    ensures !Decided(outcome) ==> r == Step(a, [], [])
    ensures Decided(outcome) ==>
              && r.address == a.(auditPassed := Verdict(outcome.recentAudits[0]).value)
              && r.events == Notify(a, AuditPassed)
    ensures Decided(outcome) ==>
              (r.address.auditPassed <==> forall k | 0 <= k < 4 :: Passes(Flags(outcome.recentAudits[0]), k))
    ensures r.log != [] <==> Decided(outcome) && !r.address.auditPassed
    ensures r.log != [] ==> r.log == [AuditFailed(a.addr, outcome.body)]
  {
    match outcome
    case AuditUnavailable => Step(a, [], [])
    case AuditResponse(body, records) =>
      if |records| == 0 then Step(a, [], [])
      else
        match Verdict(records[0])
        case None => Step(a, [], [])
        case Some(passed) =>
          var u := Assign(a, SetAuditPassed(passed));
          Step(u.address, if passed then [] else [AuditFailed(a.addr, body)], u.events)
  }

  /** Records after the first are never looked at. */
  lemma OnlyFirstRecordCounts(a: Address, body: string, records: seq<AuditRecord>, others: seq<AuditRecord>)
    requires |records| > 0 && |others| > 0 && records[0] == others[0]
    ensures AuditStep(a, AuditResponse(body, records)) == AuditStep(a, AuditResponse(body, others))
  {
  }

}
