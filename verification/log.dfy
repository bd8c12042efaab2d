/** What a poll cycle writes to the operator's log, and what each of its
    steps hands on to the next. */
module PollLog {
  import opened AddressRecord

  /** A log message. The timestamp prefix the form adds is not modelled. */
  datatype LogLine =
    | ValueChanged(address: string, previous: real, current: real)
    | AuditFailed(address: string, body: string)

  /** The message text, with the source's spelling. `formatNumber` stands
      for float.ToString(), which depends on the current culture. */
  function Render(line: LogLine, formatNumber: real -> string): (text: string)
    ensures line.ValueChanged? ==>
              && "*** Value changedfor " + line.address + " -- previous: " <= text
              && |formatNumber(line.current)| <= |text|
              && text[|text| - |formatNumber(line.current)|..] == formatNumber(line.current)
    ensures line.AuditFailed? ==>
              && "Audit faile for " + line.address + ". " <= text
              && |line.body| <= |text|
              && text[|text| - |line.body|..] == line.body
  {
    match line
    case ValueChanged(address, previous, current) =>
      "*** Value changedfor " + address + " -- previous: " + formatNumber(previous)
      + " -- new: " + formatNumber(current)
    case AuditFailed(address, body) =>
      "Audit faile for " + address + ". " + body
  }

  /** The result of one step of a cycle on the selected address: the address
      as the step left it, the log lines it wrote and the change events its
      setter calls raised, in order. */
  datatype Step = Step(address: Address, log: seq<LogLine>, events: seq<Notification>)

}
