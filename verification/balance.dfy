/** The balance step of a poll cycle: write the ETH balance, scale the first
    token's raw balance, log a change of a known token balance, then write the
    token balance and the update time. */
module BalanceUpdate {
  import opened AddressRecord
  import opened PollLog

  /** The token has eight decimals. */
  const TokenDivisor: int := 100000000

  /** A JSON number as the parser delivers it: an integer literal becomes a
      64-bit (or big) integer, any other literal a double. */
  datatype JsonNumber = JsonInteger(integer: int) | JsonFloat(float: real)

  /** C#'s integer `/`: the quotient rounded toward zero. */
  function DivideTowardZero(a: int, b: int): int
    requires b > 0
  {
    if a >= 0 then a / b else -((-a) / b)
  }

  /** `tokens[0].balance / 100000000` evaluated on the parsed JSON value: on
      an integer it is an integer division, which drops the fraction (toward
      zero); on a double it is exact. */
  function ScaleToken(raw: JsonNumber): (tnt: real)
    ensures raw.JsonFloat? ==> tnt * (TokenDivisor as real) == raw.float
    ensures raw.JsonInteger? ==> tnt == tnt.Floor as real
    ensures raw.JsonInteger? && raw.integer >= 0 ==>
              0.0 <= tnt * (TokenDivisor as real) <= raw.integer as real < tnt * (TokenDivisor as real) + TokenDivisor as real
    ensures raw.JsonInteger? && raw.integer < 0 ==>
              tnt * (TokenDivisor as real) - TokenDivisor as real < raw.integer as real <= tnt * (TokenDivisor as real) <= 0.0
  {
    match raw
    case JsonInteger(i) => DivideTowardZero(i, TokenDivisor) as real
    case JsonFloat(f) => f / (TokenDivisor as real)
  }

  /** The change rule: a known (non-zero) token balance that differs from
      the freshly read one. A previous balance of zero is taken to mean
      "not read yet". */
  predicate Anomaly(previous: real, current: real) {
    previous != 0.0 && previous != current
  }

  /** How far the balance request got. A failed request, an unreadable body
      or a missing `ETH.balance` throw before anything is written; a missing
      or unreadable `tokens[0].balance` throws after `BalEth` is written. */
  datatype BalanceOutcome =
    | BalanceUnavailable
    | TokenUnreadable(eth: real)
    | BalanceResponse(eth: real, token: JsonNumber)

  /** The balance step on the selected address. Only a complete response
      touches the token balance and the update time; only a complete response
      can log, and it logs exactly when the change rule fires. */
  function BalanceStep(a: Address, outcome: BalanceOutcome, now: nat): (r: Step)
    ensures r.address.addr == a.addr
    ensures r.address.auditPassed == a.auditPassed
    ensures r.address.subscribed == a.subscribed
    ensures outcome.BalanceUnavailable? ==> r == Step(a, [], [])
    ensures !outcome.BalanceUnavailable? ==> r.address.balEth == outcome.eth
    ensures !outcome.BalanceResponse? ==>
              r.log == [] && r.address.balTnt == a.balTnt && r.address.lastUpdated == a.lastUpdated
    ensures outcome.BalanceResponse? ==>
              && r.address.balTnt == ScaleToken(outcome.token)
              && r.address.lastUpdated == now
              && (r.log != [] <==> Anomaly(a.balTnt, r.address.balTnt))
    ensures r.log != [] ==> r.log == [ValueChanged(a.addr, a.balTnt, r.address.balTnt)]
    ensures !a.subscribed ==> r.events == []
    ensures a.subscribed && outcome.TokenUnreadable? ==> r.events == [PropertyChanged("BalEth")]
    ensures a.subscribed && outcome.BalanceResponse? ==>
              r.events == [PropertyChanged("BalEth"), PropertyChanged("BalTnt"), PropertyChanged("LastUpdated")]
  {
    match outcome
    case BalanceUnavailable => Step(a, [], [])
    case TokenUnreadable(eth) =>
      var u := Assign(a, SetBalEth(eth));
      Step(u.address, [], u.events)
    case BalanceResponse(eth, token) =>
      var u1 := Assign(a, SetBalEth(eth));
      var tnt := ScaleToken(token);
      var previous := u1.address.balTnt;
      var log := if Anomaly(previous, tnt) then [ValueChanged(u1.address.addr, previous, tnt)] else [];
      var u2 := Assign(u1.address, SetBalTnt(tnt));
      var u3 := Assign(u2.address, SetLastUpdated(now));
      Step(u3.address, log, u1.events + u2.events + u3.events)
  }

}
