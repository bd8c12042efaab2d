/** The `Address` class: five observable properties, each setter writing its
    own backing field and then raising PropertyChanged with the property's
    name when a handler is attached. */
module AddressRecord {
  import opened Optional

  /** default(DateTime): the "never fetched" timestamp. */
  const Never: nat := 0

  /** One tracked account. `subscribed` is whether the PropertyChanged event
      has a handler attached (the event field is non-null). */
  datatype Address = Address(
    addr: string,
    auditPassed: bool,
    balEth: real,
    balTnt: real,
    lastUpdated: nat,
    subscribed: bool)

  datatype Property = Addr | AuditPassed | BalEth | BalTnt | LastUpdated

  /** The name CallerMemberName supplies from inside each setter. */
  function PropertyName(p: Property): string {
    match p
    case Addr => "Addr"
    case AuditPassed => "AuditPassed"
    case BalEth => "BalEth"
    case BalTnt => "BalTnt"
    case LastUpdated => "LastUpdated"
  }

  /** A property value, whatever the property's type. */
  datatype Value = Text(text: string) | Flag(flag: bool) | Amount(amount: real) | Time(time: nat)

  /** The five getters: each returns its backing field. */
  function Get(a: Address, p: Property): Value {
    match p
    case Addr => Text(a.addr)
    case AuditPassed => Flag(a.auditPassed)
    case BalEth => Amount(a.balEth)
    case BalTnt => Amount(a.balTnt)
    case LastUpdated => Time(a.lastUpdated)
  }

  /** A call of one of the five setters, with the value assigned. */
  datatype Assignment =
    | SetAddr(addr: string)
    | SetAuditPassed(passed: bool)
    | SetBalEth(eth: real)
    | SetBalTnt(tnt: real)
    | SetLastUpdated(at: nat)

  function Target(x: Assignment): Property {
    match x
    case SetAddr(_) => Addr
    case SetAuditPassed(_) => AuditPassed
    case SetBalEth(_) => BalEth
    case SetBalTnt(_) => BalTnt
    case SetLastUpdated(_) => LastUpdated
  }

  function Written(x: Assignment): Value {
    match x
    case SetAddr(s) => Text(s)
    case SetAuditPassed(b) => Flag(b)
    case SetBalEth(r) => Amount(r)
    case SetBalTnt(r) => Amount(r)
    case SetLastUpdated(t) => Time(t)
  }

  datatype Notification = PropertyChanged(propertyName: string)

  /** An address after some setter calls, with the events they raised. */
  datatype Update = Update(address: Address, events: seq<Notification>)

  /** NotifyPropertyChanged: one event when a handler is attached, none
      otherwise. */
  function Notify(a: Address, p: Property): seq<Notification> {
    if a.subscribed then [PropertyChanged(PropertyName(p))] else []
  }

  /** Two addresses that agree on every property and on the event
      subscription are the same address. */
  lemma Extensionality(a: Address, b: Address)
    requires forall p :: Get(a, p) == Get(b, p)
    requires a.subscribed == b.subscribed
    ensures a == b
  {
    assert Get(a, Addr) == Get(b, Addr);
    assert Get(a, AuditPassed) == Get(b, AuditPassed);
    assert Get(a, BalEth) == Get(b, BalEth);
    assert Get(a, BalTnt) == Get(b, BalTnt);
    assert Get(a, LastUpdated) == Get(b, LastUpdated);
  }

  /** A setter: the backing field of its property takes the value, nothing
      else changes, and exactly one event naming that property is raised when
      a handler is attached. There is no equality check, so assigning the
      current value raises the event too. */
  function Assign(a: Address, x: Assignment): (u: Update)
    ensures Get(u.address, Target(x)) == Written(x)
    ensures forall p | p != Target(x) :: Get(u.address, p) == Get(a, p)
    ensures u.address.subscribed == a.subscribed
    ensures a.subscribed ==> u.events == [PropertyChanged(PropertyName(Target(x)))]
    ensures !a.subscribed ==> u.events == []
  {
    var b := match x
      case SetAddr(s) => a.(addr := s)
      case SetAuditPassed(v) => a.(auditPassed := v)
      case SetBalEth(r) => a.(balEth := r)
      case SetBalTnt(r) => a.(balTnt := r)
      case SetLastUpdated(t) => a.(lastUpdated := t);
    Update(b, Notify(a, Target(x)))
  }

  /** Assigning the value a property already holds changes nothing but
      still raises its event. */
  lemma SameValueStillNotifies(a: Address, x: Assignment)
    requires Get(a, Target(x)) == Written(x)
    ensures Assign(a, x).address == a
    ensures a.subscribed ==> Assign(a, x).events == [PropertyChanged(PropertyName(Target(x)))]
  {
    Extensionality(Assign(a, x).address, a);
  }

  /** The object's fields before the constructor body runs: C# defaults
      (the null `_Addr` is written as the empty string; it is overwritten
      at once). */
  const Blank := Address("", false, 0.0, 0.0, Never, false)

  /** `new Address(addr)`: the constructor assigns `Addr` through its setter
      while no handler can be attached yet. */
  function NewAddress(addr: string): (u: Update)
    ensures u.address.addr == addr
    ensures !u.address.auditPassed
    ensures u.address.balEth == 0.0 && u.address.balTnt == 0.0
    ensures u.address.lastUpdated == Never
    ensures !u.address.subscribed
    ensures u.events == []
  {
    Assign(Blank, SetAddr(addr))
  }

  /** `PropertyChanged += handler`. */
  function Subscribe(a: Address): Address {
    a.(subscribed := true)
  }

  /** A sequence of setter calls on one object, in order. */
  function AssignAll(a: Address, xs: seq<Assignment>): (u: Update)
    decreases |xs|
  {
    if |xs| == 0 then Update(a, [])
    else
      var v := AssignAll(a, xs[..|xs| - 1]);
      var w := Assign(v.address, xs[|xs| - 1]);
      Update(w.address, v.events + w.events)
  }

  /** The value of the last assignment to `p` in `xs`, if any. */
  function LastWritten(xs: seq<Assignment>, p: Property): Option<Value>
    decreases |xs|
  {
    if |xs| == 0 then None
    else if Target(xs[|xs| - 1]) == p then Some(Written(xs[|xs| - 1]))
    else LastWritten(xs[..|xs| - 1], p)
  }

  /** Each getter returns what its setter last assigned, whatever the other
      setters did in between; a property never assigned keeps its value. */
  lemma {:induction false} GetterReturnsLastAssigned(a: Address, xs: seq<Assignment>, p: Property)
    ensures Get(AssignAll(a, xs).address, p) ==
            (match LastWritten(xs, p) case Some(v) => v case None => Get(a, p))
    decreases |xs|
  {
    if |xs| > 0 {
      GetterReturnsLastAssigned(a, xs[..|xs| - 1], p);
    }
  }

  /** Every setter call raises exactly one event, carrying the name of the
      property it wrote, in call order; without a handler nothing is raised. */
  lemma {:induction false} OneEventPerAssignment(a: Address, xs: seq<Assignment>)
    ensures AssignAll(a, xs).address.subscribed == a.subscribed
    ensures a.subscribed ==>
              AssignAll(a, xs).events ==
              seq(|xs|, k requires 0 <= k < |xs| => PropertyChanged(PropertyName(Target(xs[k]))))
    ensures !a.subscribed ==> AssignAll(a, xs).events == []
    decreases |xs|
  {
    if |xs| > 0 {
      var ys := xs[..|xs| - 1];
      OneEventPerAssignment(a, ys);
      if a.subscribed {
        var s := seq(|xs|, k requires 0 <= k < |xs| => PropertyChanged(PropertyName(Target(xs[k]))));
        var t := seq(|ys|, k requires 0 <= k < |ys| => PropertyChanged(PropertyName(Target(ys[k]))));
        assert s == t + [PropertyChanged(PropertyName(Target(xs[|xs| - 1])))];
      }
    }
  }

}
