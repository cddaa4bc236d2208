/**
 Sequences of calls on one account, each call atomic. A call carries the
 raw `rand()` values its draws come from, so every call is admissible on
 every account; the invariant that no counter goes negative then holds of
 every account reachable from a fresh one, and the spice a caller holds is
 exactly what the returned values say it is.
 */
module Traces {
  import opened Options
  import opened CheckedArith
  import opened RandomDraw
  import opened Accounts
  import opened Exchange

  datatype Call =
    | SetText(field: TextField, value: Option<string>)
    | Eat(units: Int64, rawRate: nat)
    | Sell(units: Int64, rawRate: nat)
    | Mine(harvesters: Int64, rawEnergyCost: nat, rawCost: nat, rawGain: nat)

  /** One call on `a`, with its draws taken from the raw values. */
  function Apply(a: Account, c: Call): (s: Step)
    ensures c.SetText? ==> s.status == Done && s.output == 0
    ensures s.status.Failed? ==> s.account == a
    ensures Valid(a) ==> Valid(s.account)
  {
    match c
    case SetText(f, v) => Step(Done, 0, Put(a, f, v))
    case Eat(units, raw) =>
      EatSpice(a, units, RandRange(EatRateLow, EatRateHigh, raw))
    case Sell(units, raw) =>
      SellSpice(a, units, RandRange(SellRateLow, SellRateHigh, raw))
    case Mine(h, rawE, rawC, rawG) =>
      MineSpice(a, h,
                RandRange(MineEnergyLow, MineEnergyHigh, rawE),
                RandRange(MineCostLow, MineCostHigh, rawC),
                RandRange(MineYieldLow, MineYieldHigh, rawG))
  }

  /** The account after the calls, in order. */
  function Run(a: Account, calls: seq<Call>): Account
    decreases |calls|
  {
    if |calls| == 0 then a else Run(Apply(a, calls[0]).account, calls[1..])
  }

  /** No sequence of calls drives a counter of a valid account negative. */
  lemma {:induction false} RunKeepsValid(a: Account, calls: seq<Call>)
    requires Valid(a)
    ensures Valid(Run(a, calls))
    decreases |calls|
  {
    if |calls| > 0 {
      RunKeepsValid(Apply(a, calls[0]).account, calls[1..]);
    }
  }

  /** Every account reachable from a freshly seeded one is valid. */
  lemma ReachableIsValid(rawEnergy: nat, rawSolaris: nat, calls: seq<Call>)
    ensures Valid(Run(Seeded(rawEnergy, rawSolaris), calls))
  {
    RunKeepsValid(Seeded(rawEnergy, rawSolaris), calls);
  }

  /** The change in spice a caller infers from one call and what it returned. */
  function ReportedSpice(c: Call, s: Step): int {
    if s.status.Failed? then 0
    else match c
      case SetText(_, _) => 0
      case Eat(units, _) => -(units as int)
      case Sell(units, _) => -(units as int)
      case Mine(_, _, _, _) => s.output
  }

  /** The total change in spice a caller infers from a sequence of calls. */
  function ReportedSpiceTotal(a: Account, calls: seq<Call>): int
    decreases |calls|
  {
    if |calls| == 0 then 0
    else
      var s := Apply(a, calls[0]);
      ReportedSpice(calls[0], s) + ReportedSpiceTotal(s.account, calls[1..])
  }

  /** Bookkeeping from the returned values alone tracks the spice exactly. */
  lemma {:induction false} SpiceLedger(a: Account, calls: seq<Call>)
    ensures Run(a, calls).spice == a.spice + ReportedSpiceTotal(a, calls)
    decreases |calls|
  {
    if |calls| > 0 {
      var s := Apply(a, calls[0]);
      assert s.account.spice == a.spice + ReportedSpice(calls[0], s);
      SpiceLedger(s.account, calls[1..]);
    }
  }

  /** A refused call can be dropped from a sequence without changing where it ends. */
  lemma FailedCallIsNoOp(a: Account, c: Call, rest: seq<Call>)
    requires Apply(a, c).status.Failed?
    ensures Run(a, [c] + rest) == Run(a, rest)
  {
    assert ([c] + rest)[1..] == rest;
  }
}
