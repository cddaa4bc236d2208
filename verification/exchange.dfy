/**
 The three economic operations of an Arrakeener: eating spice for energy,
 selling spice for solaris, and mining spice with harvesters paid for in
 energy and solaris. Each validates its argument, checks that the account
 can pay, computes its deltas with checked arithmetic, and only then
 commits; every failure returns output 0 and leaves the account as it was.
 The random draws are parameters constrained to their `randrange` intervals.
 */
module Exchange {
  import opened CheckedArith
  import opened RandomDraw
  import opened Errors
  import opened Accounts

  datatype Status = Done | Failed(error: Error)

  /** The reported status, the value written to the output slot, and the account afterwards. */
  datatype Step = Step(status: Status, output: Int64, account: Account)

  /** Intervals of the draws. */
  const EatRateLow := 1
  const EatRateHigh := 100
  const SellRateLow := 200000
  const SellRateHigh := 700000
  const MineEnergyLow := 1
  const MineEnergyHigh := 10
  const MineCostLow := 100000
  const MineCostHigh := 200000
  const MineYieldLow := 1
  const MineYieldHigh := 50

  /** A failed call: output 0, account untouched. */
  function Reject(a: Account, e: Error): Step {
    Step(Failed(e), 0, a)
  }

  datatype Conversion = Converted(delta: Int64, balance: Int64) | Refused(error: Error)

  /**
   The checks shared by eating and selling: at least one unit, no more units
   than the spice held, then `rate * units` and `balance + rate * units` both
   within 64 bits, in that order.
   */
  function Convert(spice: Int64, units: Int64, rate: Int64, balance: Int64): (r: Conversion)
    requires rate >= 1
    ensures units < 1 ==> r == Refused(NonPositiveSpice)
    ensures 1 <= units && spice < units ==> r == Refused(NoSpice)
    ensures 1 <= units <= spice && r.Refused? ==> r.error == Overflow
    ensures r.Converted? <==>
      1 <= units <= spice && rate * units <= Int64Max && balance + rate * units <= Int64Max
    ensures r.Converted? ==> r.delta == rate * units && r.balance == balance + r.delta
  {
    if units < 1 then Refused(NonPositiveSpice)
    else if spice < units then Refused(NoSpice)
    else match SafeMultiply(rate, units)
      case None => Refused(Overflow)
      case Some(delta) =>
        match SafeAdd(balance, delta)
        case None => Refused(Overflow)
        case Some(sum) => Converted(delta, sum)
  }

  /** On a valid account the product check is subsumed by the sum check. */
  lemma ConvertOnNonNegativeBalance(spice: Int64, units: Int64, rate: Int64, balance: Int64)
    requires rate >= 1 && balance >= 0
    ensures Convert(spice, units, rate, balance).Converted? <==>
      1 <= units <= spice && balance + rate * units <= Int64Max
  {
  }

  /** A per-unit rate in `[low, high]` scales `units` into `[low * units, high * units]`. */
  lemma RateBounds(units: int, rate: int, low: int, high: int)
    requires units >= 1 && low <= rate <= high
    ensures low * units <= rate * units <= high * units
  {
    MulMonotone(low, rate, units);
    MulMonotone(rate, high, units);
  }

  /** `EatSpice`: `units` of spice become `rate * units` energy. */
  function EatSpice(a: Account, units: Int64, rate: Int64): (s: Step)
    requires InRange(rate, EatRateLow, EatRateHigh)
    ensures s.status.Failed? ==> s.output == 0 && s.account == a
    ensures units < 1 ==> s.status == Failed(NonPositiveSpice)
    ensures 1 <= units && a.spice < units ==> s.status == Failed(NoSpice)
    ensures 1 <= units <= a.spice && s.status.Failed? ==> s.status.error == Overflow
    ensures s.status.Done? <==>
      1 <= units <= a.spice && rate * units <= Int64Max && a.energy + rate * units <= Int64Max
    ensures s.status.Done? ==>
      && s.output == rate * units
      && units <= s.output <= EatRateHigh * units
      && s.account == a.(spice := a.spice - units, energy := a.energy + s.output)
    ensures Valid(a) ==> Valid(s.account)
  {
    match Convert(a.spice, units, rate, a.energy)
    case Refused(e) => Reject(a, e)
    case Converted(delta, energy) =>
      RateBounds(units, rate, EatRateLow, EatRateHigh);
      Step(Done, delta, a.(spice := a.spice - units, energy := energy))
  }

  /** `SellSpice`: `units` of spice become `rate * units` solaris. */
  function SellSpice(a: Account, units: Int64, rate: Int64): (s: Step)
    requires InRange(rate, SellRateLow, SellRateHigh)
    ensures s.status.Failed? ==> s.output == 0 && s.account == a
    ensures units < 1 ==> s.status == Failed(NonPositiveSpice)
    ensures 1 <= units && a.spice < units ==> s.status == Failed(NoSpice)
    ensures 1 <= units <= a.spice && s.status.Failed? ==> s.status.error == Overflow
    ensures s.status.Done? <==>
      1 <= units <= a.spice && rate * units <= Int64Max && a.solaris + rate * units <= Int64Max
    ensures s.status.Done? ==>
      && s.output == rate * units
      && SellRateLow * units <= s.output <= SellRateHigh * units
      && s.account == a.(spice := a.spice - units, solaris := a.solaris + s.output)
    ensures Valid(a) ==> Valid(s.account)
  {
    match Convert(a.spice, units, rate, a.solaris)
    case Refused(e) => Reject(a, e)
    case Converted(delta, solaris) =>
      RateBounds(units, rate, SellRateLow, SellRateHigh);
      Step(Done, delta, a.(spice := a.spice - units, solaris := solaris))
  }

  /**
   `MineSpice`: `harvesters` harvesters cost `energyCost` energy in all and
   `cost` solaris each, and gain `gain` spice each.
   */
  function MineSpice(a: Account, harvesters: Int64, energyCost: Int64, cost: Int64, gain: Int64): (s: Step)
    requires InRange(energyCost, MineEnergyLow, MineEnergyHigh)
    requires InRange(cost, MineCostLow, MineCostHigh)
    requires InRange(gain, MineYieldLow, MineYieldHigh)
    ensures s.status.Failed? ==> s.output == 0 && s.account == a
    ensures harvesters < 1 ==> s.status == Failed(NoHarvester)
    ensures 1 <= harvesters && a.energy < energyCost ==> s.status == Failed(NoEnergy)
    ensures 1 <= harvesters && energyCost <= a.energy && cost * harvesters > Int64Max ==>
      s.status == Failed(Overflow)
    ensures (1 <= harvesters && energyCost <= a.energy && cost * harvesters <= Int64Max
             && a.solaris < cost * harvesters) ==> s.status == Failed(NoSolaris)
    ensures (1 <= harvesters && energyCost <= a.energy && cost * harvesters <= a.solaris
             && a.spice + gain * harvesters > Int64Max) ==> s.status == Failed(Overflow)
    ensures s.status.Done? <==>
      && 1 <= harvesters
      && energyCost <= a.energy
      && cost * harvesters <= a.solaris
      && a.spice + gain * harvesters <= Int64Max
    ensures s.status.Done? ==>
      && s.output == gain * harvesters
      && s.account == a.(energy := a.energy - energyCost,
                         solaris := a.solaris - cost * harvesters,
                         spice := a.spice + s.output)
      && s.account.energy < a.energy
      && s.account.solaris < a.solaris
      && s.account.spice > a.spice
    ensures Valid(a) ==> Valid(s.account)
  {
    if harvesters < 1 then Reject(a, NoHarvester)
    else if a.energy < energyCost then Reject(a, NoEnergy)
    else
      var solarisCost := SafeMultiply(cost, harvesters);
      var spiceGain := SafeMultiply(gain, harvesters);
      if solarisCost.None? || spiceGain.None? then
        YieldOverflowImpliesCostOverflow(harvesters, cost, gain);
        Reject(a, Overflow)
      else if a.solaris < solarisCost.value then Reject(a, NoSolaris)
      else match SafeAdd(a.spice, spiceGain.value)
        case None => Reject(a, Overflow)
        case Some(spice) =>
          MulMonotone(1, cost, harvesters);
          Step(Done, spiceGain.value,
               a.(energy := a.energy - energyCost,
                  solaris := a.solaris - solarisCost.value,
                  spice := spice))
  }

  /**
   The spice-gain product never overflows alone: since every solaris cost
   exceeds every gain, the cost product overflows first.
   */
  lemma YieldOverflowImpliesCostOverflow(harvesters: int, cost: int, gain: int)
    requires harvesters >= 1
    requires InRange(cost, MineCostLow, MineCostHigh)
    requires InRange(gain, MineYieldLow, MineYieldHigh)
    ensures gain * harvesters > Int64Max ==> cost * harvesters > Int64Max
  {
    MulMonotone(gain, cost, harvesters);
  }
}
