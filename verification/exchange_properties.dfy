/**
 Properties of the economic operations that relate several calls or
 several fields: independence from the texts, the behaviour of a fresh
 account, the sell-then-oversell sequence, and the overflow at an
 enormous harvester count.
 */
module ExchangeProperties {
  import opened Options
  import opened CheckedArith
  import opened RandomDraw
  import opened Errors
  import opened Accounts
  import opened Exchange

  /** A fresh account holds no spice, so eating or selling any positive amount is refused. */
  lemma FreshAccountCannotTrade(rawEnergy: nat, rawSolaris: nat, units: Int64, eatRate: Int64, sellRate: Int64)
    requires units >= 1
    requires InRange(eatRate, EatRateLow, EatRateHigh)
    requires InRange(sellRate, SellRateLow, SellRateHigh)
    ensures var a := Seeded(rawEnergy, rawSolaris);
            && EatSpice(a, units, eatRate) == Reject(a, NoSpice)
            && SellSpice(a, units, sellRate) == Reject(a, NoSpice)
  {
  }

  /**
   Mining with `Int64Max - 1` harvesters, when energy covers any mining
   cost, always overflows and changes nothing.
   */
  lemma MineWithHugeHarvesterCountOverflows(a: Account, energyCost: Int64, cost: Int64, gain: Int64)
    requires a.energy >= MineEnergyHigh
    requires InRange(energyCost, MineEnergyLow, MineEnergyHigh)
    requires InRange(cost, MineCostLow, MineCostHigh)
    requires InRange(gain, MineYieldLow, MineYieldHigh)
    ensures MineSpice(a, Int64Max - 1, energyCost, cost, gain) == Reject(a, Overflow)
  {
    MulMonotone(2, cost, Int64Max - 1);
  }

  /**
   Start with 100 units of spice: selling 50 succeeds and earns between
   50 * 200000 and 50 * 700000 solaris; selling 51 next is refused and
   leaves 50 units.
   */
  lemma SellThenOversell(a: Account, rate1: Int64, rate2: Int64)
    requires Valid(a) && a.spice == 100
    requires a.solaris <= Int64Max - 50 * SellRateHigh
    requires InRange(rate1, SellRateLow, SellRateHigh)
    requires InRange(rate2, SellRateLow, SellRateHigh)
    ensures var s1 := SellSpice(a, 50, rate1);
            && s1.status == Done
            && 50 * SellRateLow <= s1.output <= 50 * SellRateHigh
            && s1.account.spice == 50
            && s1.account.solaris == a.solaris + s1.output
            && SellSpice(s1.account, 51, rate2) == Reject(s1.account, NoSpice)
  {
    var s1 := SellSpice(a, 50, rate1);
    assert rate1 * 50 <= SellRateHigh * 50;
  }

  /** Setting a text before an economic call is the same as setting it after. */
  lemma EatIgnoresText(a: Account, f: TextField, v: Option<string>, units: Int64, rate: Int64)
    requires InRange(rate, EatRateLow, EatRateHigh)
    ensures var s := EatSpice(a, units, rate);
            EatSpice(Put(a, f, v), units, rate) == s.(account := Put(s.account, f, v))
  {
  }

  lemma SellIgnoresText(a: Account, f: TextField, v: Option<string>, units: Int64, rate: Int64)
    requires InRange(rate, SellRateLow, SellRateHigh)
    ensures var s := SellSpice(a, units, rate);
            SellSpice(Put(a, f, v), units, rate) == s.(account := Put(s.account, f, v))
  {
  }

  lemma MineIgnoresText(a: Account, f: TextField, v: Option<string>,
                        harvesters: Int64, energyCost: Int64, cost: Int64, gain: Int64)
    requires InRange(energyCost, MineEnergyLow, MineEnergyHigh)
    requires InRange(cost, MineCostLow, MineCostHigh)
    requires InRange(gain, MineYieldLow, MineYieldHigh)
    ensures var s := MineSpice(a, harvesters, energyCost, cost, gain);
            MineSpice(Put(a, f, v), harvesters, energyCost, cost, gain) == s.(account := Put(s.account, f, v))
  {
  }
}
