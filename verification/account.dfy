/**
 The account record of one Arrakeener: four texts and three 64-bit
 counters. `Valid` is the invariant every completed operation keeps: no
 counter is negative.
 */
module Accounts {
  import opened Options
  import opened CheckedArith
  import opened RandomDraw

  datatype Account = Account(
    firstName: string,
    lastName: string,
    affiliation: string,
    occupation: string,
    energy: Int64,
    solaris: Int64,
    spice: Int64)

  datatype TextField = FirstName | LastName | Affiliation | Occupation

  datatype Counter = Energy | Solaris | Spice

  predicate Valid(a: Account) {
    a.energy >= 0 && a.solaris >= 0 && a.spice >= 0
  }

  /** Intervals of the initial energy and solaris draws. */
  const SeedEnergyLow := 1
  const SeedEnergyHigh := 100
  const SeedSolarisLow := 200000
  const SeedSolarisHigh := 400000

  /** A freshly constructed account, given the raw draws behind its energy and solaris. */
  function Seeded(rawEnergy: nat, rawSolaris: nat): (a: Account)
    ensures Valid(a)
    ensures InRange(a.energy, SeedEnergyLow, SeedEnergyHigh)
    ensures InRange(a.solaris, SeedSolarisLow, SeedSolarisHigh)
    ensures a.spice == 0
    ensures forall f :: Get(a, f) == ""
  {
    Account("", "", "", "",
      RandRange(SeedEnergyLow, SeedEnergyHigh, rawEnergy),
      RandRange(SeedSolarisLow, SeedSolarisHigh, rawSolaris),
      0)
  }

  /**
   With `rand()` bounded by `randMax`, every energy and solaris up to the
   reachable top of their seeding intervals starts some fresh account.
   */
  lemma SeedingCoversIntervals(randMax: nat, energy: int, solaris: int)
    requires InRange(energy, SeedEnergyLow, DrawHigh(SeedEnergyLow, SeedEnergyHigh, randMax))
    requires InRange(solaris, SeedSolarisLow, DrawHigh(SeedSolarisLow, SeedSolarisHigh, randMax))
    ensures var rawEnergy, rawSolaris := energy - SeedEnergyLow, solaris - SeedSolarisLow;
            && 0 <= rawEnergy <= randMax && 0 <= rawSolaris <= randMax
            && Seeded(rawEnergy, rawSolaris).energy == energy
            && Seeded(rawEnergy, rawSolaris).solaris == solaris
  {
    RandRangeCoversInterval(SeedEnergyLow, SeedEnergyHigh, randMax, energy);
    RandRangeCoversInterval(SeedSolarisLow, SeedSolarisHigh, randMax, solaris);
  }

  /**
   Under the Windows `RAND_MAX` the whole energy interval is reachable, but
   solaris never starts above 232767, well short of 400000.
   */
  lemma WindowsSeeding(rawEnergy: nat, rawSolaris: nat)
    requires rawEnergy <= WindowsRandMax && rawSolaris <= WindowsRandMax
    ensures Seeded(rawEnergy, rawSolaris).solaris <= 232767
    ensures DrawHigh(SeedEnergyLow, SeedEnergyHigh, WindowsRandMax) == SeedEnergyHigh
  {
    RandRangeBelowRandMax(SeedSolarisLow, SeedSolarisHigh, rawSolaris, WindowsRandMax);
  }

  predicate NulFree(s: string) {
    forall i :: 0 <= i < |s| ==> s[i] != '\0'
  }

  /**
   A `std::wstring` assigned from a C string keeps only the characters
   before the first NUL: the longest NUL-free prefix.
   */
  function UpToNul(s: string): (t: string)
    ensures t <= s
    ensures NulFree(t)
    ensures |t| < |s| ==> s[|t|] == '\0'
  {
    if |s| == 0 || s[0] == '\0' then "" else [s[0]] + UpToNul(s[1..])
  }

  /** A text without NUL is kept whole. */
  lemma UpToNulKeepsNulFree(s: string)
    requires NulFree(s)
    ensures UpToNul(s) == s
  {
  }

  /** The text getters. */
  function Get(a: Account, f: TextField): string {
    match f
    case FirstName => a.firstName
    case LastName => a.lastName
    case Affiliation => a.affiliation
    case Occupation => a.occupation
  }

  /** The counter getters; a reader of a valid account never sees a negative value. */
  function Read(a: Account, c: Counter): (v: Int64)
    ensures Valid(a) ==> v >= 0
  {
    match c
    case Energy => a.energy
    case Solaris => a.solaris
    case Spice => a.spice
  }

  /** Two accounts agree on all three counters. */
  predicate SameCounters(a: Account, b: Account) {
    forall c :: Read(a, c) == Read(b, c)
  }

  /**
   The text setters: a null value stores the empty text, any other value is
   stored up to its first NUL; no other field changes.
   */
  function Put(a: Account, f: TextField, value: Option<string>): (a': Account)
    ensures Get(a', f) == UpToNul(value.GetOr(""))
    ensures value.None? ==> Get(a', f) == ""
    ensures value.Some? && NulFree(value.value) ==>
      Get(a', f) == value.value
    ensures forall g :: g != f ==> Get(a', g) == Get(a, g)
    ensures SameCounters(a', a)
  {
    assert value.Some? && NulFree(value.value) ==> UpToNul(value.value) == value.value by {
      if value.Some? && NulFree(value.value) {
        UpToNulKeepsNulFree(value.value);
      }
    }
    var s := UpToNul(value.GetOr(""));
    match f
    case FirstName => a.(firstName := s)
    case LastName => a.(lastName := s)
    case Affiliation => a.(affiliation := s)
    case Occupation => a.(occupation := s)
  }

  /**
   The text getters return what the last setter stored (a copy of the
   stored text, which holds no NUL), and every other text as it was.
   */
  lemma GetAfterPut(a: Account, f: TextField, g: TextField, value: Option<string>)
    ensures Get(Put(a, f, value), g) == if g == f then UpToNul(value.GetOr("")) else Get(a, g)
    ensures NulFree(Get(Put(a, f, value), f))
  {
  }

  /** Storing null is the same as storing the empty text. */
  lemma PutNullIsPutEmpty(a: Account, f: TextField)
    ensures Put(a, f, None) == Put(a, f, Some(""))
  {
  }

  /** The last store to a field wins, and a repeated store changes nothing. */
  lemma PutOverwrites(a: Account, f: TextField, v: Option<string>, w: Option<string>)
    ensures Put(Put(a, f, v), f, w) == Put(a, f, w)
  {
  }

  /** Stores to different fields do not interfere. */
  lemma PutCommutes(a: Account, f: TextField, g: TextField, v: Option<string>, w: Option<string>)
    requires f != g
    ensures Put(Put(a, f, v), g, w) == Put(Put(a, g, w), f, v)
  {
  }
}
