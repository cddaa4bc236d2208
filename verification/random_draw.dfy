/**
 The bounded draw `randrange(lower, upper)`: a raw value of the C library's
 `rand()`, between 0 and `RAND_MAX`, reduced modulo the width of the
 interval and shifted to its lower end. The raw value is a parameter; how
 `rand()` is seeded and distributed is outside the model.
 */
module RandomDraw {

  /**
   `RAND_MAX` of the Microsoft C runtime the Windows server is built
   against; it is also the least value section 7.22.2.1 of C11 allows.
   */
  const WindowsRandMax: nat := 32767

  predicate InRange(x: int, lower: int, upper: int) {
    lower <= x <= upper
  }

  function Min(x: int, y: int): int {
    if x <= y then x else y
  }

  function RandRange(lower: int, upper: int, raw: nat): (r: int)
    requires lower < upper
    ensures InRange(r, lower, upper)
  {
    raw % (upper - lower + 1) + lower
  }

  /**
   The highest value a draw can take when `rand()` never exceeds `randMax`:
   the interval is cut short when it is wider than `randMax + 1`.
   */
  function DrawHigh(lower: int, upper: int, randMax: nat): int {
    Min(upper, lower + randMax)
  }

  /** With `rand()` bounded by `randMax` the draw never exceeds `DrawHigh`. */
  lemma RandRangeBelowRandMax(lower: int, upper: int, raw: nat, randMax: nat)
    requires lower < upper && raw <= randMax
    ensures InRange(RandRange(lower, upper, raw), lower, DrawHigh(lower, upper, randMax))
  {
  }

  /**
   Every value up to `DrawHigh` is drawn by some `rand()` value no larger
   than `randMax`; with the previous lemma, the values a draw can take are
   exactly `[lower, DrawHigh(lower, upper, randMax)]`.
   */
  lemma RandRangeCoversInterval(lower: int, upper: int, randMax: nat, v: int)
    requires lower < upper && InRange(v, lower, DrawHigh(lower, upper, randMax))
    ensures var raw := v - lower; 0 <= raw <= randMax && RandRange(lower, upper, raw) == v
  {
  }

  /** Under the Windows `RAND_MAX` no draw lies more than 32767 above its lower end. */
  lemma WindowsDrawsStayNearLower(lower: int, upper: int, raw: nat)
    requires lower < upper && raw <= WindowsRandMax
    ensures RandRange(lower, upper, raw) <= lower + 32767
  {
    RandRangeBelowRandMax(lower, upper, raw, WindowsRandMax);
  }
}
