/**
 Checked 64-bit signed arithmetic, after rule INT32-C of the SEI CERT C
 Coding Standard: an addition or multiplication whose mathematical result
 does not fit in a signed 64-bit integer is refused instead of wrapping.
 */
module CheckedArith {
  import opened Options

  const Int64Min: int := -0x8000_0000_0000_0000
  const Int64Max: int := 0x7FFF_FFFF_FFFF_FFFF
  const TwoTo64: int := 0x1_0000_0000_0000_0000

  /** The values of C's `int64_t` (`LONGLONG`). */
  type Int64 = x: int | Int64Min <= x <= Int64Max

  function Abs(x: int): nat {
    if x < 0 then -x else x
  }

  /** C's integer division, which truncates toward zero (Dafny's `/` is Euclidean). */
  function TruncDiv(a: int, b: int): (q: int)
    requires b != 0
    ensures Abs(q) * Abs(b) <= Abs(a) < Abs(q) * Abs(b) + Abs(b)
    ensures q != 0 ==> ((q > 0) <==> ((a < 0) == (b < 0)))
    ensures 0 <= a && 0 < b ==> q * b <= a < q * b + b
  {
    var m := Abs(a) / Abs(b);
    if (a < 0) == (b < 0) then m else -m
  }

  /** What a two's-complement machine stores for the mathematical value `x`. */
  function Wrap(x: int): (w: Int64)
    ensures (w - x) % TwoTo64 == 0
  {
    (x - Int64Min) % TwoTo64 + Int64Min
  }

  lemma WrapIsIdentityExactlyInRange(x: int)
    ensures Wrap(x) == x <==> Int64Min <= x <= Int64Max
  {
    if Int64Min <= x <= Int64Max {
      assert 0 <= x - Int64Min < TwoTo64;
    }
  }

  /** `safe_add`: `b` must be non-negative; refuses exactly the sums above `Int64Max`. */
  function SafeAdd(a: Int64, b: Int64): (r: Option<Int64>)
    requires b >= 0
    ensures r.Some? <==> a + b <= Int64Max
    ensures r.Some? ==> r.value == a + b
  {
    if b > 0 && a > Int64Max - b then None else Some(a + b)
  }

  /** The guard of `safe_multiply`, `a > INT64_MAX / b`, is exactly the overflow condition. */
  lemma {:induction false} MultiplyGuardIsExact(a: int, b: int)
    requires a > 0 && b > 0
    ensures a > TruncDiv(Int64Max, b) <==> a * b > Int64Max
  {
    var q := TruncDiv(Int64Max, b);
    if a > q {
      MulMonotone(q + 1, a, b);
      assert (q + 1) * b == q * b + b;
    } else {
      MulMonotone(a, q, b);
    }
  }

  lemma MulMonotone(x: int, y: int, k: int)
    requires x <= y && k >= 0
    ensures x * k <= y * k
  {
    assert y * k - x * k == (y - x) * k;
  }

  /** `safe_multiply`: both factors positive; refuses exactly the products above `Int64Max`. */
  function SafeMultiply(a: Int64, b: Int64): (r: Option<Int64>)
    requires a > 0 && b > 0
    ensures r.Some? <==> a * b <= Int64Max
    ensures r.Some? ==> r.value == a * b
  {
    MultiplyGuardIsExact(a, b);
    if a > TruncDiv(Int64Max, b) then None else Some(a * b)
  }

  /** The addition is refused precisely when the machine sum would have wrapped. */
  lemma SafeAddRefusesExactlyWrapping(a: Int64, b: Int64)
    requires b >= 0
    ensures SafeAdd(a, b).None? <==> Wrap(a + b) != a + b
  {
    WrapIsIdentityExactlyInRange(a + b);
  }

  /** The multiplication is refused precisely when the machine product would have wrapped. */
  lemma SafeMultiplyRefusesExactlyWrapping(a: Int64, b: Int64)
    requires a > 0 && b > 0
    ensures SafeMultiply(a, b).None? <==> Wrap(a * b) != a * b
  {
    MulMonotone(1, a, b);
    WrapIsIdentityExactlyInRange(a * b);
  }
}
