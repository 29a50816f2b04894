/** Post identifiers ("snowflakes") carry their creation time in their high
    bits: shifting out the low 22 bits leaves milliseconds since the
    platform's epoch. */
module Snowflake {

  /** Milliseconds from the Unix epoch to the platform's snowflake epoch. */
  const Epoch: int := 1288834974657

  /** Number of low bits that do not encode time. */
  const TimeShift: nat := 22

  function Pow2(n: nat): (p: nat)
    ensures p >= 1
  {
    if n == 0 then 1 else 2 * Pow2(n - 1)
  }

  lemma {:induction false} Pow2Add(a: nat, b: nat)
    ensures Pow2(a + b) == Pow2(a) * Pow2(b)
  {
    if a > 0 {
      Pow2Add(a - 1, b);
    }
  }

  /** Python's `x >> n` on an (unbounded, possibly negative) integer: `n`
      halvings, each rounding toward negative infinity. Dafny's `/` by a
      positive divisor already rounds down, also for negative `x`. */
  function ShiftRight(x: int, n: nat): int
    decreases n
  {
    if n == 0 then x else ShiftRight(x / 2, n - 1)
  }

  /** `snowflake2utc`: the creation time, in Unix milliseconds, of the post
      with identifier `sf`. */
  function ToUtc(sf: int): int {
    ShiftRight(sf, TimeShift) + Epoch
  }

  /** Euclidean division is determined by its quotient-remainder equation. */
  lemma DivUnique(x: int, d: int, q: int, r: int)
    requires d > 0 && 0 <= r < d && x == d * q + r
    ensures x / d == q
  {
    var q' := x / d;
    assert d * (q' - q) == r - x % d;
    if q' > q {
      MulAtLeast(d, q' - q);
    } else if q' < q {
      MulAtLeast(d, q - q');
    }
  }

  lemma MulAtLeast(d: int, k: int)
    requires d > 0 && k >= 1
    ensures d * k >= d
  {
  }

  /** Halving then dividing by `b` is dividing by `2b`. */
  lemma HalfThenDiv(x: int, b: int)
    requires b > 0
    ensures (x / 2) / b == x / (2 * b)
  {
    var h := x / 2;
    var q := h / b;
    var r := h % b;
    assert h == b * q + r && 0 <= r < b;
    assert x == 2 * h + x % 2;
    assert x == (2 * b) * q + (2 * r + x % 2);
    DivUnique(x, 2 * b, q, 2 * r + x % 2);
  }

  /** `x >> n` is floor division by 2^n. */
  lemma {:induction false} ShiftRightIsDiv(x: int, n: nat)
    ensures ShiftRight(x, n) == x / Pow2(n)
    decreases n
  {
    if n > 0 {
      ShiftRightIsDiv(x / 2, n - 1);
      HalfThenDiv(x, Pow2(n - 1));
    }
  }

  lemma Pow2TimeShift()
    ensures Pow2(TimeShift) == 4194304
  {
    Pow2Add(11, 11);
    assert Pow2(11) == 2048;
  }

  /** The closed form: creation time is the identifier divided by 2^22, plus
      the epoch, exactly and with no rounding beyond the floor. */
  lemma ToUtcClosedForm(sf: int)
    ensures ToUtc(sf) == sf / 4194304 + Epoch
  {
    ShiftRightIsDiv(sf, TimeShift);
    Pow2TimeShift();
  }

  /** A later identifier never maps to an earlier time. */
  lemma {:induction false} ShiftRightMonotone(x: int, y: int, n: nat)
    requires x <= y
    ensures ShiftRight(x, n) <= ShiftRight(y, n)
    decreases n
  {
    if n > 0 {
      ShiftRightMonotone(x / 2, y / 2, n - 1);
    }
  }

  lemma ToUtcMonotone(a: int, b: int)
    requires a <= b
    ensures ToUtc(a) <= ToUtc(b)
  {
    ShiftRightMonotone(a, b, TimeShift);
  }

  /** The low 22 bits are not part of the time: every identifier in the block
      `hi * 2^22 .. hi * 2^22 + 2^22 - 1` maps to the same millisecond. */
  lemma ToUtcIgnoresLowBits(hi: int, lo: int)
    requires 0 <= lo < 4194304
    ensures ToUtc(hi * 4194304 + lo) == hi + Epoch
  {
    ToUtcClosedForm(hi * 4194304 + lo);
    DivUnique(hi * 4194304 + lo, 4194304, hi, lo);
  }

  /** Hence identifiers that agree above their low 22 bits share a time. */
  lemma ToUtcSameHighBits(a: int, b: int)
    requires a / 4194304 == b / 4194304
    ensures ToUtc(a) == ToUtc(b)
  {
    ToUtcClosedForm(a);
    ToUtcClosedForm(b);
  }
}
