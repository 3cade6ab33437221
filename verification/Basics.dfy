/** Shared vocabulary: options and the unsigned 32-bit arithmetic of the firmware's clocks. */
module Basics {

  datatype Option<+T> = None | Some(value: T)

  const U32: int := 0x1_0000_0000

  /** A `uint32_t`. */
  type u32 = x: int | 0 <= x < 0x1_0000_0000

  /** Unsigned subtraction: wraps around modulo 2^32, like the C operator. */
  function Sub32(a: int, b: int): (r: u32)
  {
    (a - b) % U32
  }

  lemma Subtraction(a: u32, b: u32)
    ensures Sub32(a, b) == if a >= b then a - b else U32 + a - b
  {
  }

  /** Unsigned addition. */
  function Add32(a: int, b: int): (r: u32)
  {
    (a + b) % U32
  }

  lemma WithinOneRound(late: nat, early: nat)
    requires early <= late < early + U32
    ensures Sub32(late % U32, early % U32) == late - early
  {
    var d := late - early;
    assert (late % U32 - early % U32 - d) % U32 == 0;
  }

  lemma Remainder(q: nat, r: u32)
    ensures (q * U32 + r) % U32 == r
  {
  }

  /** The largest multiple of `d` that fits in `elapsed`. */
  function WholePeriods(elapsed: nat, d: nat): (w: nat)
    requires d > 0
    ensures w <= elapsed < w + d
  {
    if elapsed < d then 0 else d + WholePeriods(elapsed - d, d)
  }

  lemma FirstPeriod(elapsed: nat, d: nat)
    requires elapsed >= d > 0
    ensures WholePeriods(elapsed, d) >= d
  {
  }

  /** `x` is a multiple of `d`, said without multiplication. */
  predicate MultipleOf(x: nat, d: nat)
    requires d > 0
  {
    x == 0 || (x >= d && MultipleOf(x - d, d))
  }

  lemma {:induction false} ProductsAreMultiples(q: nat, d: nat)
    requires d > 0
    ensures MultipleOf(q * d, d)
    decreases q
  {
    if q > 0 {
      assert q * d == (q - 1) * d + d;
      ProductsAreMultiples(q - 1, d);
    }
  }

  lemma {:induction false} MultiplesAdd(x: nat, elapsed: nat, d: nat)
    requires d > 0 && MultipleOf(x, d)
    ensures MultipleOf(x + WholePeriods(elapsed, d), d)
    decreases elapsed
  {
    if elapsed >= d {
      MultiplesAdd(x, elapsed - d, d);
    }
  }

  lemma {:induction false} MultiplesInOneWindow(a: nat, b: nat, d: nat)
    requires d > 0 && MultipleOf(a, d) && MultipleOf(b, d)
    requires a < b + d && b < a + d
    ensures a == b
    decreases a
  {
    if a > 0 && b > 0 {
      MultiplesInOneWindow(a - d, b - d, d);
    }
  }

  /** Dividing and multiplying back, as the code does, leaves exactly the whole delays. */
  lemma DividingGivesWholePeriods(elapsed: nat, d: nat)
    requires d > 0
    ensures elapsed / d * d == WholePeriods(elapsed, d)
    ensures elapsed / d > 0 <==> elapsed >= d
  {
    var q := elapsed / d;
    assert elapsed == q * d + elapsed % d;
    ProductsAreMultiples(q, d);
    MultiplesAdd(0, elapsed, d);
    MultiplesInOneWindow(q * d, WholePeriods(elapsed, d), d);
    if q > 0 {
      assert q * d >= d;
    }
  }
}
