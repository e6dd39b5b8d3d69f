/**
 * Fixed-width integers, the session-id counter each backend keeps,
 * and the outcome of an operation that may return null or throw.
 */
module Common {

  const Two32: int := 0x1_0000_0000
  const Two64: int := 0x1_0000_0000_0000_0000
  const MinInt32: int := -0x8000_0000
  const MaxInt32: int := 0x7fff_ffff
  const MinInt64: int := -0x8000_0000_0000_0000
  const MaxInt64: int := 0x7fff_ffff_ffff_ffff

  /** C# `int` */
  type Int32 = x: int | MinInt32 <= x <= MaxInt32
  /** C# `long` */
  type Int64 = x: int | MinInt64 <= x <= MaxInt64

  datatype Option<+T> = None | Some(value: T)

  /** Exceptions the backends let escape to their caller. */
  datatype Fault =
    | InvalidBase64      // FormatException from Convert.FromBase64String
    | NegativePosition   // ArgumentOutOfRangeException from setting Stream.Position < 0
    | InvalidDateData    // ArgumentException from DateTime.FromBinary

  /** What a backend call yields: a string, C#'s null, or an exception. */
  datatype Outcome<+T> = Value(value: T) | Null | Throws(fault: Fault)

  /** Unchecked 64-bit arithmetic: the `long` whose bits are the low 64 bits of x. */
  function Wrap64(x: int): (r: Int64)
    ensures (r - x) % Two64 == 0
    ensures MinInt64 <= x <= MaxInt64 ==> r == x
  {
    var u := x % Two64;
    if u > MaxInt64 then u - Two64 else u
  }

  /** Unchecked 32-bit arithmetic, as Wrap64 for `int`. */
  function Wrap32(x: int): (r: Int32)
    ensures (r - x) % Two32 == 0
    ensures MinInt32 <= x <= MaxInt32 ==> r == x
  {
    var u := x % Two32;
    if u > MaxInt32 then u - Two32 else u
  }

  /** The bits of b shifted up by one, with c as the new low bit. */
  lemma ShiftIn(b: bv8, c: bv8)
    requires b < 128 && c < 2
    ensures ((b << 1) | c) as int == 2 * (b as int) + c as int
  {
  }

  /**
   * The byte whose unsigned value is x, built one bit at a time from the top.
   * The direct conversion `x as bv8` means the same, but the solver handles
   * that int-to-bit-vector conversion poorly once it meets other arithmetic,
   * so proofs about encoded bytes go through this function instead.
   */
  function ByteOf(x: int): (b: bv8)
    requires 0 <= x < 256
    ensures b as int == x
    decreases x
  {
    if x == 0 then 0
    else
      var high, low: bv8 := ByteOf(x / 2), if x % 2 == 1 then 1 else 0;
      ShiftIn(high, low);
      (high << 1) | low
  }

  /** Every byte is the byte of its own value. */
  lemma ByteOfValue(b: bv8)
    ensures ByteOf(b as int) == b
  {
  }

  /** Interlocked.Increment on an `int` counter: wraps from MaxInt32 to MinInt32. */
  function Increment32(n: Int32): (r: Int32)
    ensures (r - (n + 1)) % Two32 == 0
  {
    if n == MaxInt32 then MinInt32 else n + 1
  }

  /** The counter after k increments from its initial value 0: k reduced into the `int` range. */
  function CounterAfter(k: nat): (r: Int32)
    ensures r == Wrap32(k)
  {
    if k == 0 then 0
    else
      IncrementWraps(k - 1);
      Increment32(CounterAfter(k - 1))
  }

  /** Incrementing the wrapped value of k gives the wrapped value of k + 1. */
  lemma IncrementWraps(k: int)
    ensures Increment32(Wrap32(k)) == Wrap32(k + 1)
  {
    var u, q := k % Two32, k / Two32;
    assert k == q * Two32 + u;
    if u == Two32 - 1 {
      assert k + 1 == (q + 1) * Two32;
    } else {
      assert k + 1 == q * Two32 + (u + 1);
    }
  }

  /** Ids start at 1 and go up by one per issue, as long as the counter has not wrapped. */
  lemma CounterCountsUp(k: nat)
    requires k <= MaxInt32
    ensures CounterAfter(k) == k
  {
  }

  /** Ids issued at two different calls are distinct until the counter wraps. */
  lemma IdsDistinctBeforeWrap(j: nat, k: nat)
    requires j < k <= MaxInt32
    ensures CounterAfter(j) != CounterAfter(k)
  {
    CounterCountsUp(j);
    CounterCountsUp(k);
  }

  /** Call 2^31 yields the most negative id. */
  lemma CounterGoesNegative()
    ensures CounterAfter(MaxInt32 + 1) == MinInt32
  {
    var k := MaxInt32 + 1;
    assert k % Two32 == k;
  }

  /** Call 2^32 issues id 0, so ids are non-negative again from then on. */
  lemma CounterBackToZero()
    ensures CounterAfter(Two32) == 0
  {
    assert Two32 % Two32 == 0;
  }

  /** Call 2^32 + 1 re-issues id 1. */
  lemma CounterRepeats()
    ensures CounterAfter(Two32 + 1) == 1
  {
    var k := Two32 + 1;
    assert k % Two32 == 1;
    assert Wrap32(k) == 1;
  }
}
