/**
 * DateTime as a tick count (100 ns units since 0001-01-01 UTC) and its
 * 64-bit binary form.
 */
module Time {
  import opened Common

  const TicksPerMinute: int := 600_000_000
  /** c_sessionExpiration: 30 minutes */
  const Lifetime: int := 30 * TicksPerMinute
  /** DateTime.MaxValue.Ticks */
  const MaxTicks: int := 3_155_378_975_999_999_999
  /** Bit 62: the kind flag ToBinary sets for a UTC value. */
  const KindUtc: int := 0x4000_0000_0000_0000

  type Ticks = t: int | 0 <= t <= MaxTicks

  /** An expiration a session issued at `now` gets; the clock must leave room for it. */
  predicate CanIssueAt(now: Ticks)
  {
    now + Lifetime <= MaxTicks
  }

  /** DateTime.ToBinary for a UTC value: the ticks in the low 62 bits, kind UTC in bit 62. */
  function ToBinary(t: Ticks): (w: Int64)
    ensures KindUtc <= w < 2 * KindUtc
    ensures w % KindUtc == t
  {
    t + KindUtc
  }

  /**
   * DateTime.FromBinary: the ticks are the low 62 bits of the word; a tick
   * count beyond MaxValue is rejected with an ArgumentException (None).
   */
  function FromBinary(w: Int64): (r: Option<Ticks>)
    ensures r.Some? <==> w % KindUtc <= MaxTicks
    ensures r.Some? ==> (r.value - w) % KindUtc == 0
  {
    var ticks := w % KindUtc;
    if ticks <= MaxTicks then Some(ticks) else None
  }

  /** FromBinary inverts ToBinary. */
  lemma FromBinaryToBinary(t: Ticks)
    ensures FromBinary(ToBinary(t)) == Some(t)
  {
  }

  /** An all-zero word is DateTime.MinValue, tick 0. */
  lemma FromBinaryZero()
    ensures FromBinary(0) == Some(0)
  {
  }
}
