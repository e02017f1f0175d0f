/** Timestamps: the guest splits a system time into seconds and nanoseconds, the host flattens them to
    64-bit nanoseconds, wrapping as the release profile builds it. */
module Timestamps {
  import opened Wrappers

  /** Seconds and nanoseconds of the second. */
  datatype Datetime = Datetime(seconds: u64, nanoseconds: nat)

  const MAX_SECONDS: int := (TWO_TO_THE_64 - 1) / NANOS
  const MAX_SUBSECOND: int := (TWO_TO_THE_64 - 1) % NANOS

  /** A system time, in nanoseconds around the epoch, as the guest sends it; earlier times count as the epoch. */
  function FromSystemTime(nanos: int): Datetime
    requires nanos / NANOS < TWO_TO_THE_64
  {
    if nanos < 0 then Datetime(0, 0) else Datetime(nanos / NANOS, nanos % NANOS)
  }

  function ToNanos(dt: Datetime): u64 {
    ((dt.seconds * NANOS) % TWO_TO_THE_64 + dt.nanoseconds) % TWO_TO_THE_64
  }

  /** Lexicographically at most the largest time that 64 bits of nanoseconds hold. */
  predicate Fits(dt: Datetime) {
    dt.seconds < MAX_SECONDS || (dt.seconds == MAX_SECONDS && dt.nanoseconds <= MAX_SUBSECOND)
  }

  predicate Before(a: Datetime, b: Datetime) {
    a.seconds < b.seconds || (a.seconds == b.seconds && a.nanoseconds < b.nanoseconds)
  }

  lemma {:induction false} MaximumIsYear2554()
    ensures MAX_SECONDS == 18446744073 && MAX_SUBSECOND == 709551615
  {
  }

  /** The two conversions in plain numbers: whole seconds and the rest, the epoch for earlier times; and the
      count of nanoseconds, reduced to 64 bits. */
  lemma {:induction false} ConversionsInNumbers(nanos: int, dt: Datetime)
    requires nanos / 1_000_000_000 < 0x1_0000_0000_0000_0000
    ensures
      var sent := FromSystemTime(nanos);
      && sent.nanoseconds < 1_000_000_000
      && sent.seconds * 1_000_000_000 + sent.nanoseconds == if nanos < 0 then 0 else nanos
    ensures ToNanos(dt) == (dt.seconds * 1_000_000_000 + dt.nanoseconds) % 0x1_0000_0000_0000_0000
  {
    ReduceTwice(dt.seconds * NANOS, dt.nanoseconds);
  }

  lemma {:induction false} ReduceTwice(a: int, b: int)
    ensures (a % TWO_TO_THE_64 + b) % TWO_TO_THE_64 == (a + b) % TWO_TO_THE_64
  {
    var q, r := a / TWO_TO_THE_64, a % TWO_TO_THE_64;
    var q', r' := (r + b) / TWO_TO_THE_64, (r + b) % TWO_TO_THE_64;
    assert a + b == (q + q') * TWO_TO_THE_64 + r';
  }

  /** Flattening is exact exactly for times that fit. */
  lemma {:induction false} FlatteningIsExactIff(dt: Datetime)
    requires dt.nanoseconds < NANOS
    ensures ToNanos(dt) == dt.seconds * NANOS + dt.nanoseconds <==> Fits(dt)
  {
    MaximumIsYear2554();
  }

  /** A system time survives the trip through guest and host exactly if it is not before the epoch and
      below 2^64 nanoseconds. */
  lemma {:induction false} SystemTimeRoundTripIff(nanos: int)
    requires nanos / NANOS < TWO_TO_THE_64
    ensures ToNanos(FromSystemTime(nanos)) == nanos <==> 0 <= nanos < TWO_TO_THE_64
  {
    if nanos >= 0 {
      var dt := FromSystemTime(nanos);
      assert dt.seconds * NANOS + dt.nanoseconds == nanos;
      FlatteningIsExactIff(dt);
      MaximumIsYear2554();
    }
  }

  /** On times that fit, flattening preserves and reflects the order, and so is injective. */
  lemma {:induction false} FlatteningPreservesOrder(a: Datetime, b: Datetime)
    requires a.nanoseconds < NANOS && b.nanoseconds < NANOS && Fits(a) && Fits(b)
    ensures ToNanos(a) < ToNanos(b) <==> Before(a, b)
    ensures ToNanos(a) == ToNanos(b) <==> a == b
  {
    FlatteningIsExactIff(a);
    FlatteningIsExactIff(b);
  }
}
