/** The TTL cache over a bucket: values set with a lifetime travel in an envelope whose expiry is cut to
    whole seconds, and expired entries are deleted only when somebody reads them. */
module TtlCache {
  import opened Wrappers
  import opened KeyValueStore

  /** A cached value and the second at which it expires. */
  datatype Envelope = Envelope(value: Bytes, expiresAt: int)

  /** The serialisation of envelopes, and the seconds the date type can represent. */
  datatype Codec = Codec(encode: Envelope -> Bytes, decode: Bytes -> Option<Envelope>, minDate: int, maxDate: int) {
    predicate InRange(seconds: int) {
      minDate <= seconds <= maxDate
    }

    ghost predicate Lawful() {
      forall e: Envelope :: InRange(e.expiresAt) ==> decode(encode(e)) == Some(e)
    }
  }

  /** The longest duration in seconds the duration type accepts: the largest i64 of milliseconds. */
  const MAX_DURATION_SECS: int := (TWO_TO_THE_63 - 1) / 1000

  function CastSigned(secs: u64): int {
    if secs < TWO_TO_THE_63 then secs else secs - TWO_TO_THE_64
  }

  function FloorSec(nanos: int): int {
    nanos / NANOS
  }

  /** The expiry in nanoseconds of a value set at `now`; `None` where the duration constructor or the
      date addition aborts. */
  function ExpiryOf(c: Codec, now: int, ttl: u64): Option<int> {
    var secs := CastSigned(ttl);
    if !(-MAX_DURATION_SECS <= secs <= MAX_DURATION_SECS) then
      None
    else if !c.InRange(FloorSec(now + secs * NANOS)) then
      None
    else
      Some(now + secs * NANOS)
  }

  /** The bytes stored for a value: itself, or its envelope. */
  function Payload(c: Codec, value: Bytes, ttl: Option<u64>, now: int): Option<Bytes> {
    match ttl
    case None => Some(value)
    case Some(secs) =>
      match ExpiryOf(c, now, secs)
      case None => None
      case Some(at) => Some(c.encode(Envelope(value, FloorSec(at))))
  }

  predicate IsExpired(e: Envelope, now: int) {
    now >= e.expiresAt * NANOS
  }

  /** What a reader at `now` makes of stored bytes. */
  function Open(c: Codec, entry: Bytes, now: int): Option<Bytes> {
    match c.decode(entry)
    case None => Some(entry)
    case Some(e) => if IsExpired(e, now) then None else Some(e.value)
  }

  function Visible(c: Codec, b: Bucket, key: string, now: int): Option<Bytes> {
    if key in b then Open(c, b[key], now) else None
  }

  /** The bucket after a read: an expired entry is gone. */
  function Swept(c: Codec, b: Bucket, key: string, now: int): Bucket {
    if key in b && Open(c, b[key], now).None? then b - {key} else b
  }

  datatype Error = Aborted

  /** A set makes its payload at `t1`, reads the previous value at `t2`, then writes. */
  function SetOutcome(c: Codec, b: Bucket, key: string, value: Bytes, ttl: Option<u64>, t1: int, t2: int)
    : (Result<Option<Bytes>, Error>, Bucket)
  {
    match Payload(c, value, ttl, t1)
    case None => (Err(Aborted), b)
    case Some(bytes) => (Ok(Visible(c, b, key, t2)), Swept(c, b, key, t2)[key := bytes])
  }

  class Cache {
    const codec: Codec
    const bucket: InMemBucket

    constructor (codec: Codec, bucket: InMemBucket)
      ensures this.codec == codec && this.bucket == bucket
    {
      this.codec, this.bucket := codec, bucket;
    }

    method Get(key: string, now: int) returns (value: Option<Bytes>)
      modifies bucket.backend
      ensures value == old(Visible(codec, bucket.View(), key, now))
      ensures bucket.View() == old(Swept(codec, bucket.View(), key, now))
      ensures forall other :: other != bucket.name ==>
                                Contents(bucket.backend.store, other) == Contents(old(bucket.backend.store), other)
    {
      var entry := bucket.Get(key);
      if entry.None? {
        return None;
      }
      var envelope := codec.decode(entry.value);
      if envelope.None? {
        return Some(entry.value);
      }
      if IsExpired(envelope.value, now) {
        bucket.Delete(key);
        return None;
      }
      return Some(envelope.value.value);
    }

    method Set(key: string, value: Bytes, ttl: Option<u64>, t1: int, t2: int)
      returns (previous: Result<Option<Bytes>, Error>)
      modifies bucket.backend
      ensures (previous, bucket.View()) == SetOutcome(codec, old(bucket.View()), key, value, ttl, t1, t2)
      ensures forall other :: other != bucket.name ==>
                                Contents(bucket.backend.store, other) == Contents(old(bucket.backend.store), other)
    {
      var payload := Payload(codec, value, ttl, t1);
      if payload.None? {
        return Err(Aborted);
      }
      var seen := Get(key, t2);
      bucket.Set(key, payload.value);
      return Ok(seen);
    }

    method Delete(key: string)
      modifies bucket.backend
      ensures bucket.View() == old(bucket.View()) - {key}
      ensures forall other :: other != bucket.name ==>
                                Contents(bucket.backend.store, other) == Contents(old(bucket.backend.store), other)
    {
      bucket.Delete(key);
    }
  }

  // ---------- the specification: a map of values with an optional expiry, never swept ----------

  /** A value and the nanosecond from which it is gone, if any. */
  datatype Timed = Timed(value: Bytes, until: Option<int>)

  type TimedMap = map<string, Timed>

  function Current(m: TimedMap, key: string, now: int): Option<Bytes> {
    if key !in m || (m[key].until.Some? && m[key].until.value <= now) then None else Some(m[key].value)
  }

  datatype Op =
    | Get(key: string, t: int)
    | Set(key: string, value: Bytes, ttl: Option<u64>, t1: int, t2: int)
    | Delete(key: string, t: int)
  {
    function First(): int { if Set? then t1 else t }
    function Last(): int { if Set? then t2 else t }
  }

  datatype Answer = Value(value: Option<Bytes>) | Previous(previous: Result<Option<Bytes>, Error>) | Deleted

  function CacheStep(c: Codec, b: Bucket, op: Op): (Answer, Bucket) {
    match op
    case Get(key, t) => (Value(Visible(c, b, key, t)), Swept(c, b, key, t))
    case Set(key, value, ttl, t1, t2) =>
      var (previous, after) := SetOutcome(c, b, key, value, ttl, t1, t2);
      (Previous(previous), after)
    case Delete(key, _) => (Deleted, b - {key})
  }

  function SpecStep(c: Codec, m: TimedMap, op: Op): (Answer, TimedMap) {
    match op
    case Get(key, t) => (Value(Current(m, key, t)), m)
    case Set(key, value, None, t1, t2) =>
      (Previous(Ok(Current(m, key, t2))), m[key := Timed(value, None)])
    case Set(key, value, Some(secs), t1, t2) =>
      (match ExpiryOf(c, t1, secs)
       case None => (Previous(Err(Aborted)), m)
       case Some(at) => (Previous(Ok(Current(m, key, t2))), m[key := Timed(value, Some(FloorSec(at) * NANOS))]))
    case Delete(key, _) => (Deleted, m - {key})
  }

  function CacheRun(c: Codec, b: Bucket, ops: seq<Op>): seq<Answer>
    decreases ops
  {
    if ops == [] then [] else
    var (answer, after) := CacheStep(c, b, ops[0]);
    [answer] + CacheRun(c, after, ops[1..])
  }

  function SpecRun(c: Codec, m: TimedMap, ops: seq<Op>): seq<Answer>
    decreases ops
  {
    if ops == [] then [] else
    var (answer, after) := SpecStep(c, m, ops[0]);
    [answer] + SpecRun(c, after, ops[1..])
  }

  /** Clock readings never go back, within an operation and from one to the next. */
  predicate Clocked(ops: seq<Op>, start: int) {
    ops == [] || (start <= ops[0].First() <= ops[0].Last() && Clocked(ops[1..], ops[0].Last()))
  }

  /** No value set without a lifetime happens to read as an envelope. */
  predicate PlainValues(c: Codec, ops: seq<Op>) {
    forall op :: op in ops && op.Set? && op.ttl.None? ==> c.decode(op.value).None?
  }

  /** Bucket and timed map answer every reader from `start` on alike. */
  ghost predicate Agree(c: Codec, b: Bucket, m: TimedMap, start: int) {
    forall key: string, t: int :: start <= t ==> Visible(c, b, key, t) == Current(m, key, t)
  }

  lemma {:induction false} SweepIsUnobservable(c: Codec, b: Bucket, key: string, now: int)
    ensures forall k: string, t: int :: now <= t ==>
                                          Visible(c, Swept(c, b, key, now), k, t) == Visible(c, b, k, t)
  {
  }

  lemma {:induction false} SetAgrees(c: Codec, b: Bucket, m: TimedMap, start: int, op: Op)
    requires c.Lawful() && Agree(c, b, m, start)
    requires op.Set? && start <= op.t1 <= op.t2
    requires op.ttl.None? ==> c.decode(op.value).None?
    ensures CacheStep(c, b, op).0 == SpecStep(c, m, op).0
    ensures Agree(c, CacheStep(c, b, op).1, SpecStep(c, m, op).1, op.t2)
  {
    assert Visible(c, b, op.key, op.t2) == Current(m, op.key, op.t2);
    var b', m' := CacheStep(c, b, op).1, SpecStep(c, m, op).1;
    var payload := Payload(c, op.value, op.ttl, op.t1);
    if payload.Some? {
      if op.ttl.Some? {
        var at := FloorSec(ExpiryOf(c, op.t1, op.ttl.value).value);
        assert c.decode(c.encode(Envelope(op.value, at))) == Some(Envelope(op.value, at));
      }
      SweepIsUnobservable(c, b, op.key, op.t2);
      forall key: string, t: int | op.t2 <= t ensures Visible(c, b', key, t) == Current(m', key, t) {
        if key != op.key {
          assert Visible(c, b', key, t) == Visible(c, b, key, t);
          assert Visible(c, b, key, t) == Current(m, key, t);
        }
      }
    } else {
      forall key: string, t: int | op.t2 <= t ensures Visible(c, b', key, t) == Current(m', key, t) {
        assert Visible(c, b, key, t) == Current(m, key, t);
      }
    }
  }

  lemma {:induction false} StepAgrees(c: Codec, b: Bucket, m: TimedMap, start: int, op: Op)
    requires c.Lawful() && Agree(c, b, m, start)
    requires start <= op.First() <= op.Last()
    requires op.Set? && op.ttl.None? ==> c.decode(op.value).None?
    ensures CacheStep(c, b, op).0 == SpecStep(c, m, op).0
    ensures Agree(c, CacheStep(c, b, op).1, SpecStep(c, m, op).1, op.Last())
  {
    if op.Set? {
      SetAgrees(c, b, m, start, op);
    } else {
      var b', m' := CacheStep(c, b, op).1, SpecStep(c, m, op).1;
      SweepIsUnobservable(c, b, op.key, op.t);
      forall key: string, t: int | op.t <= t ensures Visible(c, b', key, t) == Current(m', key, t) {
        assert Visible(c, b, key, t) == Current(m, key, t);
      }
    }
  }

  /** Every run of get, set and delete answers exactly as the timed map does: lazy deletion, the
      envelope and the truncation to seconds show only as the expiry `floor(now + ttl)`. */
  lemma {:induction false} CacheRefinesTimedMap(c: Codec, b: Bucket, m: TimedMap, ops: seq<Op>, start: int)
    requires c.Lawful() && Agree(c, b, m, start)
    requires Clocked(ops, start) && PlainValues(c, ops)
    ensures CacheRun(c, b, ops) == SpecRun(c, m, ops)
    decreases ops
  {
    if ops != [] {
      var op := ops[0];
      assert op in ops && forall o :: o in ops[1..] ==> o in ops;
      StepAgrees(c, b, m, start, op);
      CacheRefinesTimedMap(c, CacheStep(c, b, op).1, SpecStep(c, m, op).1, ops[1..], op.Last());
    }
  }

  /** The side condition is exact: a value set without a lifetime is readable at every time precisely
      when it does not itself decode as an envelope. */
  lemma {:induction false} PlainValueIsKeptIff(c: Codec, b: Bucket, key: string, value: Bytes, t1: int, t2: int)
    ensures (forall t: int :: Visible(c, SetOutcome(c, b, key, value, None, t1, t2).1, key, t) == Some(value))
            <==> c.decode(value).None?
  {
    var after := SetOutcome(c, b, key, value, None, t1, t2).1;
    if c.decode(value).Some? {
      var t := c.decode(value).value.expiresAt * NANOS;
      assert Visible(c, after, key, t) == None;
    }
  }

  /** What a set with a lifetime does, for every 64-bit lifetime: read as a signed number of seconds, it is
      accepted exactly if its milliseconds fit 63 bits and the expiry date, cut to seconds, exists; then it
      returns what was visible before, and the value is visible exactly until that second. Otherwise the
      call aborts and nothing changes. */
  lemma {:induction false} SetWithLifetime(c: Codec, b: Bucket, key: string, value: Bytes, ttl: u64, t1: int, t2: int)
    requires c.Lawful()
    ensures
      var secs := if ttl < 0x8000_0000_0000_0000 then ttl else ttl - 0x1_0000_0000_0000_0000;
      var until := t1 / 1_000_000_000 + secs;
      var (previous, after) := SetOutcome(c, b, key, value, Some(ttl), t1, t2);
      && (previous.Ok? <==>
            -9_223_372_036_854_775 <= secs <= 9_223_372_036_854_775 && c.minDate <= until <= c.maxDate)
      && (previous.Ok? ==>
            && previous.value == Visible(c, b, key, t2)
            && (forall t: int :: Visible(c, after, key, t) == if t < until * 1_000_000_000 then Some(value) else None)
            && forall k: string, t: int :: k != key ==> Visible(c, after, k, t) == Visible(c, b, k, t))
      && (previous.Err? ==> after == b)
  {
    var secs := if ttl < 0x8000_0000_0000_0000 then ttl else ttl - 0x1_0000_0000_0000_0000;
    var until := t1 / 1_000_000_000 + secs;
    assert FloorSec(t1 + secs * NANOS) == until;
    if SetOutcome(c, b, key, value, Some(ttl), t1, t2).0.Ok? {
      var e := Envelope(value, until);
      assert c.decode(c.encode(e)) == Some(e);
    }
  }

  /** For ordinary lifetimes the expiry is whole seconds after the second of the call; it never exceeds
      the exact one and falls short of it by less than a second. */
  lemma {:induction false} ExpiryTruncation(c: Codec, now: int, ttl: u64)
    requires ttl <= MAX_DURATION_SECS && ExpiryOf(c, now, ttl).Some?
    ensures FloorSec(ExpiryOf(c, now, ttl).value) == FloorSec(now) + ttl
    ensures FloorSec(ExpiryOf(c, now, ttl).value) * NANOS <= now + ttl * NANOS
    ensures now + ttl * NANOS < (FloorSec(ExpiryOf(c, now, ttl).value) + 1) * NANOS
  {
  }

  /** The signed cast turns the largest lifetimes into negative ones: such a value is stored already
      expired, and lifetimes in between abort. */
  lemma {:induction false} HugeLifetimes(c: Codec, now: int, ttl: u64)
    requires ttl > MAX_DURATION_SECS
    ensures ttl < TWO_TO_THE_64 - MAX_DURATION_SECS ==> ExpiryOf(c, now, ttl).None?
    ensures ExpiryOf(c, now, ttl).Some? ==>
              FloorSec(ExpiryOf(c, now, ttl).value) * NANOS < now
  {
  }
}
