/** The outbound `handle`: parser, response codec, TTL cache and bucket composed, against the origin. */
module HttpCache {
  import opened Wrappers
  import opened KeyValueStore
  import opened CacheControl
  import opened CachedResponse
  import T = TtlCache

  /** A response body as the stream delivers it: the chunks of completed reads, then the chunk of the read
      that reports the end. */
  datatype Stream = Stream(chunks: seq<Bytes>, last: Bytes)

  /** What the origin answers if asked; a body may already have been taken. */
  datatype Origin = Unreachable | Reply(status: nat, headers: HeaderMap, body: Option<Stream>)

  /** One call of `handle`: its two cache headers, the origin's answer, and the clock readings of the
      lookup (`t1`), of the envelope (`t2`) and of the read before the write (`t3`). */
  datatype Call = Call(cacheControl: Option<string>, ifNoneMatch: Option<string>, origin: Origin,
                       t1: int, t2: int, t3: int)

  datatype Env = Env(ttl: T.Codec, ser: ResponseCodec) {
    ghost predicate Lawful() {
      ttl.Lawful() && ser.Lawful()
    }
  }

  datatype HandleError =
    | BadControl(control: ControlError)
    | Undecodable
    | Unbuildable(build: BuildError)
    | OriginFailed
    | Aborted

  const ETAG := "etag"

  function Concat(chunks: seq<Bytes>): Bytes {
    if chunks == [] then [] else Concat(chunks[..|chunks| - 1]) + chunks[|chunks| - 1]
  }

  function BodyOf(body: Option<Stream>): Bytes {
    match body
    case None => []
    case Some(stream) => Concat(stream.chunks) + stream.last
  }

  /** The response of the origin with its whole body. */
  function Fetched(origin: Origin): Result<Response, HandleError> {
    match origin
    case Unreachable => Err(OriginFailed)
    case Reply(status, headers, body) => Ok(Response(status, headers, BodyOf(body)))
  }

  function WithEtag(r: Response, etag: string): Response {
    r.(headers := Insert(r.headers, ETAG, etag))
  }

  function Deserialized(ser: ResponseCodec, data: Bytes): Result<Response, HandleError> {
    match ser.decode(data)
    case None => Err(Undecodable)
    case Some(s) =>
      match Built(s)
      case Err(e) => Err(Unbuildable(e))
      case Ok(r) => Ok(r)
  }

  predicate Looks(control: Control) {
    !control.noCache && !control.noStore && control.etag != ""
  }

  predicate Stores(control: Control) {
    !control.noStore && control.etag != "" && control.maxAge != 0
  }

  /** A call that goes to the origin, tags the response, and stores it if the control asks for it. */
  function Forwarded(env: Env, b: Bucket, control: Control, call: Call): (Result<Response, HandleError>, Bucket) {
    match Fetched(call.origin)
    case Err(e) => (Err(e), b)
    case Ok(fetched) =>
      var r := WithEtag(fetched, control.etag);
      if !Stores(control) then
        (Ok(r), b)
      else
        var data := env.ser.encode(ToSerialized(r));
        var (previous, after) := T.SetOutcome(env.ttl, b, control.etag, data, Some(control.maxAge), call.t2, call.t3);
        (if previous.Ok? then Ok(r) else Err(Aborted), after)
  }

  /** The answer of one call and the bucket it leaves behind. */
  function Handled(env: Env, b: Bucket, call: Call): (Result<Response, HandleError>, Bucket) {
    if call.cacheControl.None? then
      (Fetched(call.origin), b)
    else
      match Parsed(call.cacheControl, call.ifNoneMatch)
      case Err(e) => (Err(BadControl(e)), b)
      case Ok(control) =>
        if !Looks(control) then
          Forwarded(env, b, control, call)
        else
          match T.Visible(env.ttl, b, control.etag, call.t1)
          case Some(data) => (Deserialized(env.ser, data), b)
          case None => Forwarded(env, T.Swept(env.ttl, b, control.etag, call.t1), control, call)
  }

  // ---------- what the body of a miss is ----------

  /** The number of bytes in the first `k` chunks. */
  function Offset(chunks: seq<Bytes>, k: nat): nat
    requires k <= |chunks|
  {
    if k == 0 then 0 else Offset(chunks, k - 1) + |chunks[k - 1]|
  }

  lemma {:induction false} OffsetsIncrease(chunks: seq<Bytes>, k: nat, n: nat)
    requires k <= n <= |chunks|
    ensures Offset(chunks, k) <= Offset(chunks, n)
    decreases n
  {
    if k < n {
      OffsetsIncrease(chunks, k, n - 1);
    }
  }

  /** The body holds every chunk read at its own offset, then the chunk of the ending read, and no more. */
  ghost predicate IsWholeBody(stream: Stream, body: Bytes) {
    var total := Offset(stream.chunks, |stream.chunks|);
    && |body| == total + |stream.last|
    && body[total..] == stream.last
    && forall k :: 0 <= k < |stream.chunks| ==> HasChunk(stream.chunks, k, body)
  }

  ghost predicate HasChunk(chunks: seq<Bytes>, k: nat, body: Bytes)
    requires k < |chunks|
  {
    && Offset(chunks, k + 1) <= |body|
    && body[Offset(chunks, k)..Offset(chunks, k + 1)] == chunks[k]
  }

  lemma {:induction false} ConcatHasChunk(chunks: seq<Bytes>, n: nat, k: nat)
    requires k < n <= |chunks|
    ensures |Concat(chunks[..n])| == Offset(chunks, n)
    ensures HasChunk(chunks, k, Concat(chunks[..n]))
    decreases n
  {
    ConcatLength(chunks, n);
    ConcatLength(chunks, n - 1);
    assert chunks[..n][..n - 1] == chunks[..n - 1];
    if k < n - 1 {
      ConcatHasChunk(chunks, n - 1, k);
      assert Concat(chunks[..n])[Offset(chunks, k)..Offset(chunks, k + 1)]
          == Concat(chunks[..n - 1])[Offset(chunks, k)..Offset(chunks, k + 1)];
    }
  }

  lemma {:induction false} ConcatLength(chunks: seq<Bytes>, n: nat)
    requires n <= |chunks|
    ensures |Concat(chunks[..n])| == Offset(chunks, n)
  {
    if n > 0 {
      assert chunks[..n][..n - 1] == chunks[..n - 1];
      ConcatLength(chunks, n - 1);
    }
  }

  lemma {:induction false} BodyIsWhole(stream: Stream)
    ensures IsWholeBody(stream, BodyOf(Some(stream)))
  {
    var chunks, n, body := stream.chunks, |stream.chunks|, BodyOf(Some(stream));
    assert chunks[..n] == chunks;
    ConcatLength(chunks, n);
    forall k | 0 <= k < n ensures HasChunk(chunks, k, body) {
      ConcatHasChunk(chunks, n, k);
      OffsetsIncrease(chunks, k + 1, n);
      assert body[Offset(chunks, k)..Offset(chunks, k + 1)]
          == Concat(chunks)[Offset(chunks, k)..Offset(chunks, k + 1)];
    }
  }

  // ---------- the imperative form ----------

  method ReadBody(stream: Stream) returns (body: Bytes)
    ensures body == BodyOf(Some(stream))
    ensures IsWholeBody(stream, body)
  {
    BodyIsWhole(stream);
    body := [];
    var i := 0;
    while true
      invariant 0 <= i <= |stream.chunks|
      invariant body == Concat(stream.chunks[..i])
      decreases |stream.chunks| - i
    {
      var complete := i < |stream.chunks|;
      var read := if complete then stream.chunks[i] else stream.last;
      body := body + read;
      if !complete {
        assert stream.chunks[..i] == stream.chunks;
        break;
      }
      assert stream.chunks[..i + 1][..i] == stream.chunks[..i];
      i := i + 1;
    }
  }

  class Client {
    const env: Env
    const keyValue: KeyValueDefault

    constructor (env: Env, keyValue: KeyValueDefault)
      ensures this.env == env && this.keyValue == keyValue
    {
      this.env, this.keyValue := env, keyValue;
    }

    method Lookup(bucketName: string, control: Control, t1: int)
      returns (hit: Result<Option<Response>, HandleError>)
      modifies keyValue
      ensures Contents(keyValue.store, bucketName) ==
              var b := Contents(old(keyValue.store), bucketName);
              if Looks(control) then T.Swept(env.ttl, b, control.etag, t1) else b
      ensures hit ==
              var b := Contents(old(keyValue.store), bucketName);
              if !Looks(control) || T.Visible(env.ttl, b, control.etag, t1).None? then Ok(None)
              else match Deserialized(env.ser, T.Visible(env.ttl, b, control.etag, t1).value)
              case Ok(r) => Ok(Some(r))
              case Err(e) => Err(e)
      ensures forall other :: other != bucketName ==>
                                Contents(keyValue.store, other) == Contents(old(keyValue.store), other)
    {
      if control.noCache || control.noStore || control.etag == "" {
        return Ok(None);
      }
      var bucket := keyValue.OpenBucket(bucketName);
      var cache := new T.Cache(env.ttl, bucket);
      var data := cache.Get(control.etag, t1);
      if data.None? {
        return Ok(None);
      }
      var record := env.ser.decode(data.value);
      if record.None? {
        return Err(Undecodable);
      }
      var built := FromSerialized(record.value);
      match built
      case Err(e) => return Err(Unbuildable(e));
      case Ok(r) => return Ok(Some(r));
    }

    method Put(bucketName: string, control: Control, response: Response, t2: int, t3: int)
      returns (stored: Result<(), HandleError>)
      modifies keyValue
      ensures
        var b := Contents(old(keyValue.store), bucketName);
        if !Stores(control) then stored == Ok(()) && Contents(keyValue.store, bucketName) == b
        else
          var (previous, after) := T.SetOutcome(env.ttl, b, control.etag, env.ser.encode(ToSerialized(response)),
                                                Some(control.maxAge), t2, t3);
          && stored == (if previous.Ok? then Ok(()) else Err(Aborted))
          && Contents(keyValue.store, bucketName) == after
      ensures forall other :: other != bucketName ==>
                                Contents(keyValue.store, other) == Contents(old(keyValue.store), other)
    {
      if control.noStore || control.etag == "" || control.maxAge == 0 {
        return Ok(());
      }
      var bucket := keyValue.OpenBucket(bucketName);
      var cache := new T.Cache(env.ttl, bucket);
      var data := env.ser.encode(ToSerialized(response));
      var previous := cache.Set(control.etag, data, Some(control.maxAge), t2, t3);
      return if previous.Ok? then Ok(()) else Err(Aborted);
    }

    method Handle(bucketName: string, call: Call) returns (r: Result<Response, HandleError>)
      modifies keyValue
      ensures (r, Contents(keyValue.store, bucketName))
              == Handled(env, Contents(old(keyValue.store), bucketName), call)
      ensures forall other :: other != bucketName ==>
                                Contents(keyValue.store, other) == Contents(old(keyValue.store), other)
    {
      var maybeControl: Option<Control> := None;
      if call.cacheControl.Some? {
        var parsed := Parse(call.cacheControl, call.ifNoneMatch);
        if parsed.Err? {
          return Err(BadControl(parsed.error));
        }
        maybeControl := Some(parsed.value);
        var hit := Lookup(bucketName, parsed.value, call.t1);
        match hit {
          case Err(e) => return Err(e);
          case Ok(Some(cached)) => return Ok(cached);
          case Ok(None) =>
        }
      }
      if call.origin.Unreachable? {
        return Err(OriginFailed);
      }
      var body: Bytes := [];
      if call.origin.body.Some? {
        body := ReadBody(call.origin.body.value);
      }
      var response := Response(call.origin.status, call.origin.headers, body);
      if maybeControl.Some? {
        response := response.(headers := Insert(response.headers, ETAG, maybeControl.value.etag));
        var stored := Put(bucketName, maybeControl.value, response, call.t2, call.t3);
        if stored.Err? {
          return Err(stored.error);
        }
      }
      return Ok(response);
    }
  }

  // ---------- runs on one bucket used only by `handle` ----------

  /** The bucket after a list of calls that starts with an empty one. */
  function After(env: Env, calls: seq<Call>): Bucket {
    if calls == [] then map[] else Handled(env, After(env, calls[..|calls| - 1]), calls[|calls| - 1]).1
  }

  function ResultOf(env: Env, calls: seq<Call>, i: nat): Result<Response, HandleError>
    requires i < |calls|
  {
    Handled(env, After(env, calls[..i]), calls[i]).0
  }

  /** The call consults the cache, under this entity tag. */
  predicate LooksUp(call: Call, etag: string) {
    && call.cacheControl.Some?
    && Parsed(call.cacheControl, call.ifNoneMatch).Ok?
    && Looks(Parsed(call.cacheControl, call.ifNoneMatch).value)
    && Parsed(call.cacheControl, call.ifNoneMatch).value.etag == etag
  }

  function MaxAgeOf(call: Call): u64 {
    if call.cacheControl.Some? && Parsed(call.cacheControl, call.ifNoneMatch).Ok?
    then Parsed(call.cacheControl, call.ifNoneMatch).value.maxAge else 0
  }

  predicate IsHit(env: Env, b: Bucket, call: Call, etag: string) {
    LooksUp(call, etag) && T.Visible(env.ttl, b, etag, call.t1).Some?
  }

  /** The call stores the origin's response under this entity tag. */
  predicate IsStore(env: Env, b: Bucket, call: Call, etag: string) {
    && LooksUp(call, etag)
    && !IsHit(env, b, call, etag)
    && call.origin.Reply?
    && MaxAgeOf(call) != 0
    && T.ExpiryOf(env.ttl, call.t2, MaxAgeOf(call)).Some?
  }

  predicate HitAt(env: Env, calls: seq<Call>, i: nat, etag: string)
    requires i < |calls|
  {
    IsHit(env, After(env, calls[..i]), calls[i], etag)
  }

  predicate StoreAt(env: Env, calls: seq<Call>, i: nat, etag: string)
    requires i < |calls|
  {
    IsStore(env, After(env, calls[..i]), calls[i], etag)
  }

  /** The response the call returns if it goes to the origin. */
  function Sent(call: Call, etag: string): Response
    requires call.origin.Reply?
  {
    WithEtag(Fetched(call.origin).value, etag)
  }

  function StoredUntil(env: Env, call: Call): int
    requires T.ExpiryOf(env.ttl, call.t2, MaxAgeOf(call)).Some?
  {
    T.FloorSec(T.ExpiryOf(env.ttl, call.t2, MaxAgeOf(call)).value)
  }

  function StoredBytes(env: Env, call: Call, etag: string): Bytes
    requires call.origin.Reply? && T.ExpiryOf(env.ttl, call.t2, MaxAgeOf(call)).Some?
  {
    env.ttl.encode(T.Envelope(env.ser.encode(ToSerialized(Sent(call, etag))), StoredUntil(env, call)))
  }

  /** The origin only sends what the response type can hold. */
  predicate ValidOrigin(call: Call) {
    call.origin.Reply? ==> Fetched(call.origin).value.Valid()
  }

  ghost predicate AllValid(calls: seq<Call>) {
    forall i :: 0 <= i < |calls| ==> ValidOrigin(calls[i])
  }

  /** One call changes only the entry of its own entity tag, and writes it only when it stores. */
  lemma {:induction false} HandledEntry(env: Env, b: Bucket, call: Call, etag: string)
    requires env.Lawful()
    ensures
      var after := Handled(env, b, call).1;
      && (IsStore(env, b, call, etag) ==> etag in after && after[etag] == StoredBytes(env, call, etag))
      && (!IsStore(env, b, call, etag) && etag in after ==> etag in b && after[etag] == b[etag])
      && (!IsStore(env, b, call, etag) && etag in b && !LooksUp(call, etag) ==> etag in after)
      && (IsHit(env, b, call, etag) ==> after == b)
  {
    if call.cacheControl.Some? {
      var p := Parsed(call.cacheControl, call.ifNoneMatch);
      if p.Ok? && Looks(p.value) && p.value.etag == etag {
        assert LooksUp(call, etag);
      }
      if p.Ok? {
        ParsedControlIsOneOfThree(call.cacheControl.value, call.ifNoneMatch);
      }
    }
  }

  /** Call `j` is the latest before the end of `calls` that stored under `etag`. */
  ghost predicate LastStore(env: Env, calls: seq<Call>, j: nat, etag: string) {
    j < |calls| && StoreAt(env, calls, j, etag)
    && forall l :: j < l < |calls| ==> !StoreAt(env, calls, l, etag)
  }

  /** Whatever the bucket holds under a tag is the envelope of the latest response stored under it. */
  lemma {:induction false} EntryComesFromLastStore(env: Env, calls: seq<Call>, etag: string) returns (j: nat)
    requires env.Lawful()
    requires etag in After(env, calls)
    ensures LastStore(env, calls, j, etag)
    ensures After(env, calls)[etag] == StoredBytes(env, calls[j], etag)
  {
    hide Handled, Parsed, LooksUp, MaxAgeOf, IsHit, T.ExpiryOf, StoredBytes, StoredUntil, Fetched;
    var before, call := calls[..|calls| - 1], calls[|calls| - 1];
    var b := After(env, before);
    HandledEntry(env, b, call, etag);
    assert forall l :: 0 <= l <= |before| ==> calls[..l] == before[..l];
    assert before[..|before|] == before;
    if IsStore(env, b, call, etag) {
      j := |before|;
    } else {
      j := EntryComesFromLastStore(env, before, etag);
      forall l | j < l < |calls| ensures !StoreAt(env, calls, l, etag) {
        if l < |before| {
          assert !StoreAt(env, before, l, etag);
        }
      }
      assert StoreAt(env, before, j, etag);
    }
  }

  /** What opening a stored envelope and decoding its record gives. */
  lemma {:induction false} OpenStored(env: Env, call: Call, etag: string, t: int)
    requires env.Lawful() && ValidOrigin(call) && call.origin.Reply?
    requires T.ExpiryOf(env.ttl, call.t2, MaxAgeOf(call)).Some?
    ensures
      var content := T.Open(env.ttl, StoredBytes(env, call, etag), t);
      if t < StoredUntil(env, call) * NANOS
      then content.Some? && Deserialized(env.ser, content.value) == Ok(Lossy(Sent(call, etag)))
      else content.None?
  {
    var record := ToSerialized(Sent(call, etag));
    var envelope := T.Envelope(env.ser.encode(record), StoredUntil(env, call));
    assert env.ttl.decode(env.ttl.encode(envelope)) == Some(envelope);
    assert env.ser.decode(env.ser.encode(record)) == Some(record);
    InsertKeepsWellFormed(Fetched(call.origin).value.headers, ETAG, etag);
    RoundTrip(Sent(call, etag));
  }

  /** Freshness. In every run, a hit returns the response of the latest call that stored under the same
      entity tag, read strictly before the whole second at which its lifetime ends. */
  lemma {:induction false} HitIsFreshLastStore(env: Env, calls: seq<Call>, i: nat, etag: string) returns (j: nat)
    requires env.Lawful() && AllValid(calls)
    requires i < |calls| && HitAt(env, calls, i, etag)
    ensures j < i && LastStore(env, calls[..i], j, etag)
    ensures ResultOf(env, calls, i) == Ok(Lossy(Sent(calls[j], etag)))
    ensures calls[i].t1 < StoredUntil(env, calls[j]) * NANOS
                        <= T.ExpiryOf(env.ttl, calls[j].t2, MaxAgeOf(calls[j])).value
  {
    j := EntryComesFromLastStore(env, calls[..i], etag);
    assert calls[..i][..j] == calls[..j];
    OpenStored(env, calls[j], etag, calls[i].t1);
  }

  predicate Clocked(calls: seq<Call>) {
    && (forall i :: 0 <= i < |calls| ==> calls[i].t1 <= calls[i].t2 <= calls[i].t3)
    && forall i, j :: 0 <= i < j < |calls| ==> calls[i].t3 <= calls[j].t1
  }

  lemma {:induction false} FreshStepKeeps(env: Env, b: Bucket, call: Call, stored: Call, etag: string)
    requires env.Lawful() && ValidOrigin(stored) && stored.origin.Reply?
    requires T.ExpiryOf(env.ttl, stored.t2, MaxAgeOf(stored)).Some?
    requires etag in b && b[etag] == StoredBytes(env, stored, etag)
    requires call.t1 < StoredUntil(env, stored) * NANOS
    ensures etag in Handled(env, b, call).1 && Handled(env, b, call).1[etag] == b[etag]
  {
    HandledEntry(env, b, call, etag);
    OpenStored(env, stored, etag, call.t1);
  }

  /** A stored entry cannot be overwritten nor swept while it is fresh. */
  lemma {:induction false} FreshEntryStays(env: Env, calls: seq<Call>, j: nat, k: nat, etag: string)
    requires env.Lawful() && AllValid(calls)
    requires j < k <= |calls| && StoreAt(env, calls, j, etag)
    requires forall l :: j < l < k ==> calls[l].t1 < StoredUntil(env, calls[j]) * NANOS
    ensures
      var b := After(env, calls[..k]);
      etag in b && b[etag] == StoredBytes(env, calls[j], etag)
    decreases k
  {
    hide Handled, Parsed, LooksUp, MaxAgeOf, IsHit, T.ExpiryOf, StoredBytes, StoredUntil, Fetched;
    assert calls[..k][..k - 1] == calls[..k - 1];
    var b := After(env, calls[..k - 1]);
    assert After(env, calls[..k]) == Handled(env, b, calls[k - 1]).1;
    if j < k - 1 {
      FreshEntryStays(env, calls, j, k - 1, etag);
      FreshStepKeeps(env, b, calls[k - 1], calls[j], etag);
    } else {
      HandledEntry(env, b, calls[j], etag);
    }
  }

  /** The converse. Once a response is stored, every later call that looks up its entity tag before the
      truncated expiry is a hit on that very response: no call in between can replace it. */
  lemma {:induction false} FreshStoreIsHit(env: Env, calls: seq<Call>, j: nat, i: nat, etag: string)
    requires env.Lawful() && AllValid(calls) && Clocked(calls)
    requires j < i < |calls| && StoreAt(env, calls, j, etag) && LooksUp(calls[i], etag)
    requires calls[i].t1 < StoredUntil(env, calls[j]) * NANOS
    ensures HitAt(env, calls, i, etag)
    ensures ResultOf(env, calls, i) == Ok(Lossy(Sent(calls[j], etag)))
  {
    assert forall l :: j < l < i ==> calls[l].t1 <= calls[l].t3 <= calls[i].t1;
    FreshEntryStays(env, calls, j, i, etag);
    OpenStored(env, calls[j], etag, calls[i].t1);
  }

  /** For lifetimes within the duration type the window is `max-age` seconds from the second of the store. */
  lemma {:induction false} FreshWindow(env: Env, call: Call)
    requires MaxAgeOf(call) <= T.MAX_DURATION_SECS
    requires T.ExpiryOf(env.ttl, call.t2, MaxAgeOf(call)).Some?
    ensures StoredUntil(env, call) == T.FloorSec(call.t2) + MaxAgeOf(call)
    ensures call.t2 + (MaxAgeOf(call) - 1) * NANOS < StoredUntil(env, call) * NANOS <= call.t2 + MaxAgeOf(call) * NANOS
  {
    T.ExpiryTruncation(env.ttl, call.t2, MaxAgeOf(call));
  }

  // ---------- transparency ----------

  /** The answer without any cache: the origin's response, tagged if the call has cache headers. */
  function Uncached(call: Call): Result<Response, HandleError> {
    if call.cacheControl.None? then
      Fetched(call.origin)
    else
      match Parsed(call.cacheControl, call.ifNoneMatch)
      case Err(e) => Err(BadControl(e))
      case Ok(control) =>
        match Fetched(call.origin)
        case Err(e) => Err(e)
        case Ok(r) => Ok(WithEtag(r, control.etag))
  }

  /** Calls under one entity tag would get the same response from the origin, however its body is split. */
  ghost predicate OriginFollowsEtag(calls: seq<Call>) {
    forall i, j, etag :: 0 <= i < |calls| && 0 <= j < |calls| && LooksUp(calls[i], etag) && LooksUp(calls[j], etag)
                         ==> Fetched(calls[i].origin) == Fetched(calls[j].origin)
  }

  /** Header values are text, and lifetimes stay within what the date type can represent. */
  ghost predicate Cacheable(env: Env, call: Call) {
    && (call.origin.Reply? ==> AllVisible(call.origin.headers))
    && (MaxAgeOf(call) != 0 ==> T.ExpiryOf(env.ttl, call.t2, MaxAgeOf(call)).Some?)
  }

  /** The cache is invisible: if the origin's response is a function of the entity tag, every call of every
      run returns exactly what it would have got from the origin, hit or miss, at any times. */
  lemma {:induction false} CacheIsTransparent(env: Env, calls: seq<Call>, i: nat)
    requires env.Lawful() && AllValid(calls) && OriginFollowsEtag(calls)
    requires forall k :: 0 <= k < |calls| ==> Cacheable(env, calls[k])
    requires i < |calls|
    ensures ResultOf(env, calls, i) == Uncached(calls[i])
  {
    hide Handled, Parsed, Uncached, Sent, T.ExpiryOf, StoredUntil, LooksUp, MaxAgeOf, Fetched;
    var call := calls[i];
    if etag :| HitAt(env, calls, i, etag) {
      var j := HitIsFreshLastStore(env, calls, i, etag);
      assert calls[..i][..j] == calls[..j];
      assert LooksUp(calls[j], etag) && LooksUp(call, etag);
      assert Fetched(calls[j].origin) == Fetched(call.origin);
      SameFetchedReplies(calls[j].origin, call.origin);
      StoredIsUncached(calls[j], call, etag);
    } else {
      MissAsksOrigin(env, After(env, calls[..i]), call) by {
        assert forall etag :: HitAt(env, calls, i, etag) == IsHit(env, After(env, calls[..i]), call, etag);
      }
    }
  }

  lemma {:induction false} SameFetchedReplies(a: Origin, b: Origin)
    requires a.Reply? && Fetched(a) == Fetched(b)
    ensures b.Reply?
  {
  }

  lemma {:induction false} StoredIsUncached(stored: Call, call: Call, etag: string)
    requires LooksUp(call, etag) && stored.origin.Reply? && Fetched(stored.origin) == Fetched(call.origin)
    requires call.origin.Reply? && AllVisible(call.origin.headers) && ValidOrigin(call)
    ensures Uncached(call) == Ok(Lossy(Sent(stored, etag)))
  {
    hide Parsed, Insert, WellFormed, Rebuilt, Flatten;
    ParsedControlIsOneOfThree(call.cacheControl.value, call.ifNoneMatch);
    InsertKeepsVisible(call.origin.headers, ETAG, etag);
    InsertKeepsWellFormed(call.origin.headers, ETAG, etag);
    RoundTrip(Sent(call, etag));
    RoundTripIsExactIff(Sent(call, etag));
  }

  lemma {:induction false} MissAsksOrigin(env: Env, b: Bucket, call: Call)
    requires Cacheable(env, call)
    requires forall etag :: !IsHit(env, b, call, etag)
    ensures Handled(env, b, call).0 == Uncached(call)
  {
    if call.cacheControl.Some? && Parsed(call.cacheControl, call.ifNoneMatch).Ok? {
      ParsedControlIsOneOfThree(call.cacheControl.value, call.ifNoneMatch);
      hide Parsed;
      assert !IsHit(env, b, call, Parsed(call.cacheControl, call.ifNoneMatch).value.etag);
    }
  }

  /** What "tagged" means: one `ETag` value, the control's, and every other header as the origin sent it;
      status untouched, and the body whole. */
  lemma {:induction false} UncachedSetsEtag(call: Call, control: Control, name: string)
    requires call.cacheControl.Some? && call.origin.Reply?
    requires Parsed(call.cacheControl, call.ifNoneMatch) == Ok(control)
    ensures Uncached(call).Ok?
    ensures
      var r := Uncached(call).value;
      && r.status == call.origin.status
      && (if call.origin.body.Some? then IsWholeBody(call.origin.body.value, r.body) else r.body == [])
      && Values(r.headers, name) == if name == "etag" then [control.etag] else Values(call.origin.headers, name)
  {
    hide Parsed, Offset;
    InsertSetsOne(call.origin.headers, ETAG, control.etag, name);
    if call.origin.body.Some? {
      BodyIsWhole(call.origin.body.value);
    }
  }

  /** Without a `Cache-Control` header the answer is the origin's, whole and unchanged, or its failure. */
  lemma {:induction false} NoHeaderPassesThrough(env: Env, b: Bucket, call: Call)
    requires call.cacheControl.None?
    ensures Handled(env, b, call).1 == b
    ensures call.origin.Unreachable? ==> Handled(env, b, call).0 == Err(OriginFailed)
    ensures call.origin.Reply? ==>
              && Handled(env, b, call).0.Ok?
              && var r := Handled(env, b, call).0.value;
                 && r.status == call.origin.status && r.headers == call.origin.headers
                 && if call.origin.body.Some? then IsWholeBody(call.origin.body.value, r.body) else r.body == []
  {
    if call.origin.Reply? && call.origin.body.Some? {
      BodyIsWhole(call.origin.body.value);
    }
  }

  /** A miss whose `max-age` makes the expiry impossible aborts although the origin has answered; the bucket
      keeps what the lookup left. For a lifetime below 2^63 seconds that is exactly when its milliseconds do
      not fit 63 bits or the expiry date does not exist. */
  lemma {:induction false} MissAbortsIff(env: Env, b: Bucket, call: Call, etag: string)
    requires env.Lawful() && LooksUp(call, etag) && !IsHit(env, b, call, etag)
    requires call.origin.Reply? && 0 < MaxAgeOf(call) < 0x8000_0000_0000_0000
    ensures
      var until := call.t2 / 1_000_000_000 + MaxAgeOf(call);
      var possible := MaxAgeOf(call) <= 9_223_372_036_854_775 && env.ttl.minDate <= until <= env.ttl.maxDate;
      && (Handled(env, b, call).0 == Err(Aborted) <==> !possible)
      && (possible ==> Handled(env, b, call).0 == Ok(Sent(call, etag)))
      && (!possible ==> Handled(env, b, call).1 == T.Swept(env.ttl, b, etag, call.t1))
  {
    var swept := T.Swept(env.ttl, b, etag, call.t1);
    var data := env.ser.encode(ToSerialized(Sent(call, etag)));
    T.SetWithLifetime(env.ttl, swept, etag, data, MaxAgeOf(call), call.t2, call.t3);
    ParsedControlIsOneOfThree(call.cacheControl.value, call.ifNoneMatch);
    hide Parsed, T.SetOutcome, T.Swept, T.Visible;
  }

  // ---------- where the code departs from its documentation ----------

  /** A `no-cache` call never changes the bucket: the parser gives it no entity tag, so nothing is stored
      "for future requests". */
  lemma {:induction false} NoCacheNeverStores(env: Env, b: Bucket, call: Call)
    requires call.cacheControl.Some? && NoCache in Directives(call.cacheControl.value)
    ensures Handled(env, b, call).1 == b
  {
    if Parsed(call.cacheControl, call.ifNoneMatch).Ok? {
      ParsedControlIsOneOfThree(call.cacheControl.value, call.ifNoneMatch);
    }
  }

  /** A `no-store` call is answered like one without the header exactly when the origin already sent a
      single empty entity tag: otherwise the origin's tag is replaced by the empty one. */
  lemma {:induction false} NoStoreReplacesEtag(env: Env, b: Bucket, call: Call)
    requires call.cacheControl.Some? && call.origin.Reply?
    requires Parsed(call.cacheControl, call.ifNoneMatch).Ok?
    requires NoStore in Directives(call.cacheControl.value)
    ensures Handled(env, b, call).0 == Fetched(call.origin) <==> Values(call.origin.headers, ETAG) == [""]
    ensures Handled(env, b, call).1 == b
  {
    ParsedControlIsOneOfThree(call.cacheControl.value, call.ifNoneMatch);
    InsertIsIdentityIff(call.origin.headers, ETAG, "");
  }

  lemma {:induction false} InsertIsIdentityIff(h: HeaderMap, name: string, value: string)
    ensures Insert(h, name, value) == h <==> Values(h, name) == [value]
  {
    if h != [] && h[0].name != name {
      InsertIsIdentityIff(h[1..], name, value);
      assert h == [h[0]] + h[1..];
      assert Insert(h, name, value)[1..] == Insert(h[1..], name, value);
    } else if h != [] {
      assert h == [h[0]] + h[1..];
      assert Insert(h, name, value)[0] == Entry(name, [value]);
    }
  }
}
