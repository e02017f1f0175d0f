/** Many clients on one bucket, with every bucket read, expiry check, delete and write a separate step.
    A read that found an expired entry deletes it later, whatever is stored there by then. */
module TtlInterleaving {
  import opened Wrappers
  import opened KeyValueStore
  import T = TtlCache

  /** The arguments of a set and the clock reading its payload was made at. */
  datatype SetCall = SetCall(value: Bytes, ttl: Option<u64>, madeAt: int) {
    predicate Possible(c: T.Codec) {
      T.Payload(c, value, ttl, madeAt).Some?
    }

    function Stored(c: T.Codec): Bytes
      requires Possible(c)
    {
      T.Payload(c, value, ttl, madeAt).value
    }
  }

  /** What follows the read: the answer of `get`, or the write of `set`. */
  datatype Next = Answer | Store(call: SetCall)

  datatype Client =
    | Idle
    | Reading(key: string, next: Next)
    | Judging(key: string, entry: Bytes, next: Next)
    | Removing(key: string, judgedAt: int, next: Next)
    | Storing(key: string, previous: Option<Bytes>, judgedAt: int, call: SetCall)
    | Erasing(key: string)
    | Returned(key: string, result: Option<Bytes>, judgedAt: int)
    | Finished

  datatype State = State(clock: int, bucket: Bucket, clients: map<nat, Client>, log: seq<(string, SetCall)>) {
    function At(c: nat): Client {
      if c in clients then clients[c] else Idle
    }

    function Put(c: nat, client: Client): State {
      this.(clients := clients[c := client])
    }
  }

  datatype Action =
    | Tick(elapsed: nat)
    | CallGet(c: nat, key: string)
    | CallSet(c: nat, key: string, value: Bytes, ttl: Option<u64>)
    | CallDelete(c: nat, key: string)
    | Step(c: nat)

  function Init(clock: int): State {
    State(clock, map[], map[], [])
  }

  function Concluded(key: string, result: Option<Bytes>, at: int, next: Next): Client {
    match next
    case Answer => Returned(key, result, at)
    case Store(call) => Storing(key, result, at, call)
  }

  function ClientStep(codec: T.Codec, s: State, c: nat): State {
    match s.At(c)
    case Idle => s
    case Returned(_, _, _) => s
    case Finished => s
    case Reading(key, next) =>
      s.Put(c, if key in s.bucket then Judging(key, s.bucket[key], next) else Concluded(key, None, s.clock, next))
    case Judging(key, entry, next) =>
      s.Put(c, match T.Open(codec, entry, s.clock)
               case Some(value) => Concluded(key, Some(value), s.clock, next)
               case None => Removing(key, s.clock, next))
    case Removing(key, at, next) =>
      s.(bucket := s.bucket - {key}).Put(c, Concluded(key, None, at, next))
    case Storing(key, previous, at, call) =>
      if call.Possible(codec) then
        s.(bucket := s.bucket[key := call.Stored(codec)], log := s.log + [(key, call)])
        .Put(c, Returned(key, previous, at))
      else
        s.Put(c, Finished)
    case Erasing(key) => s.(bucket := s.bucket - {key}).Put(c, Finished)
  }

  /** One step; calls by a busy client change nothing, so every list of actions is a run. */
  function NextState(codec: T.Codec, s: State, a: Action): State {
    match a
    case Tick(elapsed) => s.(clock := s.clock + elapsed)
    case CallGet(c, key) => if s.At(c).Idle? then s.Put(c, Reading(key, Answer)) else s
    case CallSet(c, key, value, ttl) =>
      var call := SetCall(value, ttl, s.clock);
      if !s.At(c).Idle? then s
      else s.Put(c, if call.Possible(codec) then Reading(key, Store(call)) else Finished)
    case CallDelete(c, key) => if s.At(c).Idle? then s.Put(c, Erasing(key)) else s
    case Step(c) => ClientStep(codec, s, c)
  }

  function Run(codec: T.Codec, s: State, acts: seq<Action>): State {
    if acts == [] then s else NextState(codec, Run(codec, s, acts[..|acts| - 1]), acts[|acts| - 1])
  }

  // ---------- safety of every returned value ----------

  /** Some finished set of `key` stored exactly these bytes. */
  ghost predicate Logged(codec: T.Codec, log: seq<(string, SetCall)>, key: string, entry: Bytes) {
    exists i :: 0 <= i < |log| && log[i].0 == key && log[i].1.Possible(codec) && log[i].1.Stored(codec) == entry
  }

  /** A value handed to a client was stored for that key by some set and opens at the time judged. */
  ghost predicate Justified(codec: T.Codec, log: seq<(string, SetCall)>, key: string, result: Option<Bytes>, at: int) {
    result.Some? ==>
      exists i :: 0 <= i < |log| && log[i].0 == key && log[i].1.Possible(codec)
                  && T.Open(codec, log[i].1.Stored(codec), at) == result
  }

  /** Action `k` of the run is this set call, and its payload was made at the clock of that moment. */
  ghost predicate MadeAt(codec: T.Codec, clock: int, acts: seq<Action>, k: nat, key: string, call: SetCall)
    requires k < |acts|
  {
    && acts[k].CallSet? && acts[k].key == key && acts[k].value == call.value && acts[k].ttl == call.ttl
    && call.madeAt == Run(codec, Init(clock), acts[..k]).clock
  }

  ghost predicate Called(codec: T.Codec, clock: int, acts: seq<Action>, key: string, call: SetCall) {
    call.Possible(codec) && exists k :: 0 <= k < |acts| && MadeAt(codec, clock, acts, k, key, call)
  }

  /** Action `j` of the run is a step of client `c` taken at clock `at`, and the result was justified then. */
  ghost predicate JudgedAt(codec: T.Codec, clock: int, acts: seq<Action>, j: nat, c: nat, key: string,
                           result: Option<Bytes>, at: int)
    requires j < |acts|
  {
    var s := Run(codec, Init(clock), acts[..j]);
    acts[j] == Step(c) && s.clock == at && Justified(codec, s.log, key, result, at)
  }

  ghost predicate Judged(codec: T.Codec, clock: int, acts: seq<Action>, c: nat, key: string, result: Option<Bytes>,
                         at: int)
  {
    result.Some? ==> exists j :: 0 <= j < |acts| && JudgedAt(codec, clock, acts, j, c, key, result, at)
  }

  ghost predicate NextInv(codec: T.Codec, clock: int, acts: seq<Action>, key: string, next: Next) {
    next.Store? ==> Called(codec, clock, acts, key, next.call)
  }

  ghost predicate ClientInv(codec: T.Codec, clock: int, acts: seq<Action>, s: State, c: nat) {
    match s.At(c)
    case Idle => true
    case Finished => true
    case Erasing(_) => true
    case Reading(key, next) => NextInv(codec, clock, acts, key, next)
    case Judging(key, entry, next) => NextInv(codec, clock, acts, key, next) && Logged(codec, s.log, key, entry)
    case Removing(key, _, next) => NextInv(codec, clock, acts, key, next)
    case Storing(key, previous, at, call) =>
      Called(codec, clock, acts, key, call) && Judged(codec, clock, acts, c, key, previous, at)
    case Returned(key, result, at) => Judged(codec, clock, acts, c, key, result, at)
  }

  ghost predicate Inv(codec: T.Codec, clock: int, acts: seq<Action>, s: State) {
    && (forall key :: key in s.bucket ==> Logged(codec, s.log, key, s.bucket[key]))
    && (forall i :: 0 <= i < |s.log| ==> Called(codec, clock, acts, s.log[i].0, s.log[i].1))
    && forall c: nat :: ClientInv(codec, clock, acts, s, c)
  }

  lemma {:induction false} LogGrows(codec: T.Codec, log: seq<(string, SetCall)>, more: seq<(string, SetCall)>)
    ensures forall key, entry :: Logged(codec, log, key, entry) ==> Logged(codec, log + more, key, entry)
  {
    assert forall i :: 0 <= i < |log| ==> (log + more)[i] == log[i];
  }

  lemma {:induction false} CalledStays(codec: T.Codec, clock: int, acts: seq<Action>, a: Action, key: string,
                                       call: SetCall)
    requires Called(codec, clock, acts, key, call)
    ensures Called(codec, clock, acts + [a], key, call)
  {
    hide Run;
    var k :| 0 <= k < |acts| && MadeAt(codec, clock, acts, k, key, call);
    assert (acts + [a])[..k] == acts[..k];
    assert MadeAt(codec, clock, acts + [a], k, key, call);
  }

  lemma {:induction false} JudgedStays(codec: T.Codec, clock: int, acts: seq<Action>, a: Action, c: nat, key: string,
                                       result: Option<Bytes>, at: int)
    requires Judged(codec, clock, acts, c, key, result, at)
    ensures Judged(codec, clock, acts + [a], c, key, result, at)
  {
    hide Run, Justified;
    if result.Some? {
      var j :| 0 <= j < |acts| && JudgedAt(codec, clock, acts, j, c, key, result, at);
      assert (acts + [a])[..j] == acts[..j];
      assert JudgedAt(codec, clock, acts + [a], j, c, key, result, at);
    }
  }

  lemma {:induction false} ClientInvStays(codec: T.Codec, clock: int, acts: seq<Action>, a: Action, s: State, c: nat)
    requires ClientInv(codec, clock, acts, s, c)
    ensures ClientInv(codec, clock, acts + [a], s, c)
  {
    hide Called, Judged, Logged;
    match s.At(c) {
      case Reading(key, Store(call)) => CalledStays(codec, clock, acts, a, key, call);
      case Judging(key, _, Store(call)) => CalledStays(codec, clock, acts, a, key, call);
      case Removing(key, _, Store(call)) => CalledStays(codec, clock, acts, a, key, call);
      case Storing(key, previous, at, call) =>
        CalledStays(codec, clock, acts, a, key, call);
        JudgedStays(codec, clock, acts, a, c, key, previous, at);
      case Returned(key, result, at) => JudgedStays(codec, clock, acts, a, c, key, result, at);
      case _ =>
    }
  }

  lemma {:induction false} MoreActions(codec: T.Codec, clock: int, acts: seq<Action>, a: Action, s: State)
    requires Inv(codec, clock, acts, s)
    ensures Inv(codec, clock, acts + [a], s)
  {
    hide Called, Logged, ClientInv;
    forall i | 0 <= i < |s.log| ensures Called(codec, clock, acts + [a], s.log[i].0, s.log[i].1) {
      CalledStays(codec, clock, acts, a, s.log[i].0, s.log[i].1);
    }
    forall c: nat ensures ClientInv(codec, clock, acts + [a], s, c) {
      ClientInvStays(codec, clock, acts, a, s, c);
    }
  }

  /** A step of `c` as the last action of a run. */
  lemma {:induction false} JudgedNow(codec: T.Codec, clock: int, before: seq<Action>, c: nat, key: string,
                                     result: Option<Bytes>)
    requires Justified(codec, Run(codec, Init(clock), before).log, key, result, Run(codec, Init(clock), before).clock)
    ensures Judged(codec, clock, before + [Step(c)], c, key, result, Run(codec, Init(clock), before).clock)
  {
    hide Run, Justified;
    var acts := before + [Step(c)];
    assert acts[..|before|] == before;
    assert JudgedAt(codec, clock, acts, |before|, c, key, result, Run(codec, Init(clock), before).clock);
  }

  /** The stepping client's own invariant. */
  lemma {:induction false} StepperKeepsInv(codec: T.Codec, clock: int, before: seq<Action>, c: nat)
    requires ClientInv(codec, clock, before + [Step(c)], Run(codec, Init(clock), before), c)
    requires
      var s := Run(codec, Init(clock), before);
      forall key :: key in s.bucket ==> Logged(codec, s.log, key, s.bucket[key])
    ensures
      var s := Run(codec, Init(clock), before);
      ClientInv(codec, clock, before + [Step(c)], ClientStep(codec, s, c), c)
  {
    var s := Run(codec, Init(clock), before);
    hide Run, Called, Judged, T.Open;
    match s.At(c) {
      case Judging(key, entry, _) =>
        var found := T.Open(codec, entry, s.clock);
        if found.Some? {
          assert Justified(codec, s.log, key, found, s.clock);
          JudgedNow(codec, clock, before, c, key, found);
        }
      case Reading(key, _) => JudgedNow(codec, clock, before, c, key, None);
      case Removing(key, at, _) => NothingToJudge(codec, clock, before + [Step(c)], c, key, at);
      case _ =>
    }
  }

  lemma {:induction false} NothingToJudge(codec: T.Codec, clock: int, acts: seq<Action>, c: nat, key: string, at: int)
    ensures Judged(codec, clock, acts, c, key, None, at)
  {
  }

  lemma {:induction false} ClientStepKeepsInv(codec: T.Codec, clock: int, before: seq<Action>, c: nat)
    requires Inv(codec, clock, before + [Step(c)], Run(codec, Init(clock), before))
    ensures Inv(codec, clock, before + [Step(c)], ClientStep(codec, Run(codec, Init(clock), before), c))
  {
    var acts, s := before + [Step(c)], Run(codec, Init(clock), before);
    var t := ClientStep(codec, s, c);
    assert ClientInv(codec, clock, acts, s, c);
    StepperKeepsInv(codec, clock, before, c);
    StepLogsWhatItStores(codec, s, c);
    hide *;
    forall d: nat ensures ClientInv(codec, clock, acts, t, d) {
      assert ClientInv(codec, clock, acts, s, d);
      if d != c {
        OthersKeepInv(codec, clock, acts, s, t, d);
      }
    }
  }

  lemma {:induction false} OthersKeepInv(codec: T.Codec, clock: int, acts: seq<Action>, s: State, t: State, d: nat)
    requires t.At(d) == s.At(d) && ClientInv(codec, clock, acts, s, d)
    requires forall key, entry :: Logged(codec, s.log, key, entry) ==> Logged(codec, t.log, key, entry)
    ensures ClientInv(codec, clock, acts, t, d)
  {
    hide Called, Judged, Logged;
  }

  /** One client step logs what it stores and changes no other client. */
  lemma {:induction false} StepLogsWhatItStores(codec: T.Codec, s: State, c: nat)
    requires forall key :: key in s.bucket ==> Logged(codec, s.log, key, s.bucket[key])
    ensures
      var t := ClientStep(codec, s, c);
      && (forall key, entry :: Logged(codec, s.log, key, entry) ==> Logged(codec, t.log, key, entry))
      && (forall key :: key in t.bucket ==> Logged(codec, t.log, key, t.bucket[key]))
      && (t.log == s.log || (s.At(c).Storing? && t.log == s.log + [(s.At(c).key, s.At(c).call)]))
      && forall d: nat :: d != c ==> t.At(d) == s.At(d)
  {
    hide T.Open;
    var t := ClientStep(codec, s, c);
    var more := if s.At(c).Storing? && s.At(c).call.Possible(codec) then [(s.At(c).key, s.At(c).call)] else [];
    assert t.log == s.log + more;
    LogGrows(codec, s.log, more);
    forall key | key in t.bucket ensures Logged(codec, t.log, key, t.bucket[key]) {
      if more != [] && key == s.At(c).key {
        assert t.log[|s.log|] == more[0];
      }
    }
  }

  lemma {:induction false} CallKeepsInv(codec: T.Codec, clock: int, before: seq<Action>, a: Action)
    requires !a.Step?
    requires Inv(codec, clock, before + [a], Run(codec, Init(clock), before))
    ensures Inv(codec, clock, before + [a], NextState(codec, Run(codec, Init(clock), before), a))
  {
    var acts, s := before + [a], Run(codec, Init(clock), before);
    hide Run, Logged, Judged;
    var t := NextState(codec, s, a);
    forall c: nat ensures ClientInv(codec, clock, acts, t, c) {
      assert ClientInv(codec, clock, acts, s, c);
      if a.CallSet? && a.c == c && s.At(c).Idle? {
        assert acts[..|before|] == before;
        assert MadeAt(codec, clock, acts, |before|, a.key, SetCall(a.value, a.ttl, s.clock));
      }
    }
  }

  lemma {:induction false} RunKeepsInv(codec: T.Codec, clock: int, acts: seq<Action>)
    ensures Inv(codec, clock, acts, Run(codec, Init(clock), acts))
  {
    if acts != [] {
      var before, a := acts[..|acts| - 1], acts[|acts| - 1];
      RunKeepsInv(codec, clock, before);
      assert acts == before + [a];
      hide Inv, ClientStep;
      MoreActions(codec, clock, before, a, Run(codec, Init(clock), before));
      if a.Step? {
        ClientStepKeepsInv(codec, clock, before, a.c);
      } else {
        CallKeepsInv(codec, clock, before, a);
      }
    }
  }

  /** Action `k` is a set of exactly this value, and whatever lifetime it asked for, counted from the clock
      of that very call, has not run out at `at`. */
  ghost predicate Fresh(codec: T.Codec, clock: int, acts: seq<Action>, k: nat, key: string, value: Bytes, at: int)
    requires k < |acts|
  {
    var madeAt := Run(codec, Init(clock), acts[..k]).clock;
    && acts[k].CallSet? && acts[k].key == key && acts[k].value == value
    && (acts[k].ttl.Some? ==>
          && T.ExpiryOf(codec, madeAt, acts[k].ttl.value).Some?
          && at < T.FloorSec(T.ExpiryOf(codec, madeAt, acts[k].ttl.value).value) * NANOS)
  }

  lemma {:induction false} OpenedIsFresh(codec: T.Codec, clock: int, acts: seq<Action>, k: nat, key: string,
                                         call: SetCall, value: Bytes, at: int)
    requires codec.Lawful() && k < |acts| && MadeAt(codec, clock, acts, k, key, call)
    requires call.Possible(codec) && T.Open(codec, call.Stored(codec), at) == Some(value)
    requires call.ttl.None? ==> codec.decode(call.value).None?
    ensures Fresh(codec, clock, acts, k, key, value, at)
  {
    hide Run;
    if call.ttl.Some? {
      var e := T.Envelope(call.value, T.FloorSec(T.ExpiryOf(codec, call.madeAt, call.ttl.value).value));
      assert codec.decode(codec.encode(e)) == Some(e);
    }
  }

  /** However the steps of any clients interleave, a value returned by `get`, or as the previous value of
      `set`, is one that an earlier call set for that very key, and if that call gave it a lifetime, counted
      from the clock at that call, it had not run out at the clock of the step in which this client checked
      it. */
  lemma {:induction false} ReturnedValueWasSet(codec: T.Codec, clock: int, acts: seq<Action>, c: nat)
    returns (k: nat, j: nat)
    requires codec.Lawful()
    requires forall a :: a in acts && a.CallSet? && a.ttl.None? ==> codec.decode(a.value).None?
    requires Run(codec, Init(clock), acts).At(c).Returned?
    requires Run(codec, Init(clock), acts).At(c).result.Some?
    ensures k < j < |acts| && acts[j] == Step(c)
    ensures
      var Returned(key, result, at) := Run(codec, Init(clock), acts).At(c);
      && at == Run(codec, Init(clock), acts[..j]).clock
      && Fresh(codec, clock, acts, k, key, result.value, at)
  {
    RunKeepsInv(codec, clock, acts);
    assert ClientInv(codec, clock, acts, Run(codec, Init(clock), acts), c);
    var Returned(key, result, at) := Run(codec, Init(clock), acts).At(c);
    hide Run, T.Open;
    assert Judged(codec, clock, acts, c, key, result, at);
    j :| 0 <= j < |acts| && JudgedAt(codec, clock, acts, j, c, key, result, at);
    var earlier := acts[..j];
    RunKeepsInv(codec, clock, earlier);
    var log := Run(codec, Init(clock), earlier).log;
    var i :| 0 <= i < |log| && log[i].0 == key && log[i].1.Possible(codec)
             && T.Open(codec, log[i].1.Stored(codec), at) == result;
    assert Called(codec, clock, earlier, log[i].0, log[i].1);
    k :| 0 <= k < |earlier| && MadeAt(codec, clock, earlier, k, key, log[i].1);
    assert earlier[..k] == acts[..k] && earlier[k] == acts[k] && acts[k] in acts;
    assert MadeAt(codec, clock, acts, k, key, log[i].1);
    OpenedIsFresh(codec, clock, acts, k, key, log[i].1, result.value, at);
  }

  // ---------- when a stored value survives ----------

  /** The write this set will make leaves the entry as it is. */
  predicate SameWrite(codec: T.Codec, next: Next, entry: Bytes) {
    next.Store? && next.call.Possible(codec) ==> next.call.Stored(codec) == entry
  }

  /** While the clock stays below `until` this client will not change the entry of `key`: it is not about to
      delete it, holds no read of an entry that expires by then, and writes nothing else there. */
  ghost predicate Harmless(codec: T.Codec, client: Client, key: string, entry: Bytes, until: int) {
    match client
    case Reading(k, next) => k == key ==> SameWrite(codec, next, entry)
    case Judging(k, seen, next) =>
      k == key ==> SameWrite(codec, next, entry) && forall t: int :: t < until ==> T.Open(codec, seen, t).Some?
    case Removing(k, _, _) => k != key
    case Storing(k, _, _, call) => k == key ==> SameWrite(codec, Store(call), entry)
    case Erasing(k) => k != key
    case _ => true
  }

  ghost predicate AllHarmless(codec: T.Codec, s: State, key: string, until: int)
    requires key in s.bucket
  {
    forall c: nat :: Harmless(codec, s.At(c), key, s.bucket[key], until)
  }

  /** No action sets or deletes `key`; reads of it are allowed. */
  predicate OnlyReads(acts: seq<Action>, key: string) {
    forall a :: a in acts ==> !(a.CallSet? && a.key == key) && !(a.CallDelete? && a.key == key)
  }

  /** The entry of `key` is fresh below `until`. */
  ghost predicate FreshUntil(codec: T.Codec, s: State, key: string, until: int) {
    key in s.bucket && forall t: int :: t < until ==> T.Open(codec, s.bucket[key], t).Some?
  }

  /** An unexpired entry stays in place, byte for byte, through any interleaving of readers of its key and
      users of other keys, provided no client harms it. */
  lemma {:induction false} EntrySurvives(codec: T.Codec, s: State, acts: seq<Action>, key: string, until: int)
    requires FreshUntil(codec, s, key, until)
    requires AllHarmless(codec, s, key, until) && OnlyReads(acts, key)
    requires Run(codec, s, acts).clock < until
    ensures
      var t := Run(codec, s, acts);
      s.clock <= t.clock && key in t.bucket && t.bucket[key] == s.bucket[key] && AllHarmless(codec, t, key, until)
  {
    if acts != [] {
      var before, a := acts[..|acts| - 1], acts[|acts| - 1];
      assert acts == before + [a];
      var m, t := Run(codec, s, before), Run(codec, s, acts);
      assert m.clock <= t.clock;
      EntrySurvives(codec, s, before, key, until);
      assert a in acts;
      hide Run, T.Open;
      if a.Step? {
        assert Harmless(codec, m.At(a.c), key, s.bucket[key], until);
      }
      forall c: nat ensures Harmless(codec, t.At(c), key, s.bucket[key], until) {
        assert Harmless(codec, m.At(c), key, s.bucket[key], until);
      }
    }
  }

  /** The entry is the same after every run below `until` that neither sets nor deletes its key. */
  ghost predicate SurvivesReaders(codec: T.Codec, s: State, key: string, until: int)
    requires key in s.bucket
  {
    forall acts ::
      OnlyReads(acts, key) && Run(codec, s, acts).clock < until ==>
        key in Run(codec, s, acts).bucket && Run(codec, s, acts).bucket[key] == s.bucket[key]
  }

  lemma {:induction false} OpenStaysExpired(codec: T.Codec, entry: Bytes, t: int, later: int)
    requires T.Open(codec, entry, t).None? && t <= later
    ensures T.Open(codec, entry, later).None?
  {
  }

  /** A client that is not harmless ruins the entry by its own steps, if only the clock moves far enough. */
  lemma {:induction false} HarmfulClientRuins(codec: T.Codec, s: State, c: nat, key: string, until: int)
    returns (acts: seq<Action>)
    requires FreshUntil(codec, s, key, until) && s.clock < until
    requires !Harmless(codec, s.At(c), key, s.bucket[key], until)
    ensures OnlyReads(acts, key) && Run(codec, s, acts).clock < until
    ensures key in Run(codec, s, acts).bucket ==> Run(codec, s, acts).bucket[key] != s.bucket[key]
  {
    hide T.Open;
    var elapsed := 0;
    if s.At(c).Judging? && (exists t: int :: t < until && T.Open(codec, s.At(c).entry, t).None?) {
      var t: int :| t < until && T.Open(codec, s.At(c).entry, t).None?;
      elapsed := if t > s.clock then t - s.clock else 0;
      OpenStaysExpired(codec, s.At(c).entry, t, s.clock + elapsed);
    }
    acts := [Tick(elapsed), Step(c), Step(c), Step(c)];
    var s1 := NextState(codec, s, Tick(elapsed));
    var s2 := NextState(codec, s1, Step(c));
    var s3 := NextState(codec, s2, Step(c));
    RunFour(codec, s, acts);
    assert s1.bucket == s.bucket && s1.At(c) == s.At(c);
    if s.At(c).Removing? || s.At(c).Erasing? || s.At(c).Storing? {
      acts := acts[..2];
      RunTwo(codec, s, acts);
    } else if s.At(c).Judging? {
      acts := acts[..3];
      RunThree(codec, s, acts);
    }
  }

  lemma {:induction false} RunTwo(codec: T.Codec, s: State, acts: seq<Action>)
    requires |acts| == 2
    ensures Run(codec, s, acts) == NextState(codec, NextState(codec, s, acts[0]), acts[1])
  {
    hide NextState;
    assert acts[..1][..0] == [];
    assert Run(codec, s, acts[..1]) == NextState(codec, s, acts[0]);
  }

  lemma {:induction false} RunThree(codec: T.Codec, s: State, acts: seq<Action>)
    requires |acts| == 3
    ensures Run(codec, s, acts)
            == NextState(codec, NextState(codec, NextState(codec, s, acts[0]), acts[1]), acts[2])
  {
    RunTwo(codec, s, acts[..2]);
    hide NextState;
  }

  lemma {:induction false} RunFour(codec: T.Codec, s: State, acts: seq<Action>)
    requires |acts| == 4
    ensures Run(codec, s, acts)
            == NextState(codec,
                         NextState(codec, NextState(codec, NextState(codec, s, acts[0]), acts[1]), acts[2]), acts[3])
  {
    RunThree(codec, s, acts[..3]);
    hide NextState;
  }

  /** Exactly when an unexpired entry is safe: it survives every run of readers of its key and users of other
      keys below `until` if and only if no client is about to delete it, holds a read of an entry that will
      have expired, or is about to write something else. */
  lemma {:induction false} EntrySurvivesIff(codec: T.Codec, s: State, key: string, until: int)
    requires FreshUntil(codec, s, key, until) && s.clock < until
    ensures SurvivesReaders(codec, s, key, until) <==> AllHarmless(codec, s, key, until)
  {
    hide Run, T.Open, Harmless;
    if AllHarmless(codec, s, key, until) {
      forall acts | OnlyReads(acts, key) && Run(codec, s, acts).clock < until
        ensures key in Run(codec, s, acts).bucket && Run(codec, s, acts).bucket[key] == s.bucket[key]
      {
        EntrySurvives(codec, s, acts, key, until);
      }
    } else {
      var c: nat :| !Harmless(codec, s.At(c), key, s.bucket[key], until);
      var acts := HarmfulClientRuins(codec, s, c, key, until);
    }
  }

  /** Several actions in a row, seen from the front. */
  lemma {:induction false} RunCons(codec: T.Codec, s: State, a: Action, acts: seq<Action>)
    ensures Run(codec, s, [a] + acts) == Run(codec, NextState(codec, s, a), acts)
  {
    if acts == [] {
      assert [a] + acts == [a] && [a][..0] == [];
    } else {
      assert ([a] + acts)[..|acts|] == [a] + acts[..|acts| - 1];
      RunCons(codec, s, a, acts[..|acts| - 1]);
    }
  }

  function JudgeSchedule(r: nat, key: string): seq<Action> {
    [CallGet(r, key), Step(r), Step(r)]
  }

  function SetSchedule(w: nat, key: string, value: Bytes, ttl: Option<u64>): seq<Action> {
    [CallSet(w, key, value, ttl), Step(w), Step(w), Step(w), Step(w)]
  }

  lemma {:induction false} JudgeExpired(codec: T.Codec, s: State, r: nat, key: string, more: seq<Action>)
    returns (t: State)
    requires key in s.bucket && T.Open(codec, s.bucket[key], s.clock).None?
    requires s.At(r).Idle?
    ensures Run(codec, s, JudgeSchedule(r, key) + more) == Run(codec, t, more)
    ensures t == s.Put(r, Removing(key, s.clock, Answer))
  {
    var s1 := NextState(codec, s, CallGet(r, key));
    var s2 := NextState(codec, s1, Step(r));
    t := NextState(codec, s2, Step(r));
    assert t.clients == s.clients[r := Removing(key, s.clock, Answer)];
    assert JudgeSchedule(r, key) + more == [CallGet(r, key)] + ([Step(r)] + ([Step(r)] + more));
    RunCons(codec, s, CallGet(r, key), [Step(r)] + ([Step(r)] + more));
    RunCons(codec, s1, Step(r), [Step(r)] + more);
    RunCons(codec, s2, Step(r), more);
  }

  lemma {:induction false} SetOverExpired(codec: T.Codec, s: State, w: nat, key: string, value: Bytes,
                                          ttl: Option<u64>, more: seq<Action>)
    returns (t: State)
    requires key in s.bucket && T.Open(codec, s.bucket[key], s.clock).None?
    requires s.At(w).Idle?
    requires SetCall(value, ttl, s.clock).Possible(codec)
    ensures Run(codec, s, SetSchedule(w, key, value, ttl) + more) == Run(codec, t, more)
    ensures t.clients == s.clients[w := Returned(key, None, s.clock)] && t.clock == s.clock
    ensures key in t.bucket && t.bucket[key] == SetCall(value, ttl, s.clock).Stored(codec)
  {
    var call := SetCall(value, ttl, s.clock);
    var s1 := NextState(codec, s, CallSet(w, key, value, ttl));
    var s2 := NextState(codec, s1, Step(w));
    assert s2.At(w) == Judging(key, s.bucket[key], Store(call));
    var s3 := NextState(codec, s2, Step(w));
    var s4 := NextState(codec, s3, Step(w));
    assert s4.At(w) == Storing(key, None, s.clock, call);
    t := NextState(codec, s4, Step(w));
    assert t.clients == s.clients[w := Returned(key, None, s.clock)];
    var m1 := [Step(w)] + more;
    var m2 := [Step(w)] + m1;
    var m3 := [Step(w)] + m2;
    var m4 := [Step(w)] + m3;
    assert SetSchedule(w, key, value, ttl) + more == [CallSet(w, key, value, ttl)] + m4;
    RunCons(codec, s, CallSet(w, key, value, ttl), m4);
    RunCons(codec, s1, Step(w), m3);
    RunCons(codec, s2, Step(w), m2);
    RunCons(codec, s3, Step(w), m1);
    RunCons(codec, s4, Step(w), more);
  }

  /** A harmful client is always in reach. Whenever an expired entry lies in the bucket, any set over it can
      be lost: reader `r` judges the old entry, client `w` completes its set, reader `r` then deletes the new
      value, and reader `x` finds nothing although no time has passed. */
  lemma {:induction false} StaleReaderDeletesFreshValue(codec: T.Codec, s: State, r: nat, w: nat, x: nat,
                                                        key: string, value: Bytes, ttl: Option<u64>)
    requires key in s.bucket && T.Open(codec, s.bucket[key], s.clock).None?
    requires r != w && w != x && x != r && s.At(r).Idle? && s.At(w).Idle? && s.At(x).Idle?
    requires SetCall(value, ttl, s.clock).Possible(codec)
    ensures
      var stored := Run(codec, s, JudgeSchedule(r, key) + SetSchedule(w, key, value, ttl));
      && stored.At(w) == Returned(key, None, s.clock)
      && key in stored.bucket && stored.bucket[key] == SetCall(value, ttl, s.clock).Stored(codec)
    ensures
      var lost := Run(codec, s, JudgeSchedule(r, key) + (SetSchedule(w, key, value, ttl)
                                                      + [Step(r), CallGet(x, key), Step(x)]));
      lost.At(x) == Returned(key, None, s.clock) && lost.clock == s.clock
  {
    var tail := [Step(r), CallGet(x, key), Step(x)];
    var setting := SetSchedule(w, key, value, ttl);
    var judged := JudgeExpired(codec, s, r, key, setting);
    var judged' := JudgeExpired(codec, s, r, key, setting + tail);
    assert setting + [] == setting;
    var stored := SetOverExpired(codec, judged, w, key, value, ttl, []);
    var stored' := SetOverExpired(codec, judged, w, key, value, ttl, tail);
    var s1 := NextState(codec, stored', Step(r));
    var s2 := NextState(codec, s1, CallGet(x, key));
    assert tail == [Step(r)] + ([CallGet(x, key)] + ([Step(x)] + []));
    RunCons(codec, stored', Step(r), [CallGet(x, key)] + ([Step(x)] + []));
    RunCons(codec, s1, CallGet(x, key), [Step(x)] + []);
    RunCons(codec, s2, Step(x), []);
    assert stored'.At(r) == Removing(key, s.clock, Answer) && stored'.At(x).Idle?;
    assert key !in s1.bucket && s2.At(x) == Reading(key, Answer);
  }
}
