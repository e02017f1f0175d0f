/** `increment`: a big-endian counter in a bucket entry, read and written in two separate bucket
    operations. Arithmetic wraps at 64 bits, as the release profile builds it. */
module Counter {
  import opened Wrappers
  import opened KeyValueStore

  type i64 = x: int | -TWO_TO_THE_63 <= x < TWO_TO_THE_63

  /** Two's-complement wrap-around. */
  function Wrap(x: int): i64 {
    (x + TWO_TO_THE_63) % TWO_TO_THE_64 - TWO_TO_THE_63
  }

  function Unsigned(x: i64): nat {
    if x >= 0 then x else x + TWO_TO_THE_64
  }

  function FromBe(bytes: Bytes): nat {
    if bytes == [] then 0 else FromBe(bytes[..|bytes| - 1]) * 256 + bytes[|bytes| - 1] as nat
  }

  function ToBe(n: nat, width: nat): (bytes: Bytes)
    ensures |bytes| == width
  {
    if width == 0 then [] else ToBe(n / 256, width - 1) + [(n % 256) as byte]
  }

  function Zeros(n: nat): Bytes {
    seq(n, _ => 0)
  }

  /** The first eight bytes, zeros appended if there are fewer. */
  function Padded(bytes: Bytes): (buf: Bytes)
    ensures |buf| == 8
  {
    if |bytes| >= 8 then bytes[..8] else bytes + Zeros(8 - |bytes|)
  }

  function Decode(bytes: Bytes): i64 {
    Wrap(FromBe(Padded(bytes)))
  }

  function Encode(x: i64): (bytes: Bytes) {
    ToBe(Unsigned(x), 8)
  }

  function Pow256(width: nat): nat {
    if width == 0 then 1 else 256 * Pow256(width - 1)
  }

  lemma {:induction false} TotalIfInRange(total: int)
    ensures -TWO_TO_THE_63 <= total < TWO_TO_THE_63 ==> Wrap(total) == total
  {
  }

  lemma {:induction false} FromBeToBe(n: nat, width: nat)
    requires n < Pow256(width)
    ensures FromBe(ToBe(n, width)) == n
  {
    if width > 0 {
      FromBeToBe(n / 256, width - 1);
      assert ToBe(n, width)[..width - 1] == ToBe(n / 256, width - 1);
    }
  }

  lemma {:induction false} Pow256Of8()
    ensures Pow256(8) == TWO_TO_THE_64
  {
    assert Pow256(4) == 0x1_0000_0000;
    assert Pow256(8) == 256 * (256 * (256 * (256 * Pow256(4))));
  }

  lemma {:induction false} WrapIsIdentity(x: i64)
    ensures Wrap(x) == x && Wrap(Unsigned(x)) == x
  {
  }

  /** Decoding undoes encoding for every 64-bit integer. */
  lemma {:induction false} DecodeEncode(x: i64)
    ensures |Encode(x)| == 8 && Decode(Encode(x)) == x
  {
    Pow256Of8();
    FromBeToBe(Unsigned(x), 8);
    assert Padded(Encode(x)) == Encode(x);
    WrapIsIdentity(x);
  }

  /** Big-endian: the first of two parts counts 256 times for every byte behind it. */
  lemma {:induction false} FromBeAppend(a: Bytes, b: Bytes, x: byte)
    ensures FromBe([]) == 0 && FromBe([x]) == x as nat
    ensures FromBe(a + b) == FromBe(a) * Pow256(|b|) + FromBe(b)
    ensures FromBe(b) < Pow256(|b|)
  {
    assert [x][..0] == [];
    if b == [] {
      assert a + b == a;
    } else {
      var init, last := b[..|b| - 1], b[|b| - 1];
      assert (a + b)[..|a + b| - 1] == a + init;
      FromBeAppend(a, init, x);
      assert FromBe(a + b) == FromBe(a + init) * 256 + last as nat;
      ScaleBy256(FromBe(a), Pow256(|init|), FromBe(init));
    }
  }

  lemma {:induction false} ScaleBy256(n: nat, p: nat, m: nat)
    ensures (n * p + m) * 256 == n * (256 * p) + m * 256
  {
  }

  lemma {:induction false} ToBeFromBe(bytes: Bytes)
    ensures ToBe(FromBe(bytes), |bytes|) == bytes
  {
    if bytes != [] {
      ToBeFromBe(bytes[..|bytes| - 1]);
    }
  }

  /** Encoding undoes decoding for every eight bytes. */
  lemma {:induction false} EncodeDecode(bytes: Bytes)
    requires |bytes| == 8
    ensures Encode(Decode(bytes)) == bytes
  {
    FromBeAppend([], bytes, 0);
    Pow256Of8();
    ToBeFromBe(bytes);
    assert bytes[..8] == bytes;
    hide ToBe, FromBe, Pow256;
    UnsignedOfWrap(FromBe(bytes));
  }

  lemma {:induction false} UnsignedOfWrap(n: nat)
    requires n < TWO_TO_THE_64
    ensures Unsigned(Wrap(n)) == n
  {
  }

  /** Only the first eight bytes count. */
  lemma {:induction false} LongValuesAreCut(bytes: Bytes)
    requires |bytes| >= 8
    ensures Decode(bytes) == Decode(bytes[..8])
  {
    assert bytes[..8][..8] == bytes[..8];
  }

  lemma {:induction false} ZerosOnTheRight(bytes: Bytes, k: nat)
    ensures FromBe(bytes + Zeros(k)) == FromBe(bytes) * Pow256(k)
  {
    if k == 0 {
      assert bytes + Zeros(0) == bytes;
    } else {
      ZerosOnTheRight(bytes, k - 1);
      assert (bytes + Zeros(k))[..|bytes| + k - 1] == bytes + Zeros(k - 1);
    }
  }

  lemma {:induction false} PaddedIsZeros(bytes: Bytes)
    requires |bytes| <= 8
    ensures Padded(bytes) == bytes + Zeros(8 - |bytes|)
  {
    assert bytes[..|bytes|] == bytes;
  }

  lemma {:induction false} DecodeIs(bytes: Bytes, n: nat)
    requires FromBe(Padded(bytes)) == n
    ensures Decode(bytes) == Wrap(n)
  {
  }

  /** A value shorter than eight bytes is padded behind, so it counts for far more than its bytes say: it
      is scaled by 256 for every missing byte. */
  lemma {:induction false} ShortValuesAreScaled(bytes: Bytes)
    requires |bytes| <= 8
    ensures Decode(bytes) == Wrap(FromBe(bytes) * Pow256(8 - |bytes|))
  {
    hide *;
    PaddedIsZeros(bytes);
    ZerosOnTheRight(bytes, 8 - |bytes|);
    DecodeIs(bytes, FromBe(bytes) * Pow256(8 - |bytes|));
  }

  /** Wrapping early or late makes no difference. */
  lemma {:induction false} WrapAbsorbs(x: int, d: int)
    ensures Wrap(Wrap(x) + d) == Wrap(x + d)
  {
    var m := TWO_TO_THE_64;
    var h := TWO_TO_THE_63;
    var k := (x + h) / m;
    assert Wrap(x) == x - k * m;
    assert (x - k * m + d + h) % m == (x + d + h) % m by {
      ModShift(x + d + h, k);
    }
  }

  lemma {:induction false} ModShift(a: int, k: int)
    ensures (a - k * TWO_TO_THE_64) % TWO_TO_THE_64 == a % TWO_TO_THE_64
  {
    var m := TWO_TO_THE_64;
    var q, r := a / m, a % m;
    assert a - k * m == (q - k) * m + r;
  }

  // ---------- one call ----------

  datatype Error = NoValue(key: string)

  method Increment(bucket: InMemBucket, key: string, delta: i64) returns (r: Result<i64, Error>)
    modifies bucket.backend
    ensures key !in old(bucket.View()) ==> r == Err(NoValue(key)) && bucket.backend.store == old(bucket.backend.store)
    ensures key in old(bucket.View()) ==>
              && r == Ok(Wrap(Decode(old(bucket.View())[key]) + delta))
              && bucket.View() == old(bucket.View())[key := Encode(r.value)]
    ensures forall other :: other != bucket.name ==>
                              Contents(bucket.backend.store, other) == Contents(old(bucket.backend.store), other)
  {
    var value := bucket.Get(key);
    if value.None? {
      return Err(NoValue(key));
    }
    var slice := value.value;
    var buf := new byte[8](_ => 0);
    var len := if |slice| < 8 then |slice| else 8;
    for i := 0 to len
      modifies buf
      invariant buf[..i] == slice[..i]
      invariant forall j :: i <= j < 8 ==> buf[j] == 0
    {
      buf[i] := slice[i];
      assert buf[..i + 1] == buf[..i] + [slice[i]];
      assert slice[..i + 1] == slice[..i] + [slice[i]];
    }
    assert buf[..] == Padded(slice);
    var inc := Wrap(Wrap(FromBe(buf[..])) + delta);
    bucket.Set(key, Encode(inc));
    return Ok(inc);
  }

  // ---------- serial runs ----------

  function Sum(deltas: seq<i64>): int {
    if deltas == [] then 0 else Sum(deltas[..|deltas| - 1]) + deltas[|deltas| - 1]
  }

  /** The stored bytes after a serial list of increments of an existing key. */
  function Counted(initial: Bytes, deltas: seq<i64>): Bytes {
    if deltas == [] then initial
    else Encode(Wrap(Decode(Counted(initial, deltas[..|deltas| - 1])) + deltas[|deltas| - 1]))
  }

  /** What the calls of that list return, in order. */
  function Results(initial: Bytes, deltas: seq<i64>): seq<i64> {
    if deltas == [] then []
    else
      var before := deltas[..|deltas| - 1];
      Results(initial, before) + [Wrap(Decode(Counted(initial, before)) + deltas[|deltas| - 1])]
  }

  /** One increment of an entry that holds a wrapped sum holds the next wrapped sum. */
  lemma {:induction false} IncrementAddsDelta(bytes: Bytes, sum: int, delta: i64)
    requires Decode(bytes) == Wrap(sum)
    ensures Wrap(Decode(bytes) + delta) == Wrap(sum + delta)
    ensures Decode(Encode(Wrap(Decode(bytes) + delta))) == Wrap(sum + delta)
  {
    WrapAbsorbs(sum, delta);
    DecodeEncode(Wrap(sum + delta));
  }

  /** Each call of a serial list of increments returns its partial sum, wrapped, and so exactly while the sum
      fits in 64 bits. */
  lemma {:induction false} SerialResults(initial: Bytes, deltas: seq<i64>, k: nat)
    requires k < |deltas|
    ensures |Results(initial, deltas)| == |deltas|
    ensures
      var partial := Decode(initial) + Sum(deltas[..k + 1]);
      && Results(initial, deltas)[k] == Wrap(partial)
      && (-TWO_TO_THE_63 <= partial < TWO_TO_THE_63 ==> Results(initial, deltas)[k] == partial)
  {
    hide Decode, Encode, Wrap;
    var before, d := deltas[..|deltas| - 1], deltas[|deltas| - 1];
    TotalIfInRange(Decode(initial) + Sum(deltas[..k + 1]));
    ResultsLength(initial, before);
    if k < |before| {
      SerialResults(initial, before, k);
      assert deltas[..k + 1] == before[..k + 1];
    } else {
      assert deltas[..k + 1] == deltas;
      SerialIncrements(initial, before);
      IncrementAddsDelta(Counted(initial, before), Decode(initial) + Sum(before), d);
    }
  }

  lemma {:induction false} ResultsLength(initial: Bytes, deltas: seq<i64>)
    ensures |Results(initial, deltas)| == |deltas|
  {
    if deltas != [] {
      ResultsLength(initial, deltas[..|deltas| - 1]);
    }
  }

  /** After any serial list of increments the entry decodes to the initial value plus all deltas, wrapped,
      and is the eight-byte encoding of that sum. */
  lemma {:induction false} SerialIncrements(initial: Bytes, deltas: seq<i64>)
    ensures
      var total := Decode(initial) + Sum(deltas);
      && Decode(Counted(initial, deltas)) == Wrap(total)
      && (deltas != [] ==> Counted(initial, deltas) == Encode(Wrap(total)))
      && (-TWO_TO_THE_63 <= total < TWO_TO_THE_63 ==> Decode(Counted(initial, deltas)) == total)
  {
    hide Decode, Encode, Wrap;
    TotalIfInRange(Decode(initial) + Sum(deltas));
    if deltas == [] {
      WrapIsIdentity(Decode(initial));
    } else {
      var before, d := deltas[..|deltas| - 1], deltas[|deltas| - 1];
      SerialIncrements(initial, before);
      IncrementAddsDelta(Counted(initial, before), Decode(initial) + Sum(before), d);
    }
  }

  // ---------- interleaved read and write steps on one existing key ----------

  type Delta = (nat, i64)

  /** `basis` lists the increments whose effect the bytes read contain; `seen` counts the writes before
      the read. */
  datatype Client = Idle | HasRead(bytes: Bytes, basis: seq<Delta>, seen: nat, delta: i64) | Wrote(result: i64)

  /** The entry, the increments it contains, and all writes so far in order. */
  datatype State = State(entry: Bytes, basis: seq<Delta>, writes: seq<Delta>, clients: map<nat, Client>) {
    function At(c: nat): Client {
      if c in clients then clients[c] else Idle
    }
  }

  datatype Action = Read(c: nat, delta: i64) | Write(c: nat)

  function Init(entry: Bytes): State {
    State(entry, [], [], map[])
  }

  function Next(s: State, a: Action): State {
    match a
    case Read(c, delta) =>
      if s.At(c).Idle? then s.(clients := s.clients[c := HasRead(s.entry, s.basis, |s.writes|, delta)]) else s
    case Write(c) =>
      if !s.At(c).HasRead? then
        s
      else
        var HasRead(bytes, basis, _, delta) := s.At(c);
        var inc := Wrap(Decode(bytes) + delta);
        State(Encode(inc), basis + [(c, delta)], s.writes + [(c, delta)], s.clients[c := Wrote(inc)])
  }

  function Run(s: State, acts: seq<Action>): State {
    if acts == [] then s else Next(Run(s, acts[..|acts| - 1]), acts[|acts| - 1])
  }

  function Total(deltas: seq<Delta>): int {
    if deltas == [] then 0 else Total(deltas[..|deltas| - 1]) + deltas[|deltas| - 1].1
  }

  /** The entry is the initial value plus the basis, a sub-collection of the writes. */
  ghost predicate Reaches(initial: Bytes, entry: Bytes, basis: seq<Delta>, writes: seq<Delta>) {
    && Decode(entry) == Wrap(Decode(initial) + Total(basis))
    && multiset(basis) <= multiset(writes)
  }

  ghost predicate ClientInv(initial: Bytes, s: State, c: nat) {
    s.At(c).HasRead? ==> Reaches(initial, s.At(c).bytes, s.At(c).basis, s.writes)
  }

  ghost predicate Inv(initial: Bytes, s: State) {
    && Reaches(initial, s.entry, s.basis, s.writes)
    && (s.writes != [] ==> s.basis != [] && s.basis[|s.basis| - 1] == s.writes[|s.writes| - 1])
    && forall c: nat :: ClientInv(initial, s, c)
  }

  lemma {:induction false} WriteReaches(initial: Bytes, bytes: Bytes, basis: seq<Delta>, writes: seq<Delta>,
                                        w: Delta)
    requires Reaches(initial, bytes, basis, writes)
    ensures Reaches(initial, Encode(Wrap(Decode(bytes) + w.1)), basis + [w], writes + [w])
  {
    IncrementAddsDelta(bytes, Decode(initial) + Total(basis), w.1);
    assert (basis + [w])[..|basis|] == basis;
  }

  lemma {:induction false} MoreWritesReach(initial: Bytes, entry: Bytes, basis: seq<Delta>, writes: seq<Delta>,
                                           w: Delta)
    requires Reaches(initial, entry, basis, writes)
    ensures Reaches(initial, entry, basis, writes + [w])
  {
  }

  lemma {:induction false} NextKeepsClientInv(initial: Bytes, s: State, a: Action, c: nat)
    requires Reaches(initial, s.entry, s.basis, s.writes)
    requires ClientInv(initial, s, c)
    ensures ClientInv(initial, Next(s, a), c)
  {
    hide Decode, Encode, Wrap, Reaches;
    if a.Write? && s.At(a.c).HasRead? && s.At(c).HasRead? {
      MoreWritesReach(initial, s.At(c).bytes, s.At(c).basis, s.writes, (a.c, s.At(a.c).delta));
    }
  }

  lemma {:induction false} NextKeepsInv(initial: Bytes, s: State, a: Action)
    requires Inv(initial, s)
    ensures Inv(initial, Next(s, a))
  {
    hide Decode, Encode, Wrap, Reaches;
    assert ClientInv(initial, s, a.c);
    if a.Write? && s.At(a.c).HasRead? {
      WriteReaches(initial, s.At(a.c).bytes, s.At(a.c).basis, s.writes, (a.c, s.At(a.c).delta));
    }
    forall c: nat ensures ClientInv(initial, Next(s, a), c) {
      NextKeepsClientInv(initial, s, a, c);
    }
  }

  lemma {:induction false} RunKeepsInv(initial: Bytes, acts: seq<Action>)
    ensures Inv(initial, Run(Init(initial), acts))
  {
    hide Decode, Encode, Wrap, Next;
    if acts == [] {
      WrapIsIdentity(Decode(initial));
    } else {
      RunKeepsInv(initial, acts[..|acts| - 1]);
      NextKeepsInv(initial, Run(Init(initial), acts[..|acts| - 1]), acts[|acts| - 1]);
    }
  }

  /** However reads and writes interleave, the last value written is the initial value plus a
      sub-collection of the deltas written, and the last writer's delta is among them. */
  lemma {:induction false} LastWriteHoldsSubset(initial: Bytes, acts: seq<Action>) returns (included: seq<Delta>)
    requires Run(Init(initial), acts).writes != []
    ensures
      var s := Run(Init(initial), acts);
      && multiset(included) <= multiset(s.writes)
      && included != [] && included[|included| - 1] == s.writes[|s.writes| - 1]
      && Decode(s.entry) == Wrap(Decode(initial) + Total(included))
  {
    hide Decode, Encode, Wrap, Run, Total;
    RunKeepsInv(initial, acts);
    included := Run(Init(initial), acts).basis;
  }

  // ---------- exactly when increments are lost ----------

  /** Every write of the run followed its own read with no other write in between. */
  ghost predicate Undisturbed(initial: Bytes, acts: seq<Action>) {
    acts == [] ||
    var a := acts[|acts| - 1];
    var s := Run(Init(initial), acts[..|acts| - 1]);
    && Undisturbed(initial, acts[..|acts| - 1])
    && (a.Write? && s.At(a.c).HasRead? ==> s.At(a.c).seen == |s.writes|)
  }

  ghost predicate BasisClientInv(s: State, c: nat) {
    s.At(c).HasRead? ==>
      && |s.At(c).basis| <= s.At(c).seen <= |s.writes|
      && (s.At(c).seen == |s.writes| ==> s.At(c).basis == s.basis)
  }

  ghost predicate BasisInv(s: State) {
    && |s.basis| <= |s.writes|
    && (|s.basis| == |s.writes| ==> s.basis == s.writes)
    && forall c: nat :: BasisClientInv(s, c)
  }

  /** The entry contains every write exactly when each write was undisturbed: one interleaved pair is
      enough to lose an increment for good, and a serial run loses none. */
  lemma {:induction false} NothingLostIff(initial: Bytes, acts: seq<Action>)
    ensures BasisInv(Run(Init(initial), acts))
    ensures Run(Init(initial), acts).basis == Run(Init(initial), acts).writes <==> Undisturbed(initial, acts)
  {
    hide Decode, Encode, Wrap;
    if acts != [] {
      var a := acts[|acts| - 1];
      NothingLostIff(initial, acts[..|acts| - 1]);
      var s, t := Run(Init(initial), acts[..|acts| - 1]), Run(Init(initial), acts);
      assert BasisClientInv(s, a.c);
      forall c: nat ensures BasisClientInv(t, c) {
        assert BasisClientInv(s, c);
      }
    }
  }

  /** So the final value is the initial one plus all deltas if every write was undisturbed. */
  lemma {:induction false} UndisturbedKeepsAll(initial: Bytes, acts: seq<Action>)
    requires Undisturbed(initial, acts)
    ensures Decode(Run(Init(initial), acts).entry)
            == Wrap(Decode(initial) + Total(Run(Init(initial), acts).writes))
  {
    hide Decode, Encode, Wrap;
    NothingLostIff(initial, acts);
    RunKeepsInv(initial, acts);
  }

  /** The interface calls the operation atomic; two overlapping calls keep only the second delta. */
  lemma {:induction false} OverlappingCallsLoseOne(initial: Bytes, first: i64, second: i64)
    ensures
      var s := Run(Init(initial), [Read(0, first), Read(1, second), Write(0), Write(1)]);
      |s.writes| == 2 && Decode(s.entry) == Wrap(Decode(initial) + second)
  {
    hide Decode, Encode, Wrap;
    var acts := [Read(0, first), Read(1, second), Write(0), Write(1)];
    assert acts[..4] == acts;
    forall k | 0 <= k < |acts|
      ensures Run(Init(initial), acts[..k + 1]) == Next(Run(Init(initial), acts[..k]), acts[k])
    {
      assert acts[..k + 1][..k] == acts[..k];
    }
    var s1 := Run(Init(initial), acts[..0 + 1]);
    var s2 := Run(Init(initial), acts[..1 + 1]);
    assert s2.At(0) == HasRead(initial, [], 0, first) && s2.At(1) == HasRead(initial, [], 0, second);
    var s3 := Run(Init(initial), acts[..2 + 1]);
    assert s3.At(1) == s2.At(1) && |s3.writes| == 1;
    var s4 := Run(Init(initial), acts[..3 + 1]);
    WrapIsIdentity(Decode(initial));
    IncrementAddsDelta(initial, Decode(initial), second);
  }
}
