/** The in-memory key-value host: a two-level map behind one lock, shared by every bucket handle. */
module KeyValueStore {
  import opened Wrappers

  type Bucket = map<string, Bytes>

  type Store = map<string, Bucket>

  /** A bucket that was never opened nor written reads as empty. */
  function Contents(store: Store, name: string): Bucket {
    if name in store then store[name] else map[]
  }

  function Lookup(bucket: Bucket, key: string): Option<Bytes> {
    if key in bucket then Some(bucket[key]) else None
  }

  class KeyValueDefault {
    var store: Store

    constructor ()
      ensures store == map[]
    {
      store := map[];
    }

    method OpenBucket(identifier: string) returns (bucket: InMemBucket)
      modifies this
      ensures fresh(bucket) && bucket.name == identifier && bucket.backend == this
      ensures store == old(store)[identifier := Contents(old(store), identifier)]
    {
      bucket := new InMemBucket(identifier, this);
      if identifier !in store {
        store := store[identifier := map[]];
      } else {
        assert store == store[identifier := store[identifier]];
      }
    }
  }

  /** A handle: any number of them may share one backend and even one name. */
  class InMemBucket {
    const name: string
    const backend: KeyValueDefault

    constructor (name: string, backend: KeyValueDefault)
      ensures this.name == name && this.backend == backend
    {
      this.name, this.backend := name, backend;
    }

    ghost function View(): Bucket
      reads backend
    {
      Contents(backend.store, name)
    }

    method Get(key: string) returns (value: Option<Bytes>)
      ensures value == Lookup(View(), key)
    {
      if name in backend.store && key in backend.store[name] {
        value := Some(backend.store[name][key]);
      } else {
        value := None;
      }
    }

    method Set(key: string, value: Bytes)
      modifies backend
      ensures View() == old(View())[key := value]
      ensures backend.store == old(backend.store)[name := View()]
    {
      var bucket := if name in backend.store then backend.store[name] else map[];
      backend.store := backend.store[name := bucket[key := value]];
    }

    method Delete(key: string)
      modifies backend
      ensures View() == old(View()) - {key}
      ensures forall other :: other != name ==> Contents(backend.store, other) == Contents(old(backend.store), other)
      ensures backend.store.Keys == old(backend.store).Keys
    {
      if name in backend.store {
        backend.store := backend.store[name := backend.store[name] - {key}];
      }
    }

    method Exists(key: string) returns (found: bool)
      ensures found <==> key in View()
    {
      return name in backend.store && key in backend.store[name];
    }

    // ---------- the batch interface: one bucket operation after another ----------

    method GetMany(keys: seq<string>) returns (many: seq<(string, Bytes)>)
      ensures many == Present(View(), keys)
    {
      many := [];
      for i := 0 to |keys|
        invariant many == Present(View(), keys[..i])
      {
        assert keys[..i + 1][..i] == keys[..i];
        var value := Get(keys[i]);
        if value.Some? {
          many := many + [(keys[i], value.value)];
        }
      }
      assert keys[..|keys|] == keys;
    }

    method SetMany(keyValues: seq<(string, Bytes)>)
      modifies backend
      ensures View() == Written(old(View()), keyValues)
      ensures forall other :: other != name ==> Contents(backend.store, other) == Contents(old(backend.store), other)
    {
      for i := 0 to |keyValues|
        invariant View() == Written(old(View()), keyValues[..i])
        invariant forall other :: other != name ==>
                                    Contents(backend.store, other) == Contents(old(backend.store), other)
      {
        assert keyValues[..i + 1][..i] == keyValues[..i];
        Set(keyValues[i].0, keyValues[i].1);
      }
      assert keyValues[..|keyValues|] == keyValues;
    }

    method DeleteMany(keys: seq<string>)
      modifies backend
      ensures View() == old(View()) - (set k | k in keys)
      ensures forall other :: other != name ==> Contents(backend.store, other) == Contents(old(backend.store), other)
    {
      for i := 0 to |keys|
        invariant View() == old(View()) - (set k | k in keys[..i])
        invariant forall other :: other != name ==>
                                    Contents(backend.store, other) == Contents(old(backend.store), other)
      {
        assert keys[..i + 1] == keys[..i] + [keys[i]];
        Delete(keys[i]);
      }
      assert keys[..|keys|] == keys;
    }
  }

  // ---------- what the batch loops compute ----------

  /** The pairs of the requested keys that exist, in request order; missing keys are skipped. */
  function Present(bucket: Bucket, keys: seq<string>): (many: seq<(string, Bytes)>) {
    if keys == [] then
      []
    else
      var init, key := keys[..|keys| - 1], keys[|keys| - 1];
      Present(bucket, init) + if key in bucket then [(key, bucket[key])] else []
  }

  function Written(bucket: Bucket, keyValues: seq<(string, Bytes)>): Bucket {
    if keyValues == [] then
      bucket
    else
      var init, kv := keyValues[..|keyValues| - 1], keyValues[|keyValues| - 1];
      Written(bucket, init)[kv.0 := kv.1]
  }

  function Keys(keyValues: seq<(string, Bytes)>): seq<string> {
    seq(|keyValues|, i requires 0 <= i < |keyValues| => keyValues[i].0)
  }

  /** After a batch write a key holds the value of its last pair; a key without pairs is unchanged. */
  lemma {:induction false} WrittenHoldsLast(bucket: Bucket, keyValues: seq<(string, Bytes)>, key: string, last: int)
    requires -1 <= last < |keyValues|
    requires last >= 0 ==> keyValues[last].0 == key
    requires forall j :: last < j < |keyValues| ==> keyValues[j].0 != key
    ensures Lookup(Written(bucket, keyValues), key) ==
            if last >= 0 then Some(keyValues[last].1) else Lookup(bucket, key)
  {
    if keyValues != [] && last < |keyValues| - 1 {
      WrittenHoldsLast(bucket, keyValues[..|keyValues| - 1], key, last);
    }
  }

  /** A batch read answers its requests one by one and in order, with a pair for a key that exists and
      nothing for one that does not. */
  lemma {:induction false} PresentForm(bucket: Bucket, a: seq<string>, b: seq<string>, key: string)
    ensures Present(bucket, []) == []
    ensures Present(bucket, [key]) == if key in bucket then [(key, bucket[key])] else []
    ensures Present(bucket, a + b) == Present(bucket, a) + Present(bucket, b)
  {
    assert [key][..0] == [];
    if b == [] {
      assert a + b == a;
    } else {
      assert (a + b)[..|a + b| - 1] == a + b[..|b| - 1];
      PresentForm(bucket, a, b[..|b| - 1], key);
    }
  }

  /** Entry `i` of a batch read answers request `i`, for every `i`, exactly when every requested key
      exists: the interface promises a `none` per missing key, the code drops it. */
  lemma {:induction false} PresentIsPositional(bucket: Bucket, keys: seq<string>)
    ensures |Present(bucket, keys)| <= |keys|
    ensures |Present(bucket, keys)| == |keys| <==> forall k :: k in keys ==> k in bucket
    ensures (forall k :: k in keys ==> k in bucket) ==>
              forall i :: 0 <= i < |keys| ==> Present(bucket, keys)[i] == (keys[i], bucket[keys[i]])
  {
    if keys != [] {
      var init, last := keys[..|keys| - 1], keys[|keys| - 1];
      PresentIsPositional(bucket, init);
      assert keys == init + [last];
      assert forall k :: k in keys <==> k in init || k == last;
    }
  }

  /** Reading back the keys of a batch just written returns one pair per request, with the last value
      written for its key. */
  lemma {:induction false} GetManyAfterSetMany(bucket: Bucket, keyValues: seq<(string, Bytes)>)
    ensures
      var many := Present(Written(bucket, keyValues), Keys(keyValues));
      && |many| == |keyValues|
      && forall i :: 0 <= i < |keyValues| ==>
                       && many[i].0 == keyValues[i].0
                       && exists j :: i <= j < |keyValues| && keyValues[j] == many[i]
                                      && forall l :: j < l < |keyValues| ==> keyValues[l].0 != many[i].0
  {
    var after := Written(bucket, keyValues);
    hide Written, Present;
    forall i | 0 <= i < |keyValues|
      ensures keyValues[i].0 in after
      ensures exists j :: i <= j < |keyValues| && keyValues[j] == (keyValues[i].0, after[keyValues[i].0])
                          && forall l :: j < l < |keyValues| ==> keyValues[l].0 != keyValues[i].0
    {
      var j := LastIndex(keyValues, i);
      WrittenHoldsLast(bucket, keyValues, keyValues[i].0, j);
      assert keyValues[j] == (keyValues[i].0, after[keyValues[i].0]);
    }
    PresentIsPositional(after, Keys(keyValues));
  }

  /** The last position holding the key of position `i`. */
  lemma {:induction false} LastIndex(keyValues: seq<(string, Bytes)>, i: nat) returns (j: nat)
    requires i < |keyValues|
    ensures i <= j < |keyValues| && keyValues[j].0 == keyValues[i].0
    ensures forall l :: j < l < |keyValues| ==> keyValues[l].0 != keyValues[i].0
    decreases |keyValues| - i
  {
    if later :| i < later < |keyValues| && keyValues[later].0 == keyValues[i].0 {
      j := LastIndex(keyValues, later);
    } else {
      j := i;
    }
  }
}
