/** The in-memory blobstore. Containers are cloned freely, but clones share one object table; which table a
    handle reaches is decided when the handle is obtained, not when it is used. */
module Blobstore {
  import opened Wrappers

  type Objects = map<string, Bytes>

  function Lookup(objects: Objects, name: string): Option<Bytes> {
    if name in objects then Some(objects[name]) else None
  }

  // ---------- the specification: epochs ----------

  /** A handle reaches the object table made by one particular `create_container` call: its epoch. */
  datatype Handle = Handle(name: string, epoch: nat)

  datatype State = State(store: map<string, nat>, tables: seq<Objects>, handles: seq<Handle>, snapshots: seq<Bytes>) {
    ghost predicate Valid() {
      && (forall name :: name in store ==> store[name] < |tables|)
      && forall h :: 0 <= h < |handles| ==> handles[h].epoch < |tables|
    }

    /** The objects a handle reaches; none for a handle that was never issued. */
    function Through(h: nat): Objects {
      if h < |handles| && handles[h].epoch < |tables| then tables[handles[h].epoch] else map[]
    }

    function Replaced(h: nat, objects: Objects): State {
      if h < |handles| && handles[h].epoch < |tables|
      then this.(tables := tables[handles[h].epoch := objects])
      else this
    }
  }

  datatype Op =
    | Create(name: string)
    | Open(name: string)
    | DeleteContainer(name: string)
    | Read(h: nat, item: string)
    | Write(h: nat, item: string, data: Bytes)
    | DeleteObjects(h: nat, objects: seq<string>)
    | Clear(h: nat)

  function Next(s: State, op: Op): State {
    match op
    case Create(name) =>
      State(s.store[name := |s.tables|], s.tables + [map[]], s.handles + [Handle(name, |s.tables|)], s.snapshots)
    case Open(name) =>
      if name in s.store then s.(handles := s.handles + [Handle(name, s.store[name])]) else s
    case DeleteContainer(name) => s.(store := s.store - {name})
    case Read(h, o) =>
      (match Lookup(s.Through(h), o) case None => s case Some(data) => s.(snapshots := s.snapshots + [data]))
    case Write(h, o, data) => s.Replaced(h, s.Through(h)[o := data])
    case DeleteObjects(h, objects) => s.Replaced(h, s.Through(h) - (set o | o in objects))
    case Clear(h) => s.Replaced(h, map[])
  }

  const INIT := State(map[], [], [], [])

  function Run(ops: seq<Op>): State {
    if ops == [] then INIT else Next(Run(ops[..|ops| - 1]), ops[|ops| - 1])
  }

  // ---------- the reference: what the history of calls says ----------

  /** The call that made the container currently known by a name. */
  function Creator(ops: seq<Op>, name: string): Option<nat> {
    if ops == [] then
      None
    else
      var last := |ops| - 1;
      match ops[last]
      case Create(n) => if n == name then Some(last) else Creator(ops[..last], name)
      case DeleteContainer(n) => if n == name then None else Creator(ops[..last], name)
      case _ => Creator(ops[..last], name)
  }

  /** For each handle issued, in order, the `create_container` call it stems from. */
  function Origins(ops: seq<Op>): seq<nat> {
    if ops == [] then
      []
    else
      var last := |ops| - 1;
      var before := Origins(ops[..last]);
      match ops[last]
      case Create(_) => before + [last]
      case Open(name) =>
        (match Creator(ops[..last], name) case None => before case Some(i) => before + [i])
      case _ => before
  }

  predicate StemsFrom(ops: seq<Op>, h: nat, origin: nat) {
    h < |Origins(ops)| && Origins(ops)[h] == origin
  }

  /** The objects that the calls through handles of one origin have left. */
  function History(ops: seq<Op>, origin: nat): Objects {
    if ops == [] then
      map[]
    else
      var last := |ops| - 1;
      var before := History(ops[..last], origin);
      match ops[last]
      case Write(h, o, data) => if StemsFrom(ops[..last], h, origin) then before[o := data] else before
      case DeleteObjects(h, objects) =>
        if StemsFrom(ops[..last], h, origin) then before - (set o | o in objects) else before
      case Clear(h) => if StemsFrom(ops[..last], h, origin) then map[] else before
      case _ => before
  }

  /** The positions of the `create_container` calls: epoch `k` is the `k`-th of them. */
  function Creates(ops: seq<Op>): seq<nat> {
    if ops == [] then []
    else Creates(ops[..|ops| - 1]) + if ops[|ops| - 1].Create? then [|ops| - 1] else []
  }

  lemma {:induction false} CreatesAreIncreasing(ops: seq<Op>)
    ensures forall i :: 0 <= i < |Creates(ops)| ==> Creates(ops)[i] < |ops|
    ensures forall i, j :: 0 <= i < j < |Creates(ops)| ==> Creates(ops)[i] < Creates(ops)[j]
  {
    if ops != [] {
      CreatesAreIncreasing(ops[..|ops| - 1]);
    }
  }

  ghost predicate Names(ops: seq<Op>, s: State, name: string) {
    match Creator(ops, name)
    case None => name !in s.store
    case Some(i) => name in s.store && s.store[name] < |Creates(ops)| && Creates(ops)[s.store[name]] == i
  }

  ghost predicate HandleMatches(ops: seq<Op>, s: State, h: nat)
    requires h < |s.handles| == |Origins(ops)|
  {
    s.handles[h].epoch < |Creates(ops)| && Origins(ops)[h] == Creates(ops)[s.handles[h].epoch]
  }

  ghost predicate Matches(ops: seq<Op>, s: State) {
    && |s.tables| == |Creates(ops)|
    && |s.handles| == |Origins(ops)|
    && (forall name :: Names(ops, s, name))
    && (forall h :: 0 <= h < |s.handles| ==> HandleMatches(ops, s, h))
    && forall e :: 0 <= e < |s.tables| ==> s.tables[e] == History(ops, Creates(ops)[e])
  }

  lemma {:induction false} NothingBeforeCreation(ops: seq<Op>, origin: nat)
    requires origin >= |ops|
    ensures History(ops, origin) == map[]
    ensures forall h :: !StemsFrom(ops, h, origin)
  {
    if ops != [] {
      NothingBeforeCreation(ops[..|ops| - 1], origin);
      OriginsAreEarlier(ops);
    }
  }

  lemma {:induction false} OriginsAreEarlier(ops: seq<Op>)
    ensures forall h :: 0 <= h < |Origins(ops)| ==> Origins(ops)[h] < |ops|
    ensures forall name :: Creator(ops, name).Some? ==> Creator(ops, name).value < |ops|
  {
    if ops != [] {
      OriginsAreEarlier(ops[..|ops| - 1]);
    }
  }

  lemma {:induction false} CreateMatches(before: seq<Op>, s: State, name: string)
    requires Matches(before, s)
    ensures Matches(before + [Create(name)], Next(s, Create(name)))
  {
    var ops, t := before + [Create(name)], Next(s, Create(name));
    assert ops[..|before|] == before;
    NothingBeforeCreation(before, |before|);
    forall n ensures Names(ops, t, n) {
      assert Names(before, s, n);
    }
    forall h | 0 <= h < |t.handles| ensures HandleMatches(ops, t, h) {
      if h < |s.handles| {
        assert HandleMatches(before, s, h);
      }
    }
  }

  lemma {:induction false} OpenMatches(before: seq<Op>, s: State, name: string)
    requires Matches(before, s)
    ensures Matches(before + [Open(name)], Next(s, Open(name)))
  {
    var ops, t := before + [Open(name)], Next(s, Open(name));
    assert ops[..|before|] == before;
    assert Names(before, s, name);
    forall n ensures Names(ops, t, n) {
      assert Names(before, s, n);
    }
    forall h | 0 <= h < |t.handles| ensures HandleMatches(ops, t, h) {
      if h < |s.handles| {
        assert HandleMatches(before, s, h);
      }
    }
  }

  lemma {:induction false} DeleteMatches(before: seq<Op>, s: State, name: string)
    requires Matches(before, s)
    ensures Matches(before + [DeleteContainer(name)], Next(s, DeleteContainer(name)))
  {
    var ops, t := before + [DeleteContainer(name)], Next(s, DeleteContainer(name));
    assert ops[..|before|] == before;
    forall n ensures Names(ops, t, n) {
      assert Names(before, s, n);
    }
    forall h | 0 <= h < |t.handles| ensures HandleMatches(ops, t, h) {
      assert HandleMatches(before, s, h);
    }
  }

  lemma {:induction false} ObjectOpMatches(before: seq<Op>, s: State, op: Op)
    requires Matches(before, s)
    requires op.Read? || op.Write? || op.DeleteObjects? || op.Clear?
    ensures Matches(before + [op], Next(s, op))
  {
    var ops, t := before + [op], Next(s, op);
    assert ops[..|before|] == before;
    CreatesAreIncreasing(before);
    forall n ensures Names(ops, t, n) {
      assert Names(before, s, n);
    }
    forall h | 0 <= h < |t.handles| ensures HandleMatches(ops, t, h) {
      assert HandleMatches(before, s, h);
    }
    if op.h < |s.handles| {
      assert HandleMatches(before, s, op.h);
      assert forall e :: 0 <= e < |s.tables| ==>
                           (StemsFrom(before, op.h, Creates(before)[e]) <==> e == s.handles[op.h].epoch);
    }
  }

  /** Register semantics of the whole store: in every run, the table of each epoch holds exactly what the
      calls through handles of its `create_container` call have written and not deleted, and names and
      handles refer to the epochs that the call history says. */
  lemma {:induction false} RunMatchesHistory(ops: seq<Op>)
    ensures Matches(ops, Run(ops))
  {
    if ops == [] {
      forall name ensures Names([], INIT, name) {}
    } else {
      var before, op := ops[..|ops| - 1], ops[|ops| - 1];
      RunMatchesHistory(before);
      assert ops == before + [op];
      match op {
        case Create(name) => CreateMatches(before, Run(before), name);
        case Open(name) => OpenMatches(before, Run(before), name);
        case DeleteContainer(name) => DeleteMatches(before, Run(before), name);
        case _ => ObjectOpMatches(before, Run(before), op);
      }
    }
  }

  /** What a handle reads is the history of its origin: earlier or later re-creation and deletion of the
      container's name make no difference. */
  lemma {:induction false} HandleReadsItsOrigin(ops: seq<Op>, h: nat)
    requires h < |Run(ops).handles|
    ensures |Origins(ops)| == |Run(ops).handles|
    ensures Run(ops).Through(h) == History(ops, Origins(ops)[h])
  {
    RunMatchesHistory(ops);
    assert HandleMatches(ops, Run(ops), h);
  }

  /** Two handles observe each other's writes exactly if they stem from the same `create_container` call. */
  lemma {:induction false} ObserveIff(ops: seq<Op>, g: nat, h: nat)
    requires g < |Run(ops).handles| && h < |Run(ops).handles|
    ensures |Origins(ops)| == |Run(ops).handles|
    ensures (forall o: string, data: Bytes ::
               Lookup(Next(Run(ops), Write(g, o, data)).Through(h), o) == Some(data))
            <==> Origins(ops)[g] == Origins(ops)[h]
  {
    RunMatchesHistory(ops);
    var s := Run(ops);
    assert HandleMatches(ops, s, g) && HandleMatches(ops, s, h);
    CreatesAreIncreasing(ops);
    if s.handles[g].epoch != s.handles[h].epoch {
      var seen := Lookup(s.Through(h), "");
      var data: Bytes := if seen.Some? then seen.value + [0] else [];
      assert seen != Some(data) by {
        assert seen.Some? ==> |data| == |seen.value| + 1;
      }
      assert Next(s, Write(g, "", data)).Through(h) == s.Through(h);
      assert Lookup(Next(s, Write(g, "", data)).Through(h), "") == seen;
    }
  }

  /** The operation goes through a handle of this epoch. */
  predicate Touches(s: State, op: Op, epoch: nat) {
    (op.Write? || op.DeleteObjects? || op.Clear?) && op.h < |s.handles| && s.handles[op.h].epoch == epoch
  }

  /** No operation of `more`, each judged where it runs, goes through a handle of this epoch. */
  ghost predicate NeverTouches(ops: seq<Op>, more: seq<Op>, epoch: nat) {
    forall k :: 0 <= k < |more| ==> !Touches(Run(ops + more[..k]), more[k], epoch)
  }

  lemma {:induction false} StepLeavesOthers(s: State, op: Op, epoch: nat)
    requires epoch < |s.tables| && !Touches(s, op, epoch)
    ensures epoch < |Next(s, op).tables| && Next(s, op).tables[epoch] == s.tables[epoch]
    ensures s.handles <= Next(s, op).handles && s.snapshots <= Next(s, op).snapshots
  {
  }

  lemma {:induction false} UntouchedStays(ops: seq<Op>, more: seq<Op>, epoch: nat)
    requires epoch < |Run(ops).tables| && NeverTouches(ops, more, epoch)
    ensures epoch < |Run(ops + more).tables| && Run(ops + more).tables[epoch] == Run(ops).tables[epoch]
    ensures Run(ops).handles <= Run(ops + more).handles
    ensures Run(ops).snapshots <= Run(ops + more).snapshots
  {
    hide Next;
    if more == [] {
      assert ops + more == ops;
    } else {
      var init := more[..|more| - 1];
      assert forall k :: 0 <= k < |init| ==> init[..k] == more[..k];
      UntouchedStays(ops, init, epoch);
      assert (ops + more)[..|ops + more| - 1] == ops + init;
      assert more[..|init|] == init;
      StepLeavesOthers(Run(ops + init), more[|init|], epoch);
    }
  }

  /** Re-creating a name gives an empty container, and it stays empty whatever is done through any other
      container's handles, stale handles of the same name among them. Bytes read earlier never change. */
  lemma {:induction false} RecreatedContainerIsIsolated(ops: seq<Op>, name: string, more: seq<Op>)
    requires NeverTouches(ops + [Create(name)], more, |Run(ops).tables|)
    ensures
      var h := |Run(ops).handles|;
      var s := Run(ops + [Create(name)] + more);
      h < |s.handles| && s.handles[h].name == name && s.Through(h) == map[]
    ensures Run(ops).snapshots <= Run(ops + [Create(name)] + more).snapshots
  {
    var created := ops + [Create(name)];
    assert created[..|ops|] == ops;
    UntouchedStays(created, more, |Run(ops).tables|);
  }

  // ---------- the implementation: shared tables on the heap ----------

  /** The lock-guarded object table that container clones share. */
  class ObjectTable {
    var objects: Objects

    constructor ()
      ensures objects == map[]
    {
      objects := map[];
    }
  }

  class Container {
    const name: string
    const table: ObjectTable

    constructor (name: string, table: ObjectTable)
      ensures this.name == name && this.table == table
    {
      this.name, this.table := name, table;
    }

    /** The range arguments of the interface are ignored. */
    method GetData(o: string, start: u64, end: u64) returns (data: Option<Bytes>)
      ensures data == Lookup(table.objects, o)
    {
      return if o in table.objects then Some(table.objects[o]) else None;
    }

    method WriteData(o: string, data: Bytes)
      modifies table
      ensures table.objects == old(table.objects)[o := data]
    {
      table.objects := table.objects[o := data];
    }

    /** The names, in whatever order the map yields them. */
    method ListObjects() returns (names: seq<string>)
      ensures forall o :: o in names <==> o in table.objects
      ensures |names| == |table.objects|
    {
      var waiting := table.objects.Keys;
      names := [];
      while waiting != {}
        invariant waiting <= table.objects.Keys
        invariant forall o :: o in names <==> o in table.objects && o !in waiting
        invariant |names| + |waiting| == |table.objects|
        decreases waiting
      {
        var o :| o in waiting;
        waiting := waiting - {o};
        names := names + [o];
      }
    }

    method DeleteObject(o: string)
      modifies table
      ensures table.objects == old(table.objects) - {o}
    {
      table.objects := table.objects - {o};
    }

    method DeleteObjects(names: seq<string>)
      modifies table
      ensures table.objects == old(table.objects) - (set o | o in names)
    {
      for i := 0 to |names|
        invariant table.objects == old(table.objects) - (set o | o in names[..i])
      {
        assert names[..i + 1] == names[..i] + [names[i]];
        DeleteObject(names[i]);
      }
      assert names[..|names|] == names;
    }

    method Clear()
      modifies table
      ensures table.objects == map[]
    {
      var all := ListObjects();
      DeleteObjects(all);
    }
  }

  datatype HostError = NoSuchHandle | NoSuchObject

  /** The store and the handle table of a guest. The ghost fields name each table by its epoch. */
  class Host {
    var store: map<string, Container>
    var handles: seq<Container>
    var snapshots: seq<Bytes>
    ghost var arena: seq<ObjectTable>

    /** The heap implements the specification state: one distinct table per epoch, shared exactly by the
        containers of that epoch. */
    ghost predicate Represents(s: State)
      reads this, arena
    {
      && s.Valid()
      && HoldsTables(s) && HoldsNames(s)
      && |handles| == |s.handles|
      && (forall h :: 0 <= h < |handles| ==>
                        handles[h].name == s.handles[h].name && handles[h].table == arena[s.handles[h].epoch])
      && snapshots == s.snapshots
    }

    ghost predicate HoldsTables(s: State)
      reads this, arena
    {
      && |arena| == |s.tables|
      && (forall i, j :: 0 <= i < j < |arena| ==> arena[i] != arena[j])
      && forall e :: 0 <= e < |arena| ==> arena[e].objects == s.tables[e]
    }

    ghost predicate HoldsNames(s: State)
      requires s.Valid() && |arena| == |s.tables|
      reads this
    {
      && store.Keys == s.store.Keys
      && forall n :: n in store ==> store[n].name == n && store[n].table == arena[s.store[n]]
    }

    constructor ()
      ensures Represents(INIT)
    {
      store, handles, snapshots, arena := map[], [], [], [];
    }

    method CreateContainer(name: string, ghost s: State) returns (h: nat)
      requires Represents(s)
      modifies this
      ensures Represents(Next(s, Create(name)))
      ensures h == |s.handles| && fresh(arena[|s.tables|])
    {
      var table := new ObjectTable();
      var container := new Container(name, table);
      store := store[name := container];
      h := |handles|;
      handles := handles + [container];
      arena := arena + [table];
      ghost var t := Next(s, Create(name));
      assert HoldsTables(t);
      assert HoldsNames(t);
    }

    method GetContainer(name: string, ghost s: State) returns (h: Option<nat>)
      requires Represents(s)
      modifies this
      ensures Represents(Next(s, Open(name)))
      ensures h == if name in s.store then Some(|s.handles|) else None
    {
      if name !in store {
        return None;
      }
      h := Some(|handles|);
      handles := handles + [store[name]];
    }

    method DeleteContainer(name: string, ghost s: State)
      requires Represents(s)
      modifies this
      ensures Represents(Next(s, Op.DeleteContainer(name)))
    {
      store := store - {name};
    }

    /** The object tables an operation on a handle may change; none for a handle that was never issued. */
    ghost function Footprint(h: nat): set<object>
      reads this
    {
      if h < |handles| then {handles[h].table} else {}
    }

    method GetData(h: nat, o: string, start: u64, end: u64, ghost s: State) returns (r: Result<Bytes, HostError>)
      requires Represents(s)
      modifies this
      ensures Represents(Next(s, Read(h, o)))
      ensures r == if h >= |s.handles| then Err(NoSuchHandle)
                   else match Lookup(s.Through(h), o) case None => Err(NoSuchObject) case Some(data) => Ok(data)
    {
      if h >= |handles| {
        return Err(NoSuchHandle);
      }
      var data := handles[h].GetData(o, start, end);
      if data.None? {
        return Err(NoSuchObject);
      }
      snapshots := snapshots + [data.value];
      return Ok(data.value);
    }

    method WriteData(h: nat, o: string, data: Bytes, ghost s: State) returns (r: Result<(), HostError>)
      requires Represents(s)
      modifies Footprint(h)
      ensures Represents(Next(s, Write(h, o, data)))
      ensures r == if h < |s.handles| then Ok(()) else Err(NoSuchHandle)
    {
      if h >= |handles| {
        return Err(NoSuchHandle);
      }
      handles[h].WriteData(o, data);
      return Ok(());
    }

    method DeleteObjects(h: nat, names: seq<string>, ghost s: State) returns (r: Result<(), HostError>)
      requires Represents(s)
      modifies Footprint(h)
      ensures Represents(Next(s, Op.DeleteObjects(h, names)))
      ensures r == if h < |s.handles| then Ok(()) else Err(NoSuchHandle)
    {
      if h >= |handles| {
        return Err(NoSuchHandle);
      }
      handles[h].DeleteObjects(names);
      return Ok(());
    }

    method Clear(h: nat, ghost s: State) returns (r: Result<(), HostError>)
      requires Represents(s)
      modifies Footprint(h)
      ensures Represents(Next(s, Op.Clear(h)))
      ensures r == if h < |s.handles| then Ok(()) else Err(NoSuchHandle)
    {
      if h >= |handles| {
        return Err(NoSuchHandle);
      }
      handles[h].Clear();
      return Ok(());
    }
  }
}
