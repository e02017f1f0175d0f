/** The WebSocket peer map and its message router. Recipients travel as one string, the addresses joined
    with commas or the word "all", and are parsed again on the other side. */
module PeerRegistry {
  import opened Wrappers
  import opened Strings

  datatype SocketAddr =
    | V4(a: byte, b: byte, c: byte, d: byte, port: nat)
    | V6(address: nat, port: nat)
  {
    predicate IsLoopback() {
      if V4? then a == 127 else address == 1
    }
  }

  /** Printing and parsing of socket addresses. */
  datatype AddrCodec = AddrCodec(show: SocketAddr -> string, parse: string -> Option<SocketAddr>) {
    ghost predicate Lawful() {
      && parse("") == None
      && forall a :: parse(show(a)) == Some(a) && Free(show(a), ',') && show(a) != "all"
    }
  }

  /** A registered peer; `outbox` is everything pushed into its channel so far. */
  datatype PeerInfo = PeerInfo(isService: bool, query: string, outbox: seq<string>) {
    /** Service peers are skipped. */
    function Sent(content: string): PeerInfo {
      if isService then this else this.(outbox := outbox + [content])
    }
  }

  type PeerMap = map<SocketAddr, PeerInfo>

  datatype PublishMessage = PublishMessage(peers: string, content: string)

  datatype Peer = Peer(address: string, query: string)

  function NewPeer(addr: SocketAddr): PeerInfo {
    PeerInfo(addr.IsLoopback(), "", [])
  }

  function ParseAll(codec: AddrCodec, pieces: seq<string>): seq<SocketAddr> {
    if pieces == [] then []
    else (match codec.parse(pieces[0]) case None => [] case Some(a) => [a]) + ParseAll(codec, pieces[1..])
  }

  function Targets(codec: AddrCodec, peers: string): seq<SocketAddr> {
    ParseAll(codec, Split(peers, ','))
  }

  function SentTo(m: PeerMap, addr: SocketAddr, content: string): PeerMap {
    if addr in m then m[addr := m[addr].Sent(content)] else m
  }

  function SentToEach(m: PeerMap, targets: seq<SocketAddr>, content: string): PeerMap {
    if targets == [] then m
    else SentTo(SentToEach(m, targets[..|targets| - 1], content), targets[|targets| - 1], content)
  }

  function SentToAll(m: PeerMap, content: string): PeerMap {
    map a | a in m :: m[a].Sent(content)
  }

  function Routed(codec: AddrCodec, m: PeerMap, message: PublishMessage): PeerMap {
    if message.peers == "all" then SentToAll(m, message.content)
    else SentToEach(m, Targets(codec, message.peers), message.content)
  }

  function Repeat(content: string, n: nat): seq<string> {
    seq(n, _ => content)
  }

  /** What a peer receives from a targeted message: one copy per occurrence of its address. */
  lemma {:induction false} SentToEachCounts(m: PeerMap, targets: seq<SocketAddr>, content: string)
    ensures SentToEach(m, targets, content).Keys == m.Keys
    ensures forall a :: a in m ==>
                          SentToEach(m, targets, content)[a] ==
                          if m[a].isService then m[a]
                          else m[a].(outbox := m[a].outbox + Repeat(content, multiset(targets)[a]))
  {
    if targets == [] {
      forall a | a in m ensures m[a].outbox + Repeat(content, 0) == m[a].outbox {}
    } else {
      var init, last := targets[..|targets| - 1], targets[|targets| - 1];
      SentToEachCounts(m, init, content);
      assert targets == init + [last];
      forall a | a in m
        ensures SentToEach(m, targets, content)[a] ==
                if m[a].isService then m[a]
                else m[a].(outbox := m[a].outbox + Repeat(content, multiset(targets)[a]))
      {
        if a == last {
          assert Repeat(content, multiset(init)[a]) + [content] == Repeat(content, multiset(targets)[a]);
        }
      }
    }
  }

  /** The mutex-guarded peer map. */
  class Registry {
    const codec: AddrCodec
    var peers: PeerMap

    constructor (codec: AddrCodec)
      ensures peers == map[] && this.codec == codec
    {
      this.codec, peers := codec, map[];
    }

    method Accept(addr: SocketAddr)
      modifies this
      ensures peers == old(peers)[addr := NewPeer(addr)]
      ensures peers[addr].isService <==> (addr.V4? && addr.a == 127) || (addr.V6? && addr.address == 1)
      ensures peers[addr].query == "" && peers[addr].outbox == []
    {
      peers := peers[addr := PeerInfo(addr.IsLoopback(), "", [])];
    }

    method SetFilter(addr: SocketAddr, text: string)
      modifies this
      ensures peers == if addr in old(peers) then old(peers)[addr := old(peers)[addr].(query := text)] else old(peers)
    {
      if addr in peers {
        peers := peers[addr := peers[addr].(query := text)];
      }
    }

    method Disconnect(addr: SocketAddr)
      modifies this
      ensures peers == old(peers) - {addr}
    {
      peers := peers - {addr};
    }

    method SendMessage(message: PublishMessage)
      modifies this
      ensures peers == Routed(codec, old(peers), message)
    {
      var before := peers;
      if message.peers == "all" {
        var waiting := peers.Keys;
        while waiting != {}
          invariant waiting <= before.Keys && peers.Keys == before.Keys
          invariant forall a :: a in before ==>
                                  peers[a] == if a in waiting then before[a] else before[a].Sent(message.content)
          decreases waiting
        {
          var addr :| addr in waiting;
          waiting := waiting - {addr};
          peers := peers[addr := peers[addr].Sent(message.content)];
        }
      } else {
        var targets := Targets(codec, message.peers);
        for i := 0 to |targets|
          invariant peers == SentToEach(before, targets[..i], message.content)
        {
          assert targets[..i + 1][..i] == targets[..i];
          if targets[i] in peers {
            peers := peers[targets[i] := peers[targets[i]].Sent(message.content)];
          }
        }
        assert targets[..|targets|] == targets;
      }
    }

    /** The clients, in whatever order the map yields them. */
    method GetPeers() returns (listed: seq<Peer>)
      ensures IsListing(codec, peers, listed)
    {
      var waiting := peers.Keys;
      listed := [];
      ghost var order: seq<SocketAddr> := [];
      while waiting != {}
        invariant waiting <= peers.Keys
        invariant forall a :: a in order ==> a in peers && a !in waiting
        invariant forall a :: a in peers && !peers[a].isService ==> a in waiting || a in order
        invariant forall a :: a in order ==> !peers[a].isService
        invariant forall i, j :: 0 <= i < j < |order| ==> order[i] != order[j]
        invariant listed == Listing(codec, peers, order)
        decreases waiting
      {
        var addr :| addr in waiting;
        waiting := waiting - {addr};
        if !peers[addr].isService {
          listed := listed + [Peer(codec.show(addr), peers[addr].query)];
          order := order + [addr];
        }
      }
    }

    /** Sending to exactly the addresses `get_peers` would list, in any order, is a broadcast. */
    method SendPeers(content: string, names: seq<string>)
      modifies this
      ensures peers == Routed(codec, old(peers), PublishMessage(Join(names, ','), content))
      ensures forall listed: seq<Peer> ::
                codec.Lawful() && IsListing(codec, old(peers), listed) && names == Addresses(listed)
                ==> peers == SentToAll(old(peers), content)
    {
      forall listed: seq<Peer> | codec.Lawful() && IsListing(codec, peers, listed) && names == Addresses(listed)
        ensures Routed(codec, peers, PublishMessage(Join(names, ','), content)) == SentToAll(peers, content)
      {
        SendToListedIsSendToAll(codec, peers, listed, content);
      }
      SendMessage(PublishMessage(Join(names, ','), content));
    }

    method SendAll(content: string)
      modifies this
      ensures peers == SentToAll(old(peers), content)
    {
      SendMessage(PublishMessage("all", content));
    }
  }

  /** Every client once, no service peer. */
  ghost predicate ListsClients(m: PeerMap, order: seq<SocketAddr>) {
    && (forall i, j :: 0 <= i < j < |order| ==> order[i] != order[j])
    && forall a :: a in order <==> a in m && !m[a].isService
  }

  function Listing(codec: AddrCodec, m: PeerMap, order: seq<SocketAddr>): seq<Peer> {
    seq(|order|, i requires 0 <= i < |order| =>
      Peer(codec.show(order[i]), if order[i] in m then m[order[i]].query else ""))
  }

  /** Every client once with its printed address and filter, in whatever order. */
  ghost predicate IsListing(codec: AddrCodec, m: PeerMap, listed: seq<Peer>) {
    exists order :: ListsClients(m, order) && listed == Listing(codec, m, order)
  }

  // ---------- who a recipient string names ----------

  lemma {:induction false} ParseAllAppend(codec: AddrCodec, a: seq<string>, b: seq<string>)
    ensures ParseAll(codec, a + b) == ParseAll(codec, a) + ParseAll(codec, b)
  {
    if a == [] {
      assert a + b == b;
    } else {
      assert (a + b)[1..] == a[1..] + b;
      ParseAllAppend(codec, a[1..], b);
    }
  }

  /** For any string: the pieces between commas are parsed one by one and in order, and a piece that is no
      address is skipped without touching the others. */
  lemma {:induction false} TargetsForm(codec: AddrCodec, a: string, b: string)
    ensures Targets(codec, a + "," + b) == Targets(codec, a) + Targets(codec, b)
    ensures ',' !in a ==>
              Targets(codec, a) == if codec.parse(a).Some? then [codec.parse(a).value] else []
  {
    assert a + "," + b == a + [','] + b;
    SplitAppend(a, b, ',');
    ParseAllAppend(codec, Split(a, ','), Split(b, ','));
    if ',' !in a {
      SplitFree(a, ',');
      assert [a][1..] == [];
    }
  }

  /** Routing in terms of the two maps: to everybody for the word "all", else to each named address. */
  lemma {:induction false} RoutedForm(codec: AddrCodec, m: PeerMap, message: PublishMessage, a: SocketAddr)
    ensures Routed(codec, m, message).Keys == m.Keys
    ensures a in m ==>
              var copies := if message.peers == "all" then 1 else multiset(Targets(codec, message.peers))[a];
              var after := Routed(codec, m, message)[a];
              && after.isService == m[a].isService && after.query == m[a].query
              && after.outbox == m[a].outbox + if m[a].isService then [] else seq(copies, _ => message.content)
  {
    if message.peers != "all" {
      SentToEachCounts(m, Targets(codec, message.peers), message.content);
    } else {
      assert seq(1, _ => message.content) == [message.content];
    }
    hide Targets;
  }

  // ---------- sending to the listed peers is broadcasting ----------

  function Addresses(listed: seq<Peer>): seq<string> {
    seq(|listed|, i requires 0 <= i < |listed| => listed[i].address)
  }

  function Names(codec: AddrCodec, order: seq<SocketAddr>): seq<string> {
    seq(|order|, i requires 0 <= i < |order| => codec.show(order[i]))
  }

  lemma {:induction false} ParseAllNames(codec: AddrCodec, order: seq<SocketAddr>)
    requires codec.Lawful()
    ensures ParseAll(codec, Names(codec, order)) == order
  {
    if order != [] {
      assert Names(codec, order)[1..] == Names(codec, order[1..]);
      ParseAllNames(codec, order[1..]);
    }
  }

  lemma {:induction false} TargetsOfNames(codec: AddrCodec, order: seq<SocketAddr>)
    requires codec.Lawful()
    ensures Join(Names(codec, order), ',') != "all"
    ensures Targets(codec, Join(Names(codec, order), ',')) == order
  {
    var names := Names(codec, order);
    if order == [] {
      assert ParseAll(codec, [""]) == [];
    } else {
      SplitJoin(names, ',');
      ParseAllNames(codec, order);
      if |order| > 1 {
        assert Join(names, ',')[|names[0]|] == ',';
      }
    }
  }

  lemma {:induction false} CountDistinct(order: seq<SocketAddr>, a: SocketAddr)
    requires forall i, j :: 0 <= i < j < |order| ==> order[i] != order[j]
    ensures multiset(order)[a] == if a in order then 1 else 0
  {
    if order != [] {
      var rest := order[1..];
      assert forall i :: 0 <= i < |rest| ==> rest[i] == order[i + 1];
      CountDistinct(rest, a);
      assert order == [order[0]] + rest;
    }
  }

  /** In every peer map, sending to the addresses `get_peers` lists, in any order it may list them, leaves
      every outbox exactly as `send_all` does. */
  lemma {:induction false} SendToListedIsSendToAll(codec: AddrCodec, m: PeerMap, listed: seq<Peer>, content: string)
    requires codec.Lawful() && IsListing(codec, m, listed)
    ensures Routed(codec, m, PublishMessage(Join(Addresses(listed), ','), content)) == SentToAll(m, content)
  {
    var order :| ListsClients(m, order) && listed == Listing(codec, m, order);
    assert Addresses(listed) == Names(codec, order);
    SendToNamesIsSendToAll(codec, m, order, content);
  }

  lemma {:induction false} SendToNamesIsSendToAll(codec: AddrCodec, m: PeerMap, order: seq<SocketAddr>,
                                                  content: string)
    requires codec.Lawful() && ListsClients(m, order)
    ensures Routed(codec, m, PublishMessage(Join(Names(codec, order), ','), content)) == SentToAll(m, content)
  {
    TargetsOfNames(codec, order);
    SentToEachCounts(m, order, content);
    var left, right := SentToEach(m, order, content), SentToAll(m, content);
    forall a | a in m ensures left[a] == right[a] {
      CountDistinct(order, a);
      if !m[a].isService {
        assert Repeat(content, 1) == [content];
      }
    }
  }

  // ---------- whole runs ----------

  /** The peer map and the live connections; a connection remembers the address it registered under. */
  datatype State = State(peers: PeerMap, live: map<nat, SocketAddr>)

  datatype Action =
    | Accept(conn: nat, addr: SocketAddr)
    | Text(conn: nat, text: string, isJson: bool)
    | Disconnect(conn: nat)
    | Send(message: PublishMessage)

  function Closed(s: State, conn: nat): State
    requires conn in s.live
  {
    State(s.peers - {s.live[conn]}, s.live - {conn})
  }

  /** A text from a client sets its filter, or closes the connection if it is not JSON. */
  function Next(codec: AddrCodec, s: State, a: Action): State {
    match a
    case Accept(conn, addr) =>
      if conn in s.live then s else State(s.peers[addr := NewPeer(addr)], s.live[conn := addr])
    case Text(conn, text, isJson) =>
      if conn !in s.live || s.live[conn].IsLoopback() then
        s
      else if !isJson then
        Closed(s, conn)
      else
        var addr := s.live[conn];
        if addr in s.peers then s.(peers := s.peers[addr := s.peers[addr].(query := text)]) else s
    case Disconnect(conn) =>
      if conn in s.live then Closed(s, conn) else s
    case Send(message) => s.(peers := Routed(codec, s.peers, message))
  }

  const INIT := State(map[], map[])

  function Run(codec: AddrCodec, acts: seq<Action>): State {
    if acts == [] then INIT else Next(codec, Run(codec, acts[..|acts| - 1]), acts[|acts| - 1])
  }

  /** New connections come under a new identity and an address no live connection holds. */
  ghost predicate AddressesReleased(codec: AddrCodec, acts: seq<Action>) {
    acts == [] ||
    var a := acts[|acts| - 1];
    && AddressesReleased(codec, acts[..|acts| - 1])
    && (a.Accept? ==>
          var s := Run(codec, acts[..|acts| - 1]);
          a.conn !in s.live && a.addr !in s.live.Values)
  }

  /** Reference: the messages a client at `addr` should have, read off the history alone. It starts empty
      at each accept and gets broadcasts once, targeted messages once per mention. */
  function Expected(codec: AddrCodec, acts: seq<Action>, addr: SocketAddr): seq<string> {
    if acts == [] then
      []
    else
      var before := Expected(codec, acts[..|acts| - 1], addr);
      match acts[|acts| - 1]
      case Accept(_, a) => if a == addr then [] else before
      case Send(message) =>
        before + Repeat(message.content,
                        if message.peers == "all" then 1 else multiset(Targets(codec, message.peers))[addr])
      case _ => before
  }

  /** Reference: the filter of the client at `addr`, the last JSON text its own connection sent. */
  function Filter(codec: AddrCodec, acts: seq<Action>, addr: SocketAddr): string {
    if acts == [] then
      ""
    else
      var init := acts[..|acts| - 1];
      match acts[|acts| - 1]
      case Accept(_, a) => if a == addr then "" else Filter(codec, init, addr)
      case Text(conn, text, isJson) =>
        var live := Run(codec, init).live;
        if isJson && conn in live && live[conn] == addr && !addr.IsLoopback() then text else Filter(codec, init, addr)
      case _ => Filter(codec, init, addr)
  }

  ghost predicate FiltersExact(codec: AddrCodec, acts: seq<Action>, m: PeerMap) {
    forall a :: a in m ==> m[a].query == Filter(codec, acts, a)
  }

  /** Two live connections never share an address, and the map holds exactly the live addresses. */
  ghost predicate Registered(s: State) {
    && s.peers.Keys == s.live.Values
    && forall c, d :: c in s.live && d in s.live && c != d ==> s.live[c] != s.live[d]
  }

  ghost predicate MailboxesExact(codec: AddrCodec, acts: seq<Action>, m: PeerMap) {
    forall a :: a in m ==>
                  && m[a].isService == a.IsLoopback()
                  && m[a].outbox == if a.IsLoopback() then [] else Expected(codec, acts, a)
  }

  lemma {:induction false} CloseKeepsRegistered(s: State, conn: nat)
    requires Registered(s) && conn in s.live
    ensures Registered(Closed(s, conn))
  {
    var t := Closed(s, conn);
    forall a ensures a in t.peers <==> a in t.live.Values {
      if a in s.live.Values && a != s.live[conn] {
        var c :| c in s.live && s.live[c] == a;
        assert c in t.live && t.live[c] == a;
      }
    }
  }

  lemma {:induction false} AcceptKeepsRegistered(codec: AddrCodec, s: State, conn: nat, addr: SocketAddr)
    requires Registered(s) && conn !in s.live && addr !in s.live.Values
    ensures Registered(Next(codec, s, Accept(conn, addr)))
  {
    var t := Next(codec, s, Accept(conn, addr));
    forall a ensures a in t.peers <==> a in t.live.Values {
      if a in s.live.Values {
        var c :| c in s.live && s.live[c] == a;
        assert c in t.live && t.live[c] == a;
      }
      assert conn in t.live && t.live[conn] == addr;
    }
  }

  lemma {:induction false} SendStep(codec: AddrCodec, before: seq<Action>, m: PeerMap, message: PublishMessage)
    requires MailboxesExact(codec, before, m)
    ensures Routed(codec, m, message).Keys == m.Keys
    ensures MailboxesExact(codec, before + [Send(message)], Routed(codec, m, message))
  {
    var acts := before + [Send(message)];
    assert acts[..|acts| - 1] == before;
    if message.peers == "all" {
      assert Repeat(message.content, 1) == [message.content];
    } else {
      SentToEachCounts(m, Targets(codec, message.peers), message.content);
    }
  }

  /** Mailbox exactness: over every run in which an address is reused only after its connection is gone,
      the map's domain is the live addresses, service peers receive nothing, and every client's outbox
      is exactly its reference history. */
  lemma {:induction false} MailboxesMatchHistory(codec: AddrCodec, acts: seq<Action>)
    requires AddressesReleased(codec, acts)
    ensures Registered(Run(codec, acts))
    ensures MailboxesExact(codec, acts, Run(codec, acts).peers)
  {
    if acts != [] {
      var before, a := acts[..|acts| - 1], acts[|acts| - 1];
      MailboxesMatchHistory(codec, before);
      var s := Run(codec, before);
      assert acts == before + [a];
      match a {
        case Accept(conn, addr) => AcceptKeepsRegistered(codec, s, conn, addr);
        case Send(message) => SendStep(codec, before, s.peers, message);
        case Text(conn, _, isJson) =>
          if conn in s.live && !s.live[conn].IsLoopback() {
            if !isJson {
              CloseKeepsRegistered(s, conn);
            } else {
              assert s.live[conn] in s.live.Values;
            }
          }
        case Disconnect(conn) =>
          if conn in s.live {
            CloseKeepsRegistered(s, conn);
          }
      }
    }
  }

  /** Over the same runs every client's filter is the last JSON text its own connection sent, and a service
      peer has none. */
  lemma {:induction false} FiltersMatchHistory(codec: AddrCodec, acts: seq<Action>)
    requires AddressesReleased(codec, acts)
    ensures FiltersExact(codec, acts, Run(codec, acts).peers)
  {
    if acts != [] {
      var before, a := acts[..|acts| - 1], acts[|acts| - 1];
      FiltersMatchHistory(codec, before);
      MailboxesMatchHistory(codec, before);
      var s := Run(codec, before);
      hide Run, Routed;
      if a.Send? {
        RoutedForm(codec, s.peers, a.message, V6(0, 0));
        forall addr | addr in s.peers ensures Routed(codec, s.peers, a.message)[addr].query == s.peers[addr].query {
          RoutedForm(codec, s.peers, a.message, addr);
        }
      }
      AfterLast(codec, acts);
    }
  }

  lemma {:induction false} AfterLast(codec: AddrCodec, acts: seq<Action>)
    requires acts != []
    ensures Run(codec, acts) == Next(codec, Run(codec, acts[..|acts| - 1]), acts[|acts| - 1])
  {
  }

  /** Why the condition is there: cleaning up one connection keeps the map equal to the live addresses
      exactly if no other live connection has taken over its address. */
  lemma {:induction false} CleanupIsSafeIff(s: State, conn: nat)
    requires s.peers.Keys == s.live.Values && conn in s.live
    ensures Closed(s, conn).peers.Keys == Closed(s, conn).live.Values
            <==> forall c :: c in s.live && c != conn ==> s.live[c] != s.live[conn]
  {
    var t := Closed(s, conn);
    if forall c :: c in s.live && c != conn ==> s.live[c] != s.live[conn] {
      forall a ensures a in t.peers <==> a in t.live.Values {
        if a in s.live.Values && a != s.live[conn] {
          var c :| c in s.live && s.live[c] == a;
          assert c in t.live && t.live[c] == a;
        }
      }
    } else {
      var c :| c in s.live && c != conn && s.live[c] == s.live[conn];
      assert c in t.live && t.live[c] in t.live.Values && t.live[c] !in t.peers;
    }
  }
}
