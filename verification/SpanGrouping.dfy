/** The trace export: re-parenting of the guest's spans and their grouping by scope through a hash map.
    The map is a table of chains, one per hash value, scanned with the hand-written equality. */
module SpanGrouping {
  import opened Wrappers
  import opened Sequences
  import opened OtelValues

  datatype Span = Span(traceId: string, spanId: string, isRemote: bool, parentSpanId: string, name: string,
                       scope: Scope)

  /** What the hasher makes of the writes to it. */
  type Hasher = seq<Token> -> nat

  function HashOf(h: Hasher, scope: Scope): nat {
    h(ScopeFeed(scope))
  }

  /** A map entry: its key and the spans pushed under it. */
  datatype Group = Group(key: Scope, spans: seq<Span>)

  type Table = map<nat, seq<Group>>

  function Chain(table: Table, hash: nat): seq<Group> {
    if hash in table then table[hash] else []
  }

  /** The first entry of a chain with an equal key, or its length. */
  function Find(chain: seq<Group>, scope: Scope): (i: nat)
    ensures i <= |chain|
    ensures i < |chain| ==> ScopeEq(scope, chain[i].key)
    ensures forall j :: 0 <= j < i ==> !ScopeEq(scope, chain[j].key)
  {
    if chain == [] || ScopeEq(scope, chain[0].key) then 0 else 1 + Find(chain[1..], scope)
  }

  function Push(chain: seq<Group>, span: Span): seq<Group> {
    var i := Find(chain, span.scope);
    if i < |chain| then chain[i := Group(chain[i].key, chain[i].spans + [span])]
    else chain + [Group(span.scope, [span])]
  }

  function TableOf(h: Hasher, spans: seq<Span>): Table {
    if spans == [] then
      map[]
    else
      var table, span := TableOf(h, spans[..|spans| - 1]), spans[|spans| - 1];
      var hash := HashOf(h, span.scope);
      table[hash := Push(Chain(table, hash), span)]
  }

  /** The entries met when the chains are visited in the given order of hashes. */
  function Visited(table: Table, order: seq<nat>): seq<Group> {
    if order == [] then [] else Chain(table, order[0]) + Visited(table, order[1..])
  }

  ghost predicate Distinct(order: seq<nat>) {
    forall i, j :: 0 <= i < j < |order| ==> order[i] != order[j]
  }

  lemma {:induction false} DistinctRest(order: seq<nat>)
    requires Distinct(order) && order != []
    ensures Distinct(order[1..]) && order[0] !in order[1..]
    ensures forall hash :: hash in order <==> hash == order[0] || hash in order[1..]
  {
    assert order == [order[0]] + order[1..];
    assert forall i :: 0 <= i < |order| - 1 ==> order[1..][i] == order[i + 1];
  }

  /** Every hash of the table, each once. */
  ghost predicate IsOrder(table: Table, order: seq<nat>) {
    && Distinct(order)
    && forall hash :: hash in table <==> hash in order
  }

  /** All entries of the table in any order whatever: the map promises none. */
  ghost predicate Lists(table: Table, groups: seq<Group>) {
    exists order :: IsOrder(table, order) && multiset(groups) == multiset(Visited(table, order))
  }

  /** One exported group, named after its first span. */
  datatype ScopeSpans = ScopeSpans(scope: Scope, spans: seq<Span>)

  function Export(groups: seq<Group>): seq<ScopeSpans>
    requires forall i :: 0 <= i < |groups| ==> groups[i].spans != []
  {
    seq(|groups|, i requires 0 <= i < |groups| => ScopeSpans(groups[i].spans[0].scope, groups[i].spans))
  }

  lemma {:induction false} TableSnoc(h: Hasher, spans: seq<Span>, i: nat)
    requires i < |spans|
    ensures
      var table, hash := TableOf(h, spans[..i]), HashOf(h, spans[i].scope);
      TableOf(h, spans[..i + 1]) == table[hash := Push(Chain(table, hash), spans[i])]
  {
    assert spans[..i + 1][..i] == spans[..i];
  }

  method BuildTable(h: Hasher, spans: seq<Span>) returns (table: Table)
    ensures table == TableOf(h, spans)
  {
    table := map[];
    assert table == TableOf(h, spans[..0]);
    hide ScopeEq, ScopeFeed, TableOf;
    for i := 0 to |spans|
      invariant table == TableOf(h, spans[..i])
    {
      TableSnoc(h, spans, i);
      var span := spans[i];
      var hash := HashOf(h, span.scope);
      var chain := if hash in table then table[hash] else [];
      var at := Find(chain, span.scope);
      if at < |chain| {
        chain := chain[at := Group(chain[at].key, chain[at].spans + [span])];
      } else {
        chain := chain + [Group(span.scope, [span])];
      }
      table := table[hash := chain];
    }
    assert spans[..|spans|] == spans;
  }

  /** All groups of the table. */
  method IntoValues(table: Table) returns (groups: seq<Group>)
    ensures Lists(table, groups)
  {
    var hashes := table.Keys;
    groups := [];
    ghost var order: seq<nat> := [];
    while hashes != {}
      invariant hashes <= table.Keys
      invariant forall hash :: hash in table <==> hash in hashes || hash in order
      invariant forall hash :: hash in order ==> hash !in hashes
      invariant forall i, j :: 0 <= i < j < |order| ==> order[i] != order[j]
      invariant groups == Visited(table, order)
      decreases hashes
    {
      var hash :| hash in hashes;
      hashes := hashes - {hash};
      VisitedSnoc(table, order, hash);
      groups := groups + table[hash];
      order := order + [hash];
    }
  }

  ghost predicate ExportOf(groups: seq<Group>, exported: seq<ScopeSpans>) {
    (forall g :: g in groups ==> g.spans != []) && exported == Export(groups)
  }

  /** What the export may be, the iteration order of the map being any. */
  ghost predicate IsExport(h: Hasher, spans: seq<Span>, exported: seq<ScopeSpans>) {
    exists groups :: Lists(TableOf(h, spans), groups) && ExportOf(groups, exported)
  }

  method ResourceSpans(h: Hasher, spans: seq<Span>) returns (exported: seq<ScopeSpans>)
    ensures IsExport(h, spans, exported)
  {
    var table := BuildTable(h, spans);
    var groups := IntoValues(table);
    GroupsAreSound(h, spans, groups);
    exported := Export(groups);
    assert ExportOf(groups, exported);
  }

  lemma {:induction false} VisitedSnoc(table: Table, order: seq<nat>, hash: nat)
    ensures Visited(table, order + [hash]) == Visited(table, order) + Chain(table, hash)
  {
    if order != [] {
      assert (order + [hash])[1..] == order[1..] + [hash];
      VisitedSnoc(table, order[1..], hash);
    }
  }

  lemma {:induction false} VisitedIff(table: Table, order: seq<nat>, g: Group)
    ensures g in Visited(table, order) <==> exists hash :: hash in order && g in Chain(table, hash)
  {
    if order != [] {
      VisitedIff(table, order[1..], g);
      assert order == [order[0]] + order[1..];
    }
  }

  // ---------- for all scopes: nothing lost, nothing empty, order kept ----------

  /** `part` can be got from `whole` by leaving elements out. */
  ghost predicate IsSubsequence(part: seq<Span>, whole: seq<Span>) {
    if part == [] then true
    else if whole == [] then false
    else if part[|part| - 1] == whole[|whole| - 1] then IsSubsequence(part[..|part| - 1], whole[..|whole| - 1])
    else IsSubsequence(part, whole[..|whole| - 1])
  }

  lemma {:induction false} SubsequenceOfMore(part: seq<Span>, whole: seq<Span>, span: Span)
    requires IsSubsequence(part, whole)
    ensures IsSubsequence(part, whole + [span])
    decreases whole
  {
    assert (whole + [span])[..|whole|] == whole;
    if part != [] && part[|part| - 1] == span {
      var init := whole[..|whole| - 1];
      if part[|part| - 1] == whole[|whole| - 1] {
        SubsequenceOfMore(part[..|part| - 1], init, whole[|whole| - 1]);
      } else {
        DropLast(part, init);
        SubsequenceOfMore(part[..|part| - 1], init, whole[|whole| - 1]);
      }
      assert init + [whole[|whole| - 1]] == whole;
    }
  }

  lemma {:induction false} DropLast(part: seq<Span>, whole: seq<Span>)
    requires part != [] && IsSubsequence(part, whole)
    ensures IsSubsequence(part[..|part| - 1], whole)
    decreases whole
  {
    var init := whole[..|whole| - 1];
    if part[|part| - 1] == whole[|whole| - 1] {
      SubsequenceOfMore(part[..|part| - 1], init, whole[|whole| - 1]);
      assert init + [whole[|whole| - 1]] == whole;
    } else {
      DropLast(part, init);
      SubsequenceOfMore(part[..|part| - 1], init, whole[|whole| - 1]);
      assert init + [whole[|whole| - 1]] == whole;
    }
  }

  lemma {:induction false} SubsequencePush(part: seq<Span>, whole: seq<Span>, span: Span)
    requires IsSubsequence(part, whole)
    ensures IsSubsequence(part + [span], whole + [span])
  {
    assert (part + [span])[..|part|] == part && (whole + [span])[..|whole|] == whole;
  }

  /** A group is never empty, is named by its first span, has its spans in input order, and holds only
      spans whose scope equals its key (the first excepted, which need not equal itself). */
  ghost predicate SoundGroup(h: Hasher, spans: seq<Span>, hash: nat, g: Group) {
    && g.spans != [] && g.spans[0].scope == g.key
    && HashOf(h, g.key) == hash
    && IsSubsequence(g.spans, spans)
    && (forall i :: 0 <= i < |g.spans| ==> HashOf(h, g.spans[i].scope) == hash)
    && forall i :: 0 < i < |g.spans| ==> ScopeEq(g.spans[i].scope, g.key)
  }

  lemma {:induction false} SoundGroupKept(h: Hasher, spans: seq<Span>, span: Span, hash: nat, g: Group)
    requires SoundGroup(h, spans, hash, g)
    ensures SoundGroup(h, spans + [span], hash, g)
  {
    hide HashOf, ScopeEq, IsSubsequence;
    SubsequenceOfMore(g.spans, spans, span);
  }

  lemma {:induction false} NewlySoundGroup(h: Hasher, spans: seq<Span>, span: Span, chain: seq<Group>, g: Group)
    requires forall earlier :: earlier in chain ==> SoundGroup(h, spans, HashOf(h, span.scope), earlier)
    requires g in Push(chain, span) && g !in chain
    ensures SoundGroup(h, spans + [span], HashOf(h, span.scope), g)
  {
    hide HashOf, ScopeEq, IsSubsequence, Find;
    var i := Find(chain, span.scope);
    if i < |chain| {
      assert chain[i] in chain;
      SubsequencePush(chain[i].spans, spans, span);
    } else {
      EmptySubsequence(spans);
      SubsequencePush([], spans, span);
      assert [] + [span] == [span];
    }
  }

  lemma {:induction false} EmptySubsequence(spans: seq<Span>)
    ensures IsSubsequence([], spans)
  {
  }

  lemma {:induction false} TableIsSound(h: Hasher, spans: seq<Span>, hash: nat)
    ensures forall g :: g in Chain(TableOf(h, spans), hash) ==> SoundGroup(h, spans, hash, g)
  {
    if spans != [] {
      hide ScopeFeed, SoundGroup, Push;
      var init, span := spans[..|spans| - 1], spans[|spans| - 1];
      TableIsSound(h, init, hash);
      assert spans == init + [span];
      var earlier, later := Chain(TableOf(h, init), hash), Chain(TableOf(h, spans), hash);
      hide *;
      forall g | g in later ensures SoundGroup(h, spans, hash, g) {
        if g in earlier {
          SoundGroupKept(h, init, span, hash, g);
        } else {
          NewlySoundGroup(h, init, span, earlier, g);
        }
      }
    }
  }

  lemma {:induction false} ListedIff(table: Table, groups: seq<Group>, g: Group)
    requires Lists(table, groups)
    ensures g in groups <==> exists hash :: hash in table && g in Chain(table, hash)
  {
    var order :| IsOrder(table, order) && multiset(groups) == multiset(Visited(table, order));
    SameMembers(groups, Visited(table, order));
    VisitedIff(table, order, g);
  }

  lemma {:induction false} GroupsAreSound(h: Hasher, spans: seq<Span>, groups: seq<Group>)
    requires Lists(TableOf(h, spans), groups)
    ensures forall g :: g in groups ==> SoundGroup(h, spans, HashOf(h, g.key), g)
  {
    forall g | g in groups ensures SoundGroup(h, spans, HashOf(h, g.key), g) {
      ListedIff(TableOf(h, spans), groups, g);
      var hash :| hash in TableOf(h, spans) && g in Chain(TableOf(h, spans), hash);
      TableIsSound(h, spans, hash);
    }
  }

  function AllSpans(groups: seq<Group>): multiset<Span> {
    if groups == [] then multiset{} else AllSpans(groups[..|groups| - 1]) + multiset(groups[|groups| - 1].spans)
  }

  lemma {:induction false} AllSpansConcat(a: seq<Group>, b: seq<Group>)
    ensures AllSpans(a + b) == AllSpans(a) + AllSpans(b)
  {
    if b == [] {
      assert a + b == a;
    } else {
      assert (a + b)[..|a + b| - 1] == a + b[..|b| - 1];
      AllSpansConcat(a, b[..|b| - 1]);
    }
  }

  lemma {:induction false} PushReplaces(chain: seq<Group>, span: Span)
    requires Find(chain, span.scope) < |chain|
    ensures
      var i := Find(chain, span.scope);
      Push(chain, span) == chain[..i] + [Group(chain[i].key, chain[i].spans + [span])] + chain[i + 1..]
  {
    hide Find, ScopeEq;
  }

  lemma {:induction false} PushAddsOne(chain: seq<Group>, span: Span)
    ensures AllSpans(Push(chain, span)) == AllSpans(chain) + multiset{span}
  {
    var i := Find(chain, span.scope);
    if i < |chain| {
      var g, g' := chain[i], Group(chain[i].key, chain[i].spans + [span]);
      PushReplaces(chain, span);
      hide Push, Find, ScopeEq;
      assert chain == chain[..i] + [g] + chain[i + 1..];
      AllSpansAround(chain[..i], g, chain[i + 1..]);
      AllSpansAround(chain[..i], g', chain[i + 1..]);
    } else {
      var g := Group(span.scope, [span]);
      AllSpansAround(chain, g, []);
      assert chain + [g] + [] == chain + [g];
    }
  }

  lemma {:induction false} AllSpansAround(a: seq<Group>, g: Group, b: seq<Group>)
    ensures AllSpans(a + [g] + b) == AllSpans(a) + multiset(g.spans) + AllSpans(b)
  {
    AllSpansConcat(a + [g], b);
    AllSpansConcat(a, [g]);
    assert AllSpans([g]) == multiset(g.spans);
  }

  /** Replacing one chain changes what is visited by exactly that chain's contents. */
  lemma {:induction false} VisitedAfterPush(table: Table, order: seq<nat>, hash: nat, span: Span)
    requires Distinct(order)
    ensures AllSpans(Visited(table[hash := Push(Chain(table, hash), span)], order))
            == AllSpans(Visited(table, order)) + if hash in order then multiset{span} else multiset{}
  {
    if order != [] {
      hide *;
      var table' := table[hash := Push(Chain(table, hash), span)];
      var rest := order[1..];
      DistinctRest(order);
      VisitedAfterPush(table, rest, hash, span);
      VisitedFirst(table, order);
      VisitedFirst(table', order);
      ChainAfterPush(table, order[0], hash, span);
      AddApart(AllSpans(Chain(table, order[0])), AllSpans(Visited(table, rest)), span,
               order[0] == hash, hash in rest, hash in order);
    }
  }

  lemma {:induction false} AddApart<T>(a: multiset<T>, b: multiset<T>, x: T, inA: bool, inB: bool, inEither: bool)
    requires !(inA && inB) && inEither == (inA || inB)
    ensures (a + if inA then multiset{x} else multiset{}) + (b + if inB then multiset{x} else multiset{})
            == (a + b) + if inEither then multiset{x} else multiset{}
  {
  }

  lemma {:induction false} VisitedFirst(table: Table, order: seq<nat>)
    requires order != []
    ensures AllSpans(Visited(table, order)) == AllSpans(Chain(table, order[0])) + AllSpans(Visited(table, order[1..]))
  {
    AllSpansConcat(Chain(table, order[0]), Visited(table, order[1..]));
  }

  lemma {:induction false} ChainAfterPush(table: Table, at: nat, hash: nat, span: Span)
    ensures AllSpans(Chain(table[hash := Push(Chain(table, hash), span)], at))
            == AllSpans(Chain(table, at)) + if at == hash then multiset{span} else multiset{}
  {
    hide Push, AllSpans;
    PushAddsOne(Chain(table, hash), span);
  }

  lemma {:induction false} VisitedSpans(h: Hasher, spans: seq<Span>, order: seq<nat>)
    requires Distinct(order)
    requires forall hash :: hash in TableOf(h, spans) ==> hash in order
    ensures AllSpans(Visited(TableOf(h, spans), order)) == multiset(spans)
  {
    if spans == [] {
      NothingVisited(order);
    } else {
      var init, span := spans[..|spans| - 1], spans[|spans| - 1];
      assert spans == init + [span];
      VisitedSpans(h, init, order);
      VisitedAfterPush(TableOf(h, init), order, HashOf(h, span.scope), span);
    }
  }

  lemma {:induction false} NothingVisited(order: seq<nat>)
    ensures Visited(map[], order) == []
  {
    if order != [] {
      NothingVisited(order[1..]);
    }
  }

  lemma {:induction false} AllSpansPermute(a: seq<Group>, b: seq<Group>)
    requires multiset(a) == multiset(b)
    ensures AllSpans(a) == AllSpans(b)
    decreases |a|
  {
    if a == [] {
      SameMembers(a, b);
    } else {
      var k := FindFirst(a, b);
      AllSpansPermute(a[1..], Dropped(b, k));
      assert a == [] + [a[0]] + a[1..] && b == b[..k] + [b[k]] + b[k + 1..];
      AllSpansAround([], a[0], a[1..]);
      AllSpansAround(b[..k], b[k], b[k + 1..]);
      AllSpansConcat(b[..k], b[k + 1..]);
    }
  }

  /** Grouping conserves the multiset of spans, for every hasher and every iteration order. */
  lemma {:induction false} SpansAreConserved(h: Hasher, spans: seq<Span>, groups: seq<Group>)
    requires Lists(TableOf(h, spans), groups)
    ensures AllSpans(groups) == multiset(spans)
  {
    var order :| IsOrder(TableOf(h, spans), order) && multiset(groups) == multiset(Visited(TableOf(h, spans), order));
    VisitedSpans(h, spans, order);
    hide TableOf, Visited;
    AllSpansPermute(groups, Visited(TableOf(h, spans), order));
  }

  // ---------- when grouping is the partition by scope ----------

  /** The spans of a scope, in input order. */
  function OfScope(spans: seq<Span>, scope: Scope): seq<Span> {
    if spans == [] then []
    else OfScope(spans[..|spans| - 1], scope)
         + if ScopeEq(spans[|spans| - 1].scope, scope) then [spans[|spans| - 1]] else []
  }

  /** What a hash map demands of these keys: equality is reflexive and equal keys write the same to a hasher. */
  ghost predicate LawAbiding(keys: set<Scope>) {
    && (forall a :: a in keys ==> ScopeEq(a, a))
    && forall a, b :: a in keys && b in keys && ScopeEq(a, b) ==> ScopeFeed(a) == ScopeFeed(b)
  }

  ghost predicate ScopesIn(spans: seq<Span>, keys: set<Scope>) {
    forall i :: 0 <= i < |spans| ==> spans[i].scope in keys
  }

  ghost predicate KeysApart(groups: seq<Group>) {
    forall i, j :: 0 <= i < j < |groups| ==> !ScopeEq(groups[i].key, groups[j].key)
  }

  /** A chain holds exactly one group per scope of its hash, with all spans of that scope. */
  ghost predicate ExactChain(h: Hasher, keys: set<Scope>, spans: seq<Span>, hash: nat, chain: seq<Group>) {
    && (forall i :: 0 <= i < |chain| ==>
                      && chain[i].key in keys && HashOf(h, chain[i].key) == hash
                      && chain[i].spans == OfScope(spans, chain[i].key))
    && KeysApart(chain)
    && forall k :: 0 <= k < |spans| && HashOf(h, spans[k].scope) == hash ==>
                     exists i :: 0 <= i < |chain| && ScopeEq(spans[k].scope, chain[i].key)
  }

  lemma {:induction false} NoneOfScope(spans: seq<Span>, scope: Scope)
    requires forall k :: 0 <= k < |spans| ==> !ScopeEq(spans[k].scope, scope)
    ensures OfScope(spans, scope) == []
  {
    if spans != [] {
      NoneOfScope(spans[..|spans| - 1], scope);
    }
  }

  lemma {:induction false} OtherHashNotEq(h: Hasher, keys: set<Scope>, a: Scope, b: Scope)
    requires LawAbiding(keys) && a in keys && b in keys && HashOf(h, a) != HashOf(h, b)
    ensures !ScopeEq(a, b)
  {
  }

  lemma {:induction false} SpanOfScopeHasKey(h: Hasher, keys: set<Scope>, spans: seq<Span>, chain: seq<Group>,
                                             scope: Scope, k: nat)
    requires LawAbiding(keys) && ScopesIn(spans, keys) && scope in keys
    requires ExactChain(h, keys, spans, HashOf(h, scope), chain)
    requires k < |spans| && ScopeEq(spans[k].scope, scope)
    ensures exists j :: 0 <= j < |chain| && ScopeEq(scope, chain[j].key)
  {
    hide ScopeEq, ScopeFeed, OfScope;
    var j :| 0 <= j < |chain| && ScopeEq(spans[k].scope, chain[j].key);
    ScopeEqIsSymmetric(spans[k].scope, scope);
    ScopeEqIsTransitive(scope, spans[k].scope, chain[j].key);
  }

  /** A scope that opens a new group is the scope of no earlier span. */
  lemma {:induction false} NewScopeIsNew(h: Hasher, keys: set<Scope>, spans: seq<Span>, chain: seq<Group>,
                                         scope: Scope)
    requires LawAbiding(keys) && ScopesIn(spans, keys) && scope in keys
    requires ExactChain(h, keys, spans, HashOf(h, scope), chain)
    requires Find(chain, scope) == |chain|
    ensures OfScope(spans, scope) == []
  {
    hide ScopeEq, ScopeFeed, OfScope, LawAbiding, ExactChain;
    forall k | 0 <= k < |spans| ensures !ScopeEq(spans[k].scope, scope) {
      if ScopeEq(spans[k].scope, scope) {
        SpanOfScopeHasKey(h, keys, spans, chain, scope, k);
      }
    }
    NoneOfScope(spans, scope);
  }

  lemma {:induction false} ApartBothWays(groups: seq<Group>, i: nat, j: nat)
    requires KeysApart(groups) && i < |groups| && j < |groups| && i != j
    ensures !ScopeEq(groups[i].key, groups[j].key)
  {
    hide ScopeEq;
    ScopeEqIsSymmetric(groups[i].key, groups[j].key);
  }

  /** A group other than the one found has another scope. */
  lemma {:induction false} OnlyFoundMatches(chain: seq<Group>, scope: Scope, i: nat)
    requires KeysApart(chain)
    requires i < |chain| && i != Find(chain, scope)
    ensures !ScopeEq(scope, chain[i].key)
  {
    hide ScopeEq, KeysApart;
    var at := Find(chain, scope);
    if at < |chain| {
      ApartBothWays(chain, at, i);
      ScopeEqIsSymmetric(scope, chain[at].key);
      if ScopeEq(scope, chain[i].key) {
        ScopeEqIsTransitive(chain[at].key, scope, chain[i].key);
      }
    }
  }

  lemma {:induction false} OfScopeSnoc(spans: seq<Span>, span: Span, scope: Scope)
    ensures OfScope(spans + [span], scope)
            == OfScope(spans, scope) + if ScopeEq(span.scope, scope) then [span] else []
  {
    assert (spans + [span])[..|spans|] == spans;
  }

  lemma {:induction false} PushKeepsApart(chain: seq<Group>, span: Span)
    requires KeysApart(chain)
    ensures KeysApart(Push(chain, span))
  {
    hide ScopeEq;
    var pushed := Push(chain, span);
    forall i, j | 0 <= i < j < |pushed| ensures !ScopeEq(pushed[i].key, pushed[j].key) {
      ScopeEqIsSymmetric(pushed[i].key, pushed[j].key);
    }
  }

  lemma {:induction false} PushKeepsExact(h: Hasher, keys: set<Scope>, spans: seq<Span>, chain: seq<Group>,
                                          span: Span)
    requires LawAbiding(keys) && ScopesIn(spans, keys) && span.scope in keys
    requires ExactChain(h, keys, spans, HashOf(h, span.scope), chain)
    ensures ExactChain(h, keys, spans + [span], HashOf(h, span.scope), Push(chain, span))
  {
    var hash, more, pushed := HashOf(h, span.scope), spans + [span], Push(chain, span);
    var at := Find(chain, span.scope);
    hide ScopeEq, ScopeFeed, OfScope;
    assert ScopeEq(span.scope, span.scope);
    PushKeepsApart(chain, span);
    hide LawAbiding, KeysApart;
    forall i | 0 <= i < |pushed|
      ensures pushed[i].key in keys && HashOf(h, pushed[i].key) == hash
      ensures pushed[i].spans == OfScope(more, pushed[i].key)
    {
      OfScopeSnoc(spans, span, pushed[i].key);
      if i == |chain| {
        NewScopeIsNew(h, keys, spans, chain, span.scope);
      } else if i != at {
        OnlyFoundMatches(chain, span.scope, i);
      }
    }
    forall k | 0 <= k < |more| && HashOf(h, more[k].scope) == hash
      ensures exists i :: 0 <= i < |pushed| && ScopeEq(more[k].scope, pushed[i].key)
    {
      if k < |spans| {
        var i :| 0 <= i < |chain| && ScopeEq(spans[k].scope, chain[i].key);
        assert pushed[i].key == chain[i].key;
      } else {
        assert ScopeEq(more[k].scope, pushed[at].key);
      }
    }
  }

  lemma {:induction false} OtherChainKeepsExact(h: Hasher, keys: set<Scope>, spans: seq<Span>, hash: nat,
                                                chain: seq<Group>, span: Span)
    requires LawAbiding(keys) && span.scope in keys && HashOf(h, span.scope) != hash
    requires ExactChain(h, keys, spans, hash, chain)
    ensures ExactChain(h, keys, spans + [span], hash, chain)
  {
    hide ScopeEq, LawAbiding, HashOf, OfScope;
    var more := spans + [span];
    forall i | 0 <= i < |chain| ensures chain[i].spans == OfScope(more, chain[i].key) {
      OfScopeSnoc(spans, span, chain[i].key);
      OtherHashNotEq(h, keys, span.scope, chain[i].key);
    }
  }

  lemma {:induction false} EmptyChainIsExact(h: Hasher, keys: set<Scope>, hash: nat)
    ensures ExactChain(h, keys, [], hash, Chain(TableOf(h, []), hash))
  {
    hide ScopeEq, HashOf;
  }

  lemma {:induction false} ScopesInSnoc(init: seq<Span>, span: Span, keys: set<Scope>)
    requires ScopesIn(init + [span], keys)
    ensures ScopesIn(init, keys) && span.scope in keys
  {
    assert forall i :: 0 <= i < |init| ==> (init + [span])[i] == init[i];
    assert (init + [span])[|init|] == span;
  }

  lemma {:induction false} ChainSnoc(h: Hasher, spans: seq<Span>, hash: nat)
    requires spans != []
    ensures
      var chain, span := Chain(TableOf(h, spans[..|spans| - 1]), hash), spans[|spans| - 1];
      Chain(TableOf(h, spans), hash) == if HashOf(h, span.scope) == hash then Push(chain, span) else chain
  {
    hide Push, HashOf;
  }

  lemma {:induction false} ChainsAreExact(h: Hasher, keys: set<Scope>, spans: seq<Span>, hash: nat)
    requires LawAbiding(keys) && ScopesIn(spans, keys)
    ensures ExactChain(h, keys, spans, hash, Chain(TableOf(h, spans), hash))
  {
    hide *;
    if spans == [] {
      EmptyChainIsExact(h, keys, hash);
    } else {
      var init, span := spans[..|spans| - 1], spans[|spans| - 1];
      assert spans == init + [span];
      ScopesInSnoc(init, span, keys);
      ChainSnoc(h, spans, hash);
      ChainsAreExact(h, keys, init, hash);
      if HashOf(h, span.scope) == hash {
        PushKeepsExact(h, keys, init, Chain(TableOf(h, init), hash), span);
      } else {
        OtherChainKeepsExact(h, keys, init, hash, Chain(TableOf(h, init), hash), span);
      }
    }
  }

  lemma {:induction false} KeysOfOtherChainsDiffer(h: Hasher, keys: set<Scope>, spans: seq<Span>, hash: nat,
                                                   rest: seq<nat>, a: Group, b: Group)
    requires LawAbiding(keys) && ScopesIn(spans, keys) && hash !in rest
    requires a in Chain(TableOf(h, spans), hash) && b in Visited(TableOf(h, spans), rest)
    ensures !ScopeEq(a.key, b.key)
  {
    hide ScopeEq, ScopeFeed, TableOf, OfScope, LawAbiding;
    VisitedIff(TableOf(h, spans), rest, b);
    var other :| other in rest && b in Chain(TableOf(h, spans), other);
    ChainsAreExact(h, keys, spans, hash);
    ChainsAreExact(h, keys, spans, other);
    OtherHashNotEq(h, keys, a.key, b.key);
  }

  lemma {:induction false} ConcatApart(a: seq<Group>, b: seq<Group>)
    requires KeysApart(a) && KeysApart(b)
    requires forall x, y :: x in a && y in b ==> !ScopeEq(x.key, y.key)
    ensures KeysApart(a + b)
  {
    hide ScopeEq;
  }

  lemma {:induction false} VisitedKeysDiffer(h: Hasher, keys: set<Scope>, spans: seq<Span>, order: seq<nat>)
    requires LawAbiding(keys) && ScopesIn(spans, keys) && Distinct(order)
    ensures KeysApart(Visited(TableOf(h, spans), order))
  {
    if order != [] {
      var table, rest := TableOf(h, spans), order[1..];
      hide ScopeEq, ScopeFeed, TableOf, OfScope, LawAbiding, ScopesIn;
      DistinctRest(order);
      VisitedKeysDiffer(h, keys, spans, rest);
      ChainsAreExact(h, keys, spans, order[0]);
      forall a, b | a in Chain(table, order[0]) && b in Visited(table, rest) ensures !ScopeEq(a.key, b.key) {
        KeysOfOtherChainsDiffer(h, keys, spans, order[0], rest, a, b);
      }
      ConcatApart(Chain(table, order[0]), Visited(table, rest));
    }
  }

  lemma {:induction false} ApartPermutes(a: seq<Group>, b: seq<Group>)
    requires multiset(a) == multiset(b) && KeysApart(b)
    ensures KeysApart(a)
    decreases |a|
  {
    if a != [] {
      var k := FindFirst(a, b);
      DroppedApart(b, k);
      hide ScopeEq, Dropped;
      ApartPermutes(a[1..], Dropped(b, k));
      SameMembers(a[1..], Dropped(b, k));
      assert a == [a[0]] + a[1..];
      ConcatApart([a[0]], a[1..]);
    }
  }

  lemma {:induction false} DroppedApart(groups: seq<Group>, k: nat)
    requires KeysApart(groups) && k < |groups|
    ensures KeysApart(Dropped(groups, k))
    ensures forall y :: y in Dropped(groups, k) ==> !ScopeEq(groups[k].key, y.key)
  {
    hide ScopeEq;
    var rest := Dropped(groups, k);
    assert forall i :: 0 <= i < |rest| ==> rest[i] == groups[if i < k then i else i + 1];
    forall y | y in rest ensures !ScopeEq(groups[k].key, y.key) {
      var i :| 0 <= i < |rest| && rest[i] == y;
      ApartBothWays(groups, k, if i < k then i else i + 1);
    }
  }

  /** When equal scopes of the input are hashed alike, grouping is the partition by scope: whatever the
      hasher and the iteration order, the groups have pairwise different scopes, each holds exactly the
      spans of its scope in input order, and every span's scope has its group. */
  lemma {:induction false} GroupsPartition(h: Hasher, keys: set<Scope>, spans: seq<Span>, groups: seq<Group>)
    requires LawAbiding(keys) && ScopesIn(spans, keys) && Lists(TableOf(h, spans), groups)
    ensures KeysApart(groups)
    ensures forall g :: g in groups ==> g.spans == OfScope(spans, g.key)
    ensures forall k :: 0 <= k < |spans| ==> exists g :: g in groups && ScopeEq(spans[k].scope, g.key)
  {
    var table := TableOf(h, spans);
    var order :| IsOrder(table, order) && multiset(groups) == multiset(Visited(table, order));
    VisitedKeysDiffer(h, keys, spans, order);
    hide ScopeEq, OfScope, LawAbiding, TableOf, Visited, ScopeFeed;
    ApartPermutes(groups, Visited(table, order));
    forall g | g in groups ensures g.spans == OfScope(spans, g.key) {
      ListedIff(table, groups, g);
      var hash :| hash in table && g in Chain(table, hash);
      ChainsAreExact(h, keys, spans, hash);
    }
    forall k | 0 <= k < |spans| ensures exists g :: g in groups && ScopeEq(spans[k].scope, g.key) {
      var hash := HashOf(h, spans[k].scope);
      ChainsAreExact(h, keys, spans, hash);
      var i :| 0 <= i < |Chain(table, hash)| && ScopeEq(spans[k].scope, Chain(table, hash)[i].key);
      var g := Chain(table, hash)[i];
      assert hash in table && g in Chain(table, hash);
      ListedIff(table, groups, g);
    }
  }

  /** The spans of all exported groups together. */
  function SpansOf(exported: seq<ScopeSpans>): multiset<Span> {
    if exported == [] then multiset{}
    else SpansOf(exported[..|exported| - 1]) + multiset(exported[|exported| - 1].spans)
  }

  lemma {:induction false} SpansOfExport(groups: seq<Group>)
    requires forall i :: 0 <= i < |groups| ==> groups[i].spans != []
    ensures SpansOf(Export(groups)) == AllSpans(groups)
  {
    if groups != [] {
      var init := groups[..|groups| - 1];
      SpansOfExport(init);
      assert Export(groups)[..|init|] == Export(init);
    }
  }

  /** The exported groups are the table's, under the scopes of their keys. */
  lemma {:induction false} ExportedAreGroups(h: Hasher, spans: seq<Span>, groups: seq<Group>,
                                             exported: seq<ScopeSpans>)
    requires Lists(TableOf(h, spans), groups) && ExportOf(groups, exported)
    ensures |exported| == |groups|
    ensures forall i :: 0 <= i < |groups| ==> exported[i] == ScopeSpans(groups[i].key, groups[i].spans)
    ensures SpansOf(exported) == AllSpans(groups)
  {
    hide TableOf, Lists, IsSubsequence;
    GroupsAreSound(h, spans, groups);
    SpansOfExport(groups);
    forall i | 0 <= i < |groups| ensures exported[i] == ScopeSpans(groups[i].key, groups[i].spans) {
      assert groups[i] in groups;
    }
  }

  /** Whatever the hasher, the iteration order and the scopes, the export holds every span as often as the
      input, and each of its groups is non-empty, named after its first span, and in input order. */
  lemma {:induction false} ExportIsFaithful(h: Hasher, spans: seq<Span>, exported: seq<ScopeSpans>)
    requires IsExport(h, spans, exported)
    ensures SpansOf(exported) == multiset(spans)
    ensures forall e :: e in exported ==>
                          e.spans != [] && e.scope == e.spans[0].scope && IsSubsequence(e.spans, spans)
  {
    var groups :| Lists(TableOf(h, spans), groups) && ExportOf(groups, exported);
    hide TableOf, Lists, IsSubsequence, HashOf, ScopeEq;
    ExportedAreGroups(h, spans, groups, exported);
    SpansAreConserved(h, spans, groups);
    GroupsAreSound(h, spans, groups);
    forall e | e in exported
      ensures e.spans != [] && e.scope == e.spans[0].scope && IsSubsequence(e.spans, spans)
    {
      var i :| 0 <= i < |exported| && exported[i] == e;
      assert groups[i] in groups;
    }
  }

  ghost predicate HasGroup(exported: seq<ScopeSpans>, scope: Scope) {
    exists e :: e in exported && ScopeEq(scope, e.scope)
  }

  /** The groups have pairwise different scopes, each holds the spans of its scope in input order, and every
      span's scope has its group. */
  ghost predicate IsPartition(spans: seq<Span>, exported: seq<ScopeSpans>) {
    && (forall i, j :: 0 <= i < j < |exported| ==> !ScopeEq(exported[i].scope, exported[j].scope))
    && (forall e :: e in exported ==> e.spans == OfScope(spans, e.scope))
    && forall k :: 0 <= k < |spans| ==> HasGroup(exported, spans[k].scope)
  }

  function ScopesOf(spans: seq<Span>): set<Scope> {
    set i | 0 <= i < |spans| :: spans[i].scope
  }

  lemma {:induction false} LawAbidingExportPartitions(h: Hasher, spans: seq<Span>, exported: seq<ScopeSpans>)
    requires LawAbiding(ScopesOf(spans)) && IsExport(h, spans, exported)
    ensures IsPartition(spans, exported)
  {
    var groups :| Lists(TableOf(h, spans), groups) && ExportOf(groups, exported);
    hide TableOf, Lists, ExportOf, LawAbiding, ScopeEq, OfScope, IsPartition;
    ExportedAreGroups(h, spans, groups, exported);
    GroupsPartition(h, ScopesOf(spans), spans, groups);
    PartitionCarriesOver(spans, groups, exported);
  }

  /** If no scope attribute is a NaN or a scalar minus zero, the export is the partition by scope. */
  lemma {:induction false} ExportIsPartition(h: Hasher, spans: seq<Span>, exported: seq<ScopeSpans>)
    requires forall i :: 0 <= i < |spans| ==> Lawful(spans[i].scope)
    requires IsExport(h, spans, exported)
    ensures IsPartition(spans, exported)
  {
    var keys := ScopesOf(spans);
    hide IsExport, IsPartition, ScopeEq, ScopeFeed;
    forall a | a in keys ensures ScopeEq(a, a) {
      ReflexiveIff(a);
    }
    forall a, b | a in keys && b in keys && ScopeEq(a, b) ensures ScopeFeed(a) == ScopeFeed(b) {
      EqScopesFeedAlike(a, b);
    }
    LawAbidingExportPartitions(h, spans, exported);
  }

  lemma {:induction false} PartitionCarriesOver(spans: seq<Span>, groups: seq<Group>, exported: seq<ScopeSpans>)
    requires |exported| == |groups|
    requires forall i :: 0 <= i < |groups| ==> exported[i] == ScopeSpans(groups[i].key, groups[i].spans)
    requires KeysApart(groups)
    requires forall g :: g in groups ==> g.spans == OfScope(spans, g.key)
    requires forall k :: 0 <= k < |spans| ==> exists g :: g in groups && ScopeEq(spans[k].scope, g.key)
    ensures IsPartition(spans, exported)
  {
    hide ScopeEq, OfScope;
    forall i, j | 0 <= i < j < |exported| ensures !ScopeEq(exported[i].scope, exported[j].scope) {
      assert exported[i].scope == groups[i].key && exported[j].scope == groups[j].key;
    }
    forall e | e in exported ensures e.spans == OfScope(spans, e.scope) {
      var i :| 0 <= i < |exported| && exported[i] == e;
      assert groups[i] in groups;
    }
    forall k | 0 <= k < |spans| ensures HasGroup(exported, spans[k].scope) {
      var g :| g in groups && ScopeEq(spans[k].scope, g.key);
      var i :| 0 <= i < |groups| && groups[i] == g;
      assert exported[i] in exported;
    }
  }

  // ---------- and when it is not ----------

  lemma {:induction false} SomeOrder(hashes: set<nat>) returns (order: seq<nat>)
    ensures Distinct(order) && forall hash :: hash in hashes <==> hash in order
  {
    if hashes == {} {
      order := [];
    } else {
      var hash :| hash in hashes;
      var rest := SomeOrder(hashes - {hash});
      order := [hash] + rest;
    }
  }

  lemma {:induction false} SomeExport(h: Hasher, spans: seq<Span>)
    returns (groups: seq<Group>, exported: seq<ScopeSpans>)
    ensures Lists(TableOf(h, spans), groups) && ExportOf(groups, exported) && IsExport(h, spans, exported)
  {
    var table := TableOf(h, spans);
    var order := SomeOrder(table.Keys);
    groups := Visited(table, order);
    assert IsOrder(table, order);
    hide TableOf, Visited;
    GroupsAreSound(h, spans, groups);
    exported := Export(groups);
  }

  lemma {:induction false} InOfScopeIff(spans: seq<Span>, scope: Scope, k: nat)
    requires k < |spans| && ScopeEq(spans[k].scope, scope)
    ensures spans[k] in OfScope(spans, scope)
  {
    if k < |spans| - 1 {
      InOfScopeIff(spans[..|spans| - 1], scope, k);
    }
  }

  /** Whatever the hasher and the iteration order, the export is the partition by scope. */
  ghost predicate AlwaysPartitions(spans: seq<Span>) {
    forall h, exported :: IsExport(h, spans, exported) ==> IsPartition(spans, exported)
  }

  lemma {:induction false} OneFailureIsEnough(h: Hasher, spans: seq<Span>, exported: seq<ScopeSpans>)
    requires IsExport(h, spans, exported) && !IsPartition(spans, exported)
    ensures !AlwaysPartitions(spans)
  {
    hide IsExport, IsPartition;
  }

  /** A span of a scope with a NaN finds no group. */
  lemma {:induction false} NaNBreaksPartition(spans: seq<Span>, k: nat)
    requires k < |spans| && !ScopeEq(spans[k].scope, spans[k].scope)
    ensures !AlwaysPartitions(spans)
  {
    var h: Hasher := feed => 0;
    var groups, exported := SomeExport(h, spans);
    ReflexiveIff(spans[k].scope);
    forall e | e in exported ensures !ScopeEq(spans[k].scope, e.scope) {
      NaNEqualsNothing(e.scope, spans[k].scope);
      ScopeEqIsSymmetric(e.scope, spans[k].scope);
    }
    assert !HasGroup(exported, spans[k].scope);
    OneFailureIsEnough(h, spans, exported);
  }

  /** Two spans with equal scopes that write differently: a hasher that tells them apart splits them. */
  lemma {:induction false} DifferentFeedsBreakPartition(spans: seq<Span>, i: nat, j: nat)
    requires i < |spans| && j < |spans|
    requires ScopeEq(spans[i].scope, spans[j].scope) && ScopeFeed(spans[i].scope) != ScopeFeed(spans[j].scope)
    ensures !AlwaysPartitions(spans)
  {
    var apart := ScopeFeed(spans[i].scope);
    var h: Hasher := feed => if feed == apart then 1 else 0;
    assert HashOf(h, spans[i].scope) != HashOf(h, spans[j].scope);
    hide *;
    var groups, exported := SomeExport(h, spans);
    if IsPartition(spans, exported) {
      SplitScope(h, spans, groups, exported, i, j);
    }
    OneFailureIsEnough(h, spans, exported);
  }

  /** In a partition, spans of equal scopes have equal hashes. */
  lemma {:induction false} SplitScope(h: Hasher, spans: seq<Span>, groups: seq<Group>, exported: seq<ScopeSpans>,
                                      i: nat, j: nat)
    requires i < |spans| && j < |spans| && ScopeEq(spans[i].scope, spans[j].scope)
    requires Lists(TableOf(h, spans), groups) && ExportOf(groups, exported) && IsPartition(spans, exported)
    ensures HashOf(h, spans[i].scope) == HashOf(h, spans[j].scope)
  {
    hide TableOf, Lists, ScopeEq, OfScope, HashOf, ExportOf;
    ExportedAreGroups(h, spans, groups, exported);
    GroupsAreSound(h, spans, groups);
    assert HasGroup(exported, spans[j].scope);
    var e :| e in exported && ScopeEq(spans[j].scope, e.scope);
    ScopeEqIsTransitive(spans[i].scope, spans[j].scope, e.scope);
    InOfScopeIff(spans, e.scope, i);
    InOfScopeIff(spans, e.scope, j);
    var k :| 0 <= k < |exported| && exported[k] == e;
    assert groups[k] in groups;
  }

  /** Exactly when grouping is the partition by scope, for every hasher and iteration order: when no scope of
      the input holds a NaN and equal scopes of the input write the same to the hasher. */
  lemma {:induction false} ExportIsPartitionIff(spans: seq<Span>)
    ensures AlwaysPartitions(spans) <==> LawAbiding(ScopesOf(spans))
  {
    hide IsExport, IsPartition, ScopeEq, ScopeFeed;
    if LawAbiding(ScopesOf(spans)) {
      forall h, exported | IsExport(h, spans, exported) ensures IsPartition(spans, exported) {
        LawAbidingExportPartitions(h, spans, exported);
      }
    } else if a :| a in ScopesOf(spans) && !ScopeEq(a, a) {
      var k :| 0 <= k < |spans| && spans[k].scope == a;
      NaNBreaksPartition(spans, k);
    } else {
      var a, b :| a in ScopesOf(spans) && b in ScopesOf(spans) && ScopeEq(a, b) && ScopeFeed(a) != ScopeFeed(b);
      var i :| 0 <= i < |spans| && spans[i].scope == a;
      var j :| 0 <= j < |spans| && spans[j].scope == b;
      DifferentFeedsBreakPartition(spans, i, j);
    }
  }

  /** A scope with a NaN equals nothing, so every one of its spans gets a group of its own. */
  lemma {:induction false} NaNScopesNeverGroup(h: Hasher, spans: seq<Span>, hash: nat, g: Group)
    requires g in Chain(TableOf(h, spans), hash) && ScopeHasNaN(g.key)
    ensures |g.spans| == 1
  {
    TableIsSound(h, spans, hash);
    hide TableOf, ScopeFeed, IsSubsequence, ScopeEq, ScopeHasNaN;
    if |g.spans| > 1 {
      NaNEqualsNothing(g.spans[1].scope, g.key);
    }
  }

  // ---------- re-parenting ----------

  function Reparented(span: Span, traceId: string, parentId: string): Span {
    span.(traceId := traceId, isRemote := true, parentSpanId := parentId)
  }

  function ReparentedAll(spans: seq<Span>, traceId: string, parentId: string): seq<Span> {
    seq(|spans|, i requires 0 <= i < |spans| => Reparented(spans[i], traceId, parentId))
  }

  method Reparent(spans: array<Span>, traceId: string, parentId: string)
    modifies spans
    ensures spans[..] == ReparentedAll(old(spans[..]), traceId, parentId)
    ensures forall i :: 0 <= i < spans.Length ==>
                          && spans[i].traceId == traceId
                          && spans[i].isRemote
                          && spans[i].parentSpanId == parentId
                          && spans[i].spanId == old(spans[i]).spanId
                          && spans[i].name == old(spans[i]).name
                          && spans[i].scope == old(spans[i]).scope
  {
    for i := 0 to spans.Length
      invariant forall j :: 0 <= j < i ==> spans[j] == Reparented(old(spans[j]), traceId, parentId)
      invariant forall j :: i <= j < spans.Length ==> spans[j] == old(spans[j])
    {
      spans[i] := spans[i].(traceId := traceId);
      spans[i] := spans[i].(isRemote := true);
      spans[i] := spans[i].(parentSpanId := parentId);
    }
  }

  function ReparentedGroups(groups: seq<Group>, traceId: string, parentId: string): seq<Group> {
    seq(|groups|, i requires 0 <= i < |groups| =>
      Group(groups[i].key, ReparentedAll(groups[i].spans, traceId, parentId)))
  }

  /** Grouping depends on scopes only: grouping re-parented spans is re-parenting the groups. */
  lemma {:induction false} ReparentingCommutesWithGrouping(h: Hasher, spans: seq<Span>, traceId: string,
                                                           parentId: string, hash: nat)
    ensures Chain(TableOf(h, ReparentedAll(spans, traceId, parentId)), hash)
            == ReparentedGroups(Chain(TableOf(h, spans), hash), traceId, parentId)
  {
    hide ScopeFeed, Push;
    if spans != [] {
      var init, span := spans[..|spans| - 1], spans[|spans| - 1];
      var all := ReparentedAll(spans, traceId, parentId);
      assert all[..|all| - 1] == ReparentedAll(init, traceId, parentId);
      ReparentingCommutesWithGrouping(h, init, traceId, parentId, hash);
      if HashOf(h, span.scope) == hash {
        PushCommutes(Chain(TableOf(h, init), hash), span, traceId, parentId);
      }
    }
  }

  lemma {:induction false} FindIgnoresSpans(a: seq<Group>, b: seq<Group>, scope: Scope)
    requires |a| == |b| && forall i :: 0 <= i < |a| ==> a[i].key == b[i].key
    ensures Find(a, scope) == Find(b, scope)
  {
    if a != [] {
      FindIgnoresSpans(a[1..], b[1..], scope);
    }
  }

  lemma {:induction false} PushCommutes(chain: seq<Group>, span: Span, traceId: string, parentId: string)
    ensures Push(ReparentedGroups(chain, traceId, parentId), Reparented(span, traceId, parentId))
            == ReparentedGroups(Push(chain, span), traceId, parentId)
  {
    var left := Push(ReparentedGroups(chain, traceId, parentId), Reparented(span, traceId, parentId));
    var right := ReparentedGroups(Push(chain, span), traceId, parentId);
    FindIgnoresSpans(chain, ReparentedGroups(chain, traceId, parentId), span.scope);
    var at := Find(chain, span.scope);
    if at < |chain| {
      assert ReparentedAll(chain[at].spans + [span], traceId, parentId)
          == ReparentedAll(chain[at].spans, traceId, parentId) + [Reparented(span, traceId, parentId)];
    } else {
      assert ReparentedAll([span], traceId, parentId) == [Reparented(span, traceId, parentId)];
    }
    assert |left| == |right|;
    forall i | 0 <= i < |left| ensures left[i] == right[i] {
    }
  }
}
