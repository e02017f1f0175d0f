/** The OAuth token cache: double-checked locking around a slow fetch. The clock reading taken on
    entry to `token` is used again after the fetch, while the new expiry uses a later reading. */
module TokenCache {
  import opened Wrappers

  datatype AccessToken = AccessToken(token: string, expiresIn: nat)

  datatype TokenResponse = TokenResponse(secret: string, expiresIn: Option<nat>)

  /** A response without a lifetime counts for one hour. */
  function FromResponse(response: TokenResponse): AccessToken {
    AccessToken(response.secret, response.expiresIn.GetOr(3600))
  }

  datatype CachedToken = CachedToken(accessToken: AccessToken, expiresAt: int) {
    function Hit(now: int): Option<AccessToken> {
      if expiresAt > now then Some(accessToken) else None
    }

    /** The cache after the second check of a caller that entered at `now` and locks at `clock`. */
    function Refreshed(now: int, fetched: AccessToken, clock: int): CachedToken {
      if expiresAt <= now then NewCached(fetched, clock) else this
    }
  }

  function NewCached(token: AccessToken, clock: int): CachedToken {
    CachedToken(token, clock + token.expiresIn * NANOS)
  }

  function InitialCache(created: int): CachedToken {
    CachedToken(AccessToken("", 0), created)
  }

  /** The mutex-guarded cell; each of the first two methods is one lock hold. */
  class TokenManager {
    var cache: CachedToken

    constructor (created: int)
      ensures cache == InitialCache(created)
    {
      cache := CachedToken(AccessToken("", 0), created);
    }

    method CheckCached(now: int) returns (hit: Option<AccessToken>)
      ensures hit == cache.Hit(now)
    {
      if cache.expiresAt > now {
        return Some(cache.accessToken);
      }
      return None;
    }

    method Commit(now: int, fetched: AccessToken, clock: int) returns (token: AccessToken)
      modifies this
      ensures cache == old(cache).Refreshed(now, fetched, clock)
      ensures token == cache.accessToken
    {
      if cache.expiresAt <= now {
        cache := CachedToken(fetched, clock + fetched.expiresIn * NANOS);
      }
      return cache.accessToken;
    }

    /** `token` when no other caller interferes; `response` is what the token endpoint would answer. */
    method Token(now: int, response: Option<TokenResponse>, clock: int) returns (r: Option<AccessToken>)
      requires now <= clock
      modifies this
      ensures old(cache.expiresAt) > now ==> r == Some(old(cache.accessToken)) && cache == old(cache)
      ensures old(cache.expiresAt) <= now && response.None? ==> r == None && cache == old(cache)
      ensures old(cache.expiresAt) <= now && response.Some? ==>
                && r.Some? && r.value.token == response.value.secret && cache.accessToken == r.value
                && r.value.expiresIn ==
                   (if response.value.expiresIn.Some? then response.value.expiresIn.value else 3600)
                && cache.expiresAt == clock + r.value.expiresIn * 1_000_000_000
      ensures r.Some? ==> r.value == cache.accessToken && now <= cache.expiresAt
    {
      var hit := CheckCached(now);
      if hit.Some? {
        return hit;
      }
      if response.None? {
        return None;
      }
      var token := Commit(now, FromResponse(response.value), clock);
      return Some(token);
    }
  }

  // ---------- any number of callers, one atomic step per lock hold ----------

  /** Where one call of `token` is. `Done` also records the expiry of the token it returned. */
  datatype Caller =
    | Idle
    | Entered(now: int)
    | Missed(now: int)
    | Fetched(now: int, fetched: AccessToken)
    | Done(now: int, token: AccessToken, expiresAt: int)
    | Failed

  /** One replacement of the cached token: by whom, with which entry reading, and when. */
  datatype Write = Write(who: nat, now: int, at: int, token: AccessToken) {
    function Expiry(): int {
      NewCached(token, at).expiresAt
    }
  }

  datatype State = State(clock: int, cache: CachedToken, callers: map<nat, Caller>, writes: seq<Write>) {
    function At(c: nat): Caller {
      if c in callers then callers[c] else Idle
    }
  }

  datatype Action =
    | Tick(elapsed: nat)
    | Enter(c: nat)
    | Check(c: nat)
    | Fetch(c: nat, response: Option<TokenResponse>)
    | Commit(c: nat)

  function Init(created: int): State {
    State(created, InitialCache(created), map[], [])
  }

  /** One step; an action that is not enabled changes nothing, so every list of actions is a run. */
  function Next(s: State, a: Action): State {
    match a
    case Tick(elapsed) => s.(clock := s.clock + elapsed)
    case Enter(c) =>
      if s.At(c).Idle? then s.(callers := s.callers[c := Entered(s.clock)]) else s
    case Check(c) =>
      if !s.At(c).Entered? then
        s
      else
        var now := s.At(c).now;
        (match s.cache.Hit(now)
         case Some(token) => s.(callers := s.callers[c := Done(now, token, s.cache.expiresAt)])
         case None => s.(callers := s.callers[c := Missed(now)]))
    case Fetch(c, response) =>
      if !s.At(c).Missed? then
        s
      else
        (match response
         case Some(r) => s.(callers := s.callers[c := Fetched(s.At(c).now, FromResponse(r))])
         case None => s.(callers := s.callers[c := Failed]))
    case Commit(c) =>
      if !s.At(c).Fetched? then
        s
      else
        var Fetched(now, fetched) := s.At(c);
        var cache := s.cache.Refreshed(now, fetched, s.clock);
        State(s.clock, cache, s.callers[c := Done(now, cache.accessToken, cache.expiresAt)],
              if s.cache.expiresAt <= now then s.writes + [Write(c, now, s.clock, fetched)] else s.writes)
  }

  function Run(s: State, acts: seq<Action>): State {
    if acts == [] then s else Next(Run(s, acts[..|acts| - 1]), acts[|acts| - 1])
  }

  /** The seconds of validity of all tokens ever cached. */
  function TotalLifetime(writes: seq<Write>): nat {
    if writes == [] then 0 else TotalLifetime(writes[..|writes| - 1]) + writes[|writes| - 1].token.expiresIn
  }

  // ---------- the inductive invariant ----------

  ghost predicate CallerInv(s: State, created: int, c: nat) {
    match s.At(c)
    case Idle => true
    case Failed => true
    case Entered(now) => created <= now <= s.clock
    case Missed(now) => created <= now <= s.clock
    case Fetched(now, _) => created <= now <= s.clock
    case Done(now, token, expiresAt) =>
      && now <= expiresAt <= s.cache.expiresAt
      && (token.expiresIn > 0 ==> now < expiresAt)
      && exists i :: 0 <= i < |s.writes| && s.writes[i].token == token && s.writes[i].Expiry() == expiresAt
  }

  ghost predicate WriteInv(s: State, i: nat)
    requires i < |s.writes|
  {
    && s.writes[i].now <= s.writes[i].at <= s.clock
    && s.writes[i].Expiry() <= s.cache.expiresAt
    && forall j :: 0 <= j < i ==> s.writes[j].Expiry() <= s.writes[i].now
  }

  ghost predicate Inv(s: State, created: int) {
    && created <= s.clock
    && s.cache == (if s.writes == [] then InitialCache(created)
                   else NewCached(s.writes[|s.writes| - 1].token, s.writes[|s.writes| - 1].at))
    && created + TotalLifetime(s.writes) * NANOS <= s.cache.expiresAt
    && (forall i {:trigger s.writes[i]} :: 0 <= i < |s.writes| ==> WriteInv(s, i))
    && forall c: nat :: CallerInv(s, created, c)
  }

  lemma {:induction false} CommitPreservesInv(s: State, created: int, c: nat)
    requires Inv(s, created)
    requires s.At(c).Fetched?
    ensures Inv(Next(s, Commit(c)), created)
  {
    hide FromResponse, Run;
    var t := Next(s, Commit(c));
    assert CallerInv(s, created, c);
    if s.cache.expiresAt <= s.At(c).now {
      assert t.writes[..|s.writes|] == s.writes;
      assert t.writes[|s.writes|].Expiry() == t.cache.expiresAt;
    }
    assert forall i :: 0 <= i < |s.writes| ==> t.writes[i] == s.writes[i];
    forall i | 0 <= i < |t.writes| ensures WriteInv(t, i) {
      if i < |s.writes| {
        assert WriteInv(s, i);
      } else {
        assert forall j :: 0 <= j < |s.writes| ==> WriteInv(s, j);
      }
    }
    assert t.writes != [] by {
      assert s.writes == [] ==> s.cache.expiresAt == created;
    }
    var last := |t.writes| - 1;
    assert t.writes[last].token == t.cache.accessToken && t.writes[last].Expiry() == t.cache.expiresAt;
    forall d: nat ensures CallerInv(t, created, d) {
      assert CallerInv(s, created, d);
    }
  }

  lemma {:induction false} CheckPreservesInv(s: State, created: int, c: nat)
    requires Inv(s, created)
    requires s.At(c).Entered?
    ensures Inv(Next(s, Check(c)), created)
  {
    var t := Next(s, Check(c));
    assert CallerInv(s, created, c);
    forall i | 0 <= i < |t.writes| ensures WriteInv(t, i) {
      assert WriteInv(s, i);
    }
    if s.cache.expiresAt > s.At(c).now {
      assert s.writes != [];
      var last := |s.writes| - 1;
      assert t.writes[last].token == s.cache.accessToken && t.writes[last].Expiry() == s.cache.expiresAt;
      assert CallerInv(t, created, c);
    }
    forall d: nat ensures CallerInv(t, created, d) {
      assert CallerInv(s, created, d);
    }
  }

  lemma {:induction false} StepPreservesInv(s: State, created: int, a: Action)
    requires Inv(s, created)
    ensures Inv(Next(s, a), created)
  {
    var t := Next(s, a);
    if a.Commit? && s.At(a.c).Fetched? {
      CommitPreservesInv(s, created, a.c);
    } else if a.Check? && s.At(a.c).Entered? {
      CheckPreservesInv(s, created, a.c);
    } else {
      assert t.writes == s.writes && t.cache == s.cache && s.clock <= t.clock;
      forall i | 0 <= i < |t.writes| ensures WriteInv(t, i) {
        assert WriteInv(s, i);
      }
      forall c: nat ensures CallerInv(t, created, c) {
        assert CallerInv(s, created, c);
      }
    }
  }

  lemma {:induction false} RunKeepsInv(created: int, acts: seq<Action>)
    ensures Inv(Run(Init(created), acts), created)
  {
    if acts == [] {
      forall c: nat ensures CallerInv(Init(created), created, c) {}
    } else {
      RunKeepsInv(created, acts[..|acts| - 1]);
      StepPreservesInv(Run(Init(created), acts[..|acts| - 1]), created, acts[|acts| - 1]);
    }
  }

  // ---------- safety ----------

  lemma {:induction false} RunPrefix(s: State, acts: seq<Action>, k: nat)
    requires k < |acts|
    ensures Run(s, acts[..k + 1]) == Next(Run(s, acts[..k]), acts[k])
  {
    assert acts[..k + 1][..k] == acts[..k];
  }

  /** What a finished call returned was cached by some write with the recorded expiry, and was still
      valid at the caller's own entry reading. */
  lemma {:induction false} ReturnedTokenIsValid(created: int, acts: seq<Action>, c: nat)
    requires Run(Init(created), acts).At(c).Done?
    ensures
      var s := Run(Init(created), acts);
      var Done(now, token, expiresAt) := s.At(c);
      && now <= expiresAt
      && (token.expiresIn > 0 ==> now < expiresAt)
      && exists i :: 0 <= i < |s.writes| && s.writes[i].token == token && s.writes[i].Expiry() == expiresAt
  {
    RunKeepsInv(created, acts);
    assert CallerInv(Run(Init(created), acts), created, c);
  }

  /** The token carries the secret of the answer and its lifetime, or an hour if the answer names none. */
  predicate Carries(token: AccessToken, r: TokenResponse) {
    && token.token == r.secret
    && token.expiresIn == if r.expiresIn.Some? then r.expiresIn.value else 3600
  }

  /** True if the token came out of a successful answer that call `c` received in this run. */
  ghost predicate FetchedIn(acts: seq<Action>, c: nat, token: AccessToken) {
    exists r :: Fetch(c, Some(r)) in acts && Carries(token, r)
  }

  lemma {:induction false} WritesWereFetched(created: int, acts: seq<Action>)
    ensures forall c: nat :: Run(Init(created), acts).At(c).Fetched? ==>
                               FetchedIn(acts, c, Run(Init(created), acts).At(c).fetched)
    ensures forall w :: w in Run(Init(created), acts).writes ==> FetchedIn(acts, w.who, w.token)
  {
    if acts != [] {
      var before, a := acts[..|acts| - 1], acts[|acts| - 1];
      WritesWereFetched(created, before);
      assert acts == before + [a];
      var s, t := Run(Init(created), before), Run(Init(created), acts);
      forall c, token | FetchedIn(before, c, token) ensures FetchedIn(acts, c, token) {
        var r :| Fetch(c, Some(r)) in before && Carries(token, r);
        assert Fetch(c, Some(r)) in acts;
      }
      forall c: nat | t.At(c).Fetched? ensures FetchedIn(acts, c, t.At(c).fetched) {
        if t.At(c) != s.At(c) {
          assert a == Fetch(c, Some(a.response.value)) && a in acts && Carries(t.At(c).fetched, a.response.value);
        }
      }
      forall w | w in t.writes ensures FetchedIn(acts, w.who, w.token) {
        if w !in s.writes {
          assert s.At(a.c).Fetched? && w == Write(a.c, s.At(a.c).now, s.clock, s.At(a.c).fetched);
        }
      }
    }
  }

  /** Write `i` was made by a commit of this run, at the clock of that moment, with a token fetched before. */
  ghost predicate WrittenAt(created: int, acts: seq<Action>, k: nat, w: Write)
    requires k < |acts|
  {
    acts[k] == Commit(w.who) && Run(Init(created), acts[..k]).clock == w.at && FetchedIn(acts[..k], w.who, w.token)
  }

  ghost predicate WasWritten(created: int, acts: seq<Action>, w: Write) {
    exists k :: 0 <= k < |acts| && WrittenAt(created, acts, k, w)
  }

  lemma {:induction false} WritesAreCommits(created: int, acts: seq<Action>)
    ensures forall w :: w in Run(Init(created), acts).writes ==> WasWritten(created, acts, w)
  {
    if acts != [] {
      var before, a := acts[..|acts| - 1], acts[|acts| - 1];
      WritesAreCommits(created, before);
      WritesWereFetched(created, before);
      var s, t := Run(Init(created), before), Run(Init(created), acts);
      forall w | w in t.writes ensures WasWritten(created, acts, w) {
        hide Run, FetchedIn;
        if w in s.writes {
          var k :| 0 <= k < |before| && WrittenAt(created, before, k, w);
          assert acts[..k] == before[..k];
          assert WrittenAt(created, acts, k, w);
        } else {
          assert s.At(a.c).Fetched? && w == Write(a.c, s.At(a.c).now, s.clock, s.At(a.c).fetched);
          assert WrittenAt(created, acts, |before|, w);
        }
      }
    }
  }

  /** Where a returned token comes from: its text is the secret of an answer some call of this run received,
      and its recorded expiry is the clock at which that call committed plus the lifetime in the answer, or
      an hour if the answer names none. */
  lemma {:induction false} ReturnedTokenComesFromAnswer(created: int, acts: seq<Action>, c: nat)
    returns (k: nat, who: nat, r: TokenResponse)
    requires Run(Init(created), acts).At(c).Done?
    ensures k < |acts| && acts[k] == Commit(who) && Fetch(who, Some(r)) in acts[..k]
    ensures Run(Init(created), acts).At(c).token.token == r.secret
    ensures Run(Init(created), acts).At(c).expiresAt
            == Run(Init(created), acts[..k]).clock
               + (if r.expiresIn.Some? then r.expiresIn.value else 3600) * 1_000_000_000
  {
    ReturnedTokenIsValid(created, acts, c);
    WritesAreCommits(created, acts);
    var s := Run(Init(created), acts);
    hide Run;
    var i :| 0 <= i < |s.writes| && s.writes[i].token == s.At(c).token && s.writes[i].Expiry() == s.At(c).expiresAt;
    var w := s.writes[i];
    assert w in s.writes;
    k :| 0 <= k < |acts| && WrittenAt(created, acts, k, w);
    who := w.who;
    r :| Fetch(who, Some(r)) in acts[..k] && Carries(w.token, r);
  }

  /** The placeholder token stored at construction never reaches a caller: every returned token is
      what the endpoint answered to some call of this run. */
  lemma {:induction false} PlaceholderNeverReturned(created: int, acts: seq<Action>, c: nat)
    requires Run(Init(created), acts).At(c).Done?
    ensures exists who: nat :: FetchedIn(acts, who, Run(Init(created), acts).At(c).token)
  {
    ReturnedTokenIsValid(created, acts, c);
    WritesWereFetched(created, acts);
    var s := Run(Init(created), acts);
    var i :| 0 <= i < |s.writes| && s.writes[i].token == s.At(c).token;
    assert s.writes[i] in s.writes;
  }

  /** The double check works: whoever entered before an earlier token's expiry never replaces it, so
      any two writers entered at least one full lifetime apart. */
  lemma {:induction false} WritersAreSpaced(created: int, acts: seq<Action>, i: nat, j: nat)
    requires i < j < |Run(Init(created), acts).writes|
    ensures
      var w := Run(Init(created), acts).writes;
      w[i].now + w[i].token.expiresIn * NANOS <= w[i].Expiry() <= w[j].now
  {
    RunKeepsInv(created, acts);
    var s := Run(Init(created), acts);
    assert WriteInv(s, i) && WriteInv(s, j);
  }

  lemma {:induction false} StepKeepsExpiry(s: State, created: int, a: Action)
    requires Inv(s, created)
    ensures s.cache.expiresAt <= Next(s, a).cache.expiresAt
    ensures forall c: nat :: s.At(c).Done? ==> Next(s, a).At(c) == s.At(c)
    ensures forall c: nat :: !s.At(c).Done? && Next(s, a).At(c).Done? ==>
                               s.cache.expiresAt <= Next(s, a).At(c).expiresAt
  {
    if a.Commit? && s.At(a.c).Fetched? {
      assert CallerInv(s, created, a.c);
    }
  }

  /** Every call that completes after some state returns a token at least as fresh as the one cached in
      that state, whichever calls run in between; finished calls never change. */
  lemma {:induction false} LaterReturnsAreFresher(created: int, acts: seq<Action>, more: seq<Action>, c: nat)
    ensures Run(Init(created), acts).cache.expiresAt <= Run(Init(created), acts + more).cache.expiresAt
    ensures Run(Init(created), acts).At(c).Done? ==>
              Run(Init(created), acts + more).At(c) == Run(Init(created), acts).At(c)
    ensures !Run(Init(created), acts).At(c).Done? && Run(Init(created), acts + more).At(c).Done? ==>
              Run(Init(created), acts).cache.expiresAt <= Run(Init(created), acts + more).At(c).expiresAt
  {
    if more == [] {
      assert acts + more == acts;
    } else {
      var rest := more[..|more| - 1];
      LaterReturnsAreFresher(created, acts, rest, c);
      RunKeepsInv(created, acts + rest);
      StepKeepsExpiry(Run(Init(created), acts + rest), created, more[|more| - 1]);
      assert (acts + more)[..|acts + more| - 1] == acts + rest;
    }
  }

  // ---------- the amortised bound ----------

  /** Every answer of the endpoint in this run lives at least `shortest` seconds. */
  ghost predicate LifetimesAtLeast(acts: seq<Action>, shortest: nat) {
    forall c, r :: Fetch(c, Some(r)) in acts ==>
                     shortest <= if r.expiresIn.Some? then r.expiresIn.value else 3600
  }

  /** The expiry is at least the creation time plus the lifetimes of all tokens ever cached. */
  lemma {:induction false} ExpiryPaysForLifetimes(created: int, acts: seq<Action>)
    ensures created + TotalLifetime(Run(Init(created), acts).writes) * NANOS
            <= Run(Init(created), acts).cache.expiresAt
  {
    RunKeepsInv(created, acts);
  }

  lemma {:induction false} TotalLifetimeAtLeast(writes: seq<Write>, shortest: nat)
    requires forall w :: w in writes ==> shortest <= w.token.expiresIn
    ensures |writes| * shortest <= TotalLifetime(writes)
  {
    if writes == [] {
    } else {
      var init := writes[..|writes| - 1];
      assert writes[|writes| - 1] in writes;
      TotalLifetimeAtLeast(init, shortest);
      assert |writes| * shortest == |init| * shortest + shortest;
    }
  }

  /** If every answer of the endpoint lives between `shortest` and `longest` seconds, the number of
      replacements is bounded by the time elapsed, however many calls run and however they interleave. */
  lemma {:induction false} RefreshesAreAmortised(created: int, acts: seq<Action>, shortest: nat, longest: nat)
    requires 0 < shortest
    requires LifetimesAtLeast(acts, shortest)
    requires forall c, r :: Fetch(c, Some(r)) in acts && r.expiresIn.Some? ==> r.expiresIn.value <= longest
    requires forall c, r :: Fetch(c, Some(r)) in acts && r.expiresIn.None? ==> 3600 <= longest
    ensures
      var s := Run(Init(created), acts);
      |s.writes| * (shortest * NANOS) <= s.clock - created + longest * NANOS
  {
    var s := Run(Init(created), acts);
    RunKeepsInv(created, acts);
    WritesWereFetched(created, acts);
    forall w | w in s.writes ensures shortest <= w.token.expiresIn <= longest {
      assert FetchedIn(acts, w.who, w.token);
    }
    TotalLifetimeAtLeast(s.writes, shortest);
    hide Run, FromResponse;
    if s.writes != [] {
      var last := s.writes[|s.writes| - 1];
      assert last in s.writes;
      assert WriteInv(s, |s.writes| - 1);
      assert s.cache.expiresAt == last.at + last.token.expiresIn * NANOS;
      assert s.cache.expiresAt <= s.clock + longest * NANOS;
    }
    hide *;
    SecondsBound(|s.writes|, shortest, TotalLifetime(s.writes), s.cache.expiresAt - created);
  }

  lemma {:induction false} SecondsBound(n: nat, shortest: nat, total: nat, nanos: int)
    requires n * shortest <= total && total * NANOS <= nanos
    ensures n * (shortest * NANOS) <= nanos
  {
    assert n * (shortest * NANOS) == (n * shortest) * NANOS;
  }

  // ---------- what the reused clock reading costs ----------

  /** For a caller past its check, the cached token expired by its entry or lives a full lifetime from then. */
  ghost predicate GapInv(s: State, shortest: nat, c: nat) {
    s.At(c).Missed? || s.At(c).Fetched? ==>
      && s.At(c).now <= s.clock
      && (s.cache.expiresAt <= s.At(c).now || s.cache.expiresAt >= s.At(c).now + shortest * NANOS)
  }

  lemma {:induction false} StepKeepsGap(s: State, created: int, shortest: nat, a: Action, c: nat)
    requires Inv(s, created)
    requires GapInv(s, shortest, c)
    requires a.Commit? && s.At(a.c).Fetched? ==> shortest <= s.At(a.c).fetched.expiresIn
    ensures GapInv(Next(s, a), shortest, c)
  {
    assert CallerInv(s, created, c);
    if a.Commit? && s.At(a.c).Fetched? {
      assert shortest * NANOS <= s.At(a.c).fetched.expiresIn * NANOS;
    }
  }

  lemma {:induction false} RunKeepsGap(created: int, acts: seq<Action>, shortest: nat, c: nat)
    requires LifetimesAtLeast(acts, shortest)
    ensures GapInv(Run(Init(created), acts), shortest, c)
  {
    if acts != [] {
      var before, a := acts[..|acts| - 1], acts[|acts| - 1];
      assert acts == before + [a];
      RunKeepsGap(created, before, shortest, c);
      RunKeepsInv(created, before);
      WritesWereFetched(created, before);
      var s := Run(Init(created), before);
      if a.Commit? && s.At(a.c).Fetched? {
        assert FetchedIn(before, a.c, s.At(a.c).fetched);
      }
      hide Next, Inv;
      StepKeepsGap(s, created, shortest, a, c);
    }
  }

  /** A call that commits less than the shortest lifetime after it entered hands out a token that is live at
      that moment, whichever calls interleave. */
  lemma {:induction false} CommitReturnsLiveToken(created: int, acts: seq<Action>, shortest: nat, c: nat)
    requires LifetimesAtLeast(acts, shortest)
    requires Run(Init(created), acts).At(c).Fetched?
    requires Run(Init(created), acts).clock < Run(Init(created), acts).At(c).now + shortest * NANOS
    ensures
      var t := Run(Init(created), acts + [Commit(c)]);
      t.At(c).Done? && t.At(c).expiresAt > t.clock
  {
    var s := Run(Init(created), acts);
    AfterOne(created, acts, Commit(c));
    RunKeepsGap(created, acts, shortest, c);
    WritesWereFetched(created, acts);
    assert FetchedIn(acts, c, s.At(c).fetched);
    hide Run;
    assert shortest * NANOS <= s.At(c).fetched.expiresIn * NANOS;
  }

  /** A token response of the given lifetime. */
  function Answer(secret: string, seconds: nat): Option<TokenResponse> {
    Some(TokenResponse(secret, Some(seconds)))
  }

  /** Both calls enter and miss; the first caches its token, the second's fetch takes `elapsed`. */
  function SlowFetch(seconds: nat, elapsed: nat): seq<Action> {
    [Enter(0), Enter(1), Check(0), Check(1), Fetch(0, Answer("first", seconds)), Commit(0), Tick(elapsed),
     Fetch(1, Answer("second", seconds))]
  }

  lemma {:induction false} SlowFetchRun(created: int, seconds: nat, elapsed: nat)
    ensures LifetimesAtLeast(SlowFetch(seconds, elapsed), seconds)
    ensures
      var s := Run(Init(created), SlowFetch(seconds, elapsed));
      && s.At(1) == Fetched(created, AccessToken("second", seconds))
      && s.clock == created + elapsed
      && s.cache == CachedToken(AccessToken("first", seconds), created + seconds * NANOS)
  {
    var start, acts := Init(created), SlowFetch(seconds, elapsed);
    forall k | 0 <= k < |acts| ensures Run(start, acts[..k + 1]) == Next(Run(start, acts[..k]), acts[k]) {
      RunPrefix(start, acts, k);
    }
    assert Run(start, []) == start;
    hide Run;
    assert acts[..0] == [] && acts[..8] == acts;
    var s1 := Run(start, acts[..0 + 1]);
    var s2 := Run(start, acts[..1 + 1]);
    var s3 := Run(start, acts[..2 + 1]);
    var s4 := Run(start, acts[..3 + 1]);
    assert s4.At(0) == Missed(created) && s4.At(1) == Missed(created) && s4.cache == InitialCache(created);
    var s5 := Run(start, acts[..4 + 1]);
    var s6 := Run(start, acts[..5 + 1]);
    assert s6.cache == CachedToken(AccessToken("first", seconds), created + seconds * NANOS);
    assert s6.At(1) == Missed(created) && s6.clock == created;
    var s7 := Run(start, acts[..6 + 1]);
    var s8 := Run(start, acts[..7 + 1]);
    assert s8 == Run(start, acts);
  }

  /** In every run with these lifetimes, a call that commits `elapsed` after its entry returns a live token. */
  ghost predicate CommitsAreLive(shortest: nat, elapsed: nat) {
    forall created: int, acts, c: nat ::
      LifetimesAtLeast(acts, shortest) && Run(Init(created), acts).At(c).Fetched?
      && Run(Init(created), acts).clock == Run(Init(created), acts).At(c).now + elapsed
      ==> Live(Run(Init(created), acts + [Commit(c)]), c)
  }

  /** The call has returned, and its token has not expired. */
  predicate Live(s: State, c: nat) {
    s.At(c).Done? && s.At(c).expiresAt > s.clock
  }

  /** For a call that had to fetch: the token is guaranteed live on return exactly if the fetch took less
      than the shortest lifetime. For every longer fetch there is a run in which the returned token, not the
      fresh one in hand, has expired. */
  lemma {:induction false} CommitIsLiveIff(shortest: nat, elapsed: nat)
    ensures CommitsAreLive(shortest, elapsed) <==> elapsed < shortest * NANOS
  {
    if elapsed < shortest * NANOS {
      forall created: int, acts, c: nat |
        LifetimesAtLeast(acts, shortest) && Run(Init(created), acts).At(c).Fetched?
        && Run(Init(created), acts).clock == Run(Init(created), acts).At(c).now + elapsed
        ensures Live(Run(Init(created), acts + [Commit(c)]), c)
      {
        CommitReturnsLiveToken(created, acts, shortest, c);
      }
    } else {
      SlowFetchRun(0, shortest, elapsed);
      SlowFetchReturnsExpired(0, shortest, elapsed);
      assert !Live(Run(Init(0), SlowFetch(shortest, elapsed) + [Commit(1)]), 1);
    }
  }

  /** When the second fetch takes as long as the tokens live or longer, that call returns the first call's
      expired token although it holds a fresh one in hand. */
  lemma {:induction false} SlowFetchReturnsExpired(created: int, seconds: nat, elapsed: nat)
    requires seconds * NANOS <= elapsed
    ensures
      var t := Run(Init(created), SlowFetch(seconds, elapsed) + [Commit(1)]);
      t.At(1).Done? && t.At(1).expiresAt <= t.clock && (seconds > 0 ==> t.At(1).token.token == "first")
  {
    var acts := SlowFetch(seconds, elapsed);
    SlowFetchRun(created, seconds, elapsed);
    hide SlowFetch;
    AfterOne(created, acts, Commit(1));
    hide Run;
  }

  /** In every run with these lifetimes, a call that finds a valid token `elapsed` after its entry returns
      one that is still live. */
  ghost predicate HitsAreLive(shortest: nat, elapsed: nat) {
    forall created: int, acts, c: nat ::
      LifetimesAtLeast(acts, shortest) && Run(Init(created), acts).At(c).Entered?
      && Run(Init(created), acts).clock == Run(Init(created), acts).At(c).now + elapsed
      && Run(Init(created), acts + [Check(c)]).At(c).Done?
      ==> Live(Run(Init(created), acts + [Check(c)]), c)
  }

  /** A token is cached, a second call enters one nanosecond before it expires, and waits for the lock. */
  function LateCheck(seconds: nat, elapsed: nat): seq<Action> {
    [Enter(0), Check(0), Fetch(0, Answer("first", seconds)), Commit(0),
     Tick(if seconds > 0 then seconds * NANOS - 1 else 0), Enter(1), Tick(elapsed)]
  }

  lemma {:induction false} LateCheckRun(created: int, seconds: nat, elapsed: nat)
    requires seconds > 0
    ensures LifetimesAtLeast(LateCheck(seconds, elapsed), seconds)
    ensures
      var s := Run(Init(created), LateCheck(seconds, elapsed));
      && s.At(1) == Entered(s.cache.expiresAt - 1)
      && s.clock == s.cache.expiresAt - 1 + elapsed
  {
    var start, acts := Init(created), LateCheck(seconds, elapsed);
    forall k | 0 <= k < |acts| ensures Run(start, acts[..k + 1]) == Next(Run(start, acts[..k]), acts[k]) {
      RunPrefix(start, acts, k);
    }
    assert Run(start, []) == start;
    hide Run;
    assert acts[..0] == [] && acts[..7] == acts;
    var s1 := Run(start, acts[..0 + 1]);
    var s2 := Run(start, acts[..1 + 1]);
    assert s2.At(0) == Missed(created) && s2.cache == InitialCache(created);
    var s3 := Run(start, acts[..2 + 1]);
    var s4 := Run(start, acts[..3 + 1]);
    assert s4.cache == CachedToken(AccessToken("first", seconds), created + seconds * NANOS) && s4.At(1).Idle?;
    var s5 := Run(start, acts[..4 + 1]);
    var s6 := Run(start, acts[..5 + 1]);
    assert s6.At(1) == Entered(created + seconds * NANOS - 1);
    var s7 := Run(start, acts[..6 + 1]);
    assert s7 == Run(start, acts);
  }

  /** For a call that finds a token: it is guaranteed live on return only if no time passes between the
      entry reading and the check, however long tokens live. */
  lemma {:induction false} HitIsLiveIff(shortest: nat, elapsed: nat)
    ensures HitsAreLive(shortest, elapsed) <==> elapsed == 0
  {
    if elapsed == 0 {
      forall created: int, acts, c: nat |
        LifetimesAtLeast(acts, shortest) && Run(Init(created), acts).At(c).Entered?
        && Run(Init(created), acts).clock == Run(Init(created), acts).At(c).now + elapsed
        && Run(Init(created), acts + [Check(c)]).At(c).Done?
        ensures Live(Run(Init(created), acts + [Check(c)]), c)
      {
        AfterOne(created, acts, Check(c));
      }
    } else {
      var seconds := if shortest > 0 then shortest else 1;
      var acts := LateCheck(seconds, elapsed);
      LateCheckRun(0, seconds, elapsed);
      AfterOne(0, acts, Check(1));
      assert LifetimesAtLeast(acts, shortest);
      assert !Live(Run(Init(0), acts + [Check(1)]), 1);
    }
  }

  lemma {:induction false} AfterOne(created: int, acts: seq<Action>, a: Action)
    ensures Run(Init(created), acts + [a]) == Next(Run(Init(created), acts), a)
  {
    assert (acts + [a])[..|acts|] == acts;
  }
}
