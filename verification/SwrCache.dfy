/**
 * The stale-while-revalidate cache of the news views, in memory mode. Reads and completions of fetches are
 * steps; any number of fetches may be in flight for one key. Times are in milliseconds.
 */
module SwrCache {
  import opened Prelude

  /** A view's answer. `lastSynced` is the moment the view function produced it. */
  datatype Data = Data(lastSynced: int, body: string)

  datatype Payload = Payload(cachedAt: int, data: Data)

  datatype Item = Item(value: Payload, expiry: int)

  datatype Fetch = Fetch(key: string, data: Data)

  datatype State = State(store: map<string, Item>, inFlight: map<nat, Fetch>, clock: int)

  /** The time to live, in seconds, is fixed by the key. */
  type TtlOf = string -> nat

  function BufferMs(ttl: nat): nat {
    ttl * 2 * 1000
  }

  /**
   * `at` and `later` are two looks at the clock in one turn of the event loop; `fetch` names the fetch a read
   * may start and `body` what the view would answer.
   */
  datatype Op =
    | Read(key: string, at: int, later: int, fetch: nat, body: string)
    | Complete(fetch: nat, at: int, later: int)
    | FetchFails(fetch: nat, at: int)

  predicate Enabled(s: State, op: Op) {
    match op
    case Read(_, at, later, fetch, _) => s.clock <= at <= later && fetch !in s.inFlight
    case Complete(fetch, at, later) => s.clock <= at <= later && fetch in s.inFlight
    case FetchFails(fetch, at) => s.clock <= at && fetch in s.inFlight
  }

  function Hit(s: State, key: string, at: int): Option<Payload> {
    if key in s.store && s.store[key].expiry > at then Some(s.store[key].value) else None
  }

  predicate Stale(p: Payload, ttl: nat, now: int) {
    now - p.cachedAt > ttl * 1000
  }

  /** A read that hits fresh data starts nothing; one that hits stale data or misses starts a fetch. */
  function AfterRead(s: State, op: Op, ttl: nat): State
    requires op.Read? && Enabled(s, op)
  {
    var hit := Hit(s, op.key, op.at);
    var kept := if hit.None? then s.store - {op.key} else s.store;
    var started := s.inFlight[op.fetch := Fetch(op.key, Data(op.later, op.body))];
    State(kept, if hit.Some? && !Stale(hit.value, ttl, op.later) then s.inFlight else started, op.later)
  }

  function AfterComplete(s: State, op: Op, ttl: nat): State
    requires op.Complete? && Enabled(s, op)
  {
    var f := s.inFlight[op.fetch];
    State(s.store[f.key := Item(Payload(op.at, f.data), op.later + BufferMs(ttl))], s.inFlight - {op.fetch}, op.later)
  }

  function Next(s: State, op: Op, ttlOf: TtlOf): State {
    if !Enabled(s, op) then s
    else
      match op
      case Read(key, _, _, _, _) => AfterRead(s, op, ttlOf(key))
      case Complete(fetch, _, _) => AfterComplete(s, op, ttlOf(s.inFlight[fetch].key))
      case FetchFails(fetch, at) => s.(inFlight := s.inFlight - {fetch}, clock := at)
  }

  function Run(s: State, ops: seq<Op>, ttlOf: TtlOf): State
    decreases |ops|
  {
    if ops == [] then s else Run(Next(s, ops[0], ttlOf), ops[1..], ttlOf)
  }

  // ---- Bounded staleness ----------------------------------------------------------------------

  function StoredAt(i: Item, ttl: nat): int {
    i.expiry - BufferMs(ttl)
  }

  /** Nothing is dated in the future: produced, then stamped, then stored, then now. */
  ghost predicate Dated(s: State, ttlOf: TtlOf) {
    && (forall k :: k in s.store ==>
          var i := s.store[k];
          i.value.data.lastSynced <= i.value.cachedAt <= StoredAt(i, ttlOf(k)) <= s.clock)
    && (forall f :: f in s.inFlight ==> s.inFlight[f].data.lastSynced <= s.clock)
  }

  lemma {:induction false} RunKeepsDated(s: State, ops: seq<Op>, ttlOf: TtlOf)
    requires Dated(s, ttlOf)
    ensures Dated(Run(s, ops, ttlOf), ttlOf)
    decreases |ops|
  {
    if ops != [] { RunKeepsDated(Next(s, ops[0], ttlOf), ops[1..], ttlOf); }
  }

  /**
   * In every run a value is returned less than twice its TTL after it was stored, and it was produced no later
   * than that.
   */
  lemma ReturnedValuesAreRecent(ops: seq<Op>, ttlOf: TtlOf, key: string, now: int)
    requires var s := Run(State(map[], map[], 0), ops, ttlOf); s.clock <= now && Hit(s, key, now).Some?
    ensures var s := Run(State(map[], map[], 0), ops, ttlOf);
      var data, stored := Hit(s, key, now).value.data, StoredAt(s.store[key], ttlOf(key));
      data.lastSynced <= stored <= now && now - stored < 2000 * ttlOf(key)
  {
    RunKeepsDated(State(map[], map[], 0), ops, ttlOf);
  }

  /** The plain bound of twice the TTL on the age holds at every possible read exactly if storing took no time. */
  lemma PlainBoundHoldsExactlyWhenStoredAtOnce(s: State, ttlOf: TtlOf, key: string)
    requires Dated(s, ttlOf) && key in s.store && ttlOf(key) > 0
    ensures (forall now: int ::
               Hit(s, key, now).Some? ==> now - s.store[key].value.data.lastSynced < 2000 * ttlOf(key))
      <==> s.store[key].value.data.lastSynced == StoredAt(s.store[key], ttlOf(key))
  {
    var last := s.store[key].expiry - 1;
    assert Hit(s, key, last).Some?;
  }

  /** From the empty cache: one read, whose fetch is stored some time after it was produced, and a late hit. */
  lemma LateStoreExceedsTheBound(ttlOf: TtlOf, key: string, body: string, delay: int)
    requires delay > 0 && ttlOf(key) > 0
    ensures var s := Run(State(map[], map[], 0), [Read(key, 0, 0, 0, body), Complete(0, delay, delay)], ttlOf);
      var now := delay + 2000 * ttlOf(key) - 1;
      Hit(s, key, now).Some? && now - Hit(s, key, now).value.data.lastSynced >= 2000 * ttlOf(key)
  {
    var ops := [Read(key, 0, 0, 0, body), Complete(0, delay, delay)];
    var s1 := Next(State(map[], map[], 0), ops[0], ttlOf);
    assert ops[1..] == [ops[1]] && ops[1..][1..] == [];
    assert Run(s1, ops[1..], ttlOf) == Next(s1, ops[1], ttlOf);
  }

  // ---- Freshness ------------------------------------------------------------------------------

  lemma {:induction false} StampsStayAbove(s: State, ops: seq<Op>, ttlOf: TtlOf, key: string, stamp: int)
    requires Dated(s, ttlOf) && stamp <= s.clock && (key in s.store ==> stamp <= s.store[key].value.cachedAt)
    ensures var e := Run(s, ops, ttlOf); key in e.store ==> stamp <= e.store[key].value.cachedAt
    decreases |ops|
  {
    if ops != [] {
      RunKeepsDated(s, [ops[0]], ttlOf);
      assert [ops[0]][1..] == [];
      StampsStayAbove(Next(s, ops[0], ttlOf), ops[1..], ttlOf, key, stamp);
    }
  }

  /** Per key the stored time stamp never decreases, across expiry, deletion and overlapping fetches. */
  lemma StampsNeverDecrease(s: State, ops: seq<Op>, ttlOf: TtlOf, key: string)
    requires Dated(s, ttlOf) && key in s.store && key in Run(s, ops, ttlOf).store
    ensures s.store[key].value.cachedAt <= Run(s, ops, ttlOf).store[key].value.cachedAt
  {
    StampsStayAbove(s, ops, ttlOf, key, s.store[key].value.cachedAt);
  }

  /** The production time can: of two overlapping fetches, the one started first may be stored last. */
  lemma ProductionTimeMayGoBack(s: State, ttlOf: TtlOf, key: string, a: nat, b: nat)
    requires Dated(s, ttlOf) && a != b && a in s.inFlight && b in s.inFlight
    requires s.inFlight[a].key == s.inFlight[b].key == key
    requires s.inFlight[a].data.lastSynced < s.inFlight[b].data.lastSynced
    ensures var s1 := Next(s, Complete(b, s.clock, s.clock), ttlOf);
      var s2 := Next(s1, Complete(a, s1.clock, s1.clock), ttlOf);
      && s2.store[key].value.data.lastSynced < s1.store[key].value.data.lastSynced
      && s2.store[key].value.cachedAt >= s1.store[key].value.cachedAt
  {
  }

  /** A read that finds nothing, or something expired, or something stamped longer ago than its TTL. */
  predicate NeedsFetch(s: State, op: Op, ttlOf: TtlOf)
    requires op.Read?
  {
    || op.key !in s.store || op.at >= s.store[op.key].expiry
    || op.later - s.store[op.key].value.cachedAt > 1000 * ttlOf(op.key)
  }

  /** A read starts a fetch exactly if it misses or hits stale data; the fetch is the view called at that read. */
  lemma ReadFetchesExactlyWhenNeeded(s: State, op: Op, ttlOf: TtlOf)
    requires op.Read? && Enabled(s, op)
    ensures var e := Next(s, op, ttlOf);
      && (op.fetch in e.inFlight <==> NeedsFetch(s, op, ttlOf))
      && (op.fetch in e.inFlight ==> e.inFlight[op.fetch] == Fetch(op.key, Data(op.later, op.body)))
      && (forall f :: f != op.fetch ==>
            (f in e.inFlight <==> f in s.inFlight) && (f in s.inFlight ==> e.inFlight[f] == s.inFlight[f]))
  {
  }

  /** A fetch stays under way, as it was started, until a step completes it or reports its failure. */
  predicate Ends(op: Op, fetch: nat) {
    (op.Complete? && op.fetch == fetch) || (op.FetchFails? && op.fetch == fetch)
  }

  /** A step that ends a fetch ends just that one; a failure stores nothing. */
  lemma EndingAFetchEndsJustThatOne(s: State, op: Op, ttlOf: TtlOf)
    requires Enabled(s, op) && (op.Complete? || op.FetchFails?)
    ensures var e := Next(s, op, ttlOf);
      && e.inFlight.Keys == s.inFlight.Keys - {op.fetch}
      && (forall f :: f in e.inFlight ==> e.inFlight[f] == s.inFlight[f])
      && (forall k :: op.FetchFails? || k != s.inFlight[op.fetch].key ==>
            (k in e.store <==> k in s.store) && (k in s.store ==> e.store[k] == s.store[k]))
  {
  }

  /** A read drops its own entry if that has expired, and changes no other. */
  lemma ReadsOnlyDropTheExpired(s: State, op: Op, ttlOf: TtlOf)
    requires op.Read? && Enabled(s, op)
    ensures var e := Next(s, op, ttlOf);
      && (forall k :: k in e.store <==> k in s.store && !(k == op.key && s.store[k].expiry <= op.at))
      && (forall k :: k in e.store ==> e.store[k] == s.store[k])
  {
  }

  /**
   * A read that misses or hits stale data, any run in which its fetch does not end, then the completion of that
   * fetch: the key now holds what the view produced at that read, stamped no earlier than the read.
   */
  lemma StaleReadIsRepaired(s: State, op: Op, ops: seq<Op>, ttlOf: TtlOf, at: int, later: int)
    requires op.Read? && Enabled(s, op) && NeedsFetch(s, op, ttlOf)
    requires forall i :: 0 <= i < |ops| ==> !Ends(ops[i], op.fetch)
    requires Run(Next(s, op, ttlOf), ops, ttlOf).clock <= at <= later
    ensures var flying := Run(Next(s, op, ttlOf), ops, ttlOf);
      var e := Next(flying, Complete(op.fetch, at, later), ttlOf);
      && op.fetch in flying.inFlight
      && op.key in e.store && e.store[op.key].value.data == Data(op.later, op.body)
      && op.later <= at == e.store[op.key].value.cachedAt
  {
    ReadFetchesExactlyWhenNeeded(s, op, ttlOf);
    FlightsDoNotChange(Next(s, op, ttlOf), ops, ttlOf, op.fetch);
  }

  lemma {:induction false} FlightsDoNotChange(s: State, ops: seq<Op>, ttlOf: TtlOf, fetch: nat)
    requires fetch in s.inFlight && forall i :: 0 <= i < |ops| ==> !Ends(ops[i], fetch)
    ensures var e := Run(s, ops, ttlOf);
      fetch in e.inFlight && e.inFlight[fetch] == s.inFlight[fetch] && s.clock <= e.clock
    decreases |ops|
  {
    if ops != [] {
      assert !Ends(ops[0], fetch);
      FlightsDoNotChange(Next(s, ops[0], ttlOf), ops[1..], ttlOf, fetch);
    }
  }

  /** No completion in the run stores anything under the key. */
  ghost predicate NeverStores(s: State, ops: seq<Op>, ttlOf: TtlOf, key: string)
    decreases |ops|
  {
    ops != [] ==>
      && !(ops[0].Complete? && Enabled(s, ops[0]) && s.inFlight[ops[0].fetch].key == key)
      && NeverStores(Next(s, ops[0], ttlOf), ops[1..], ttlOf, key)
  }

  lemma {:induction false} UnexpiredStays(s: State, ops: seq<Op>, ttlOf: TtlOf, key: string)
    requires key in s.store && NeverStores(s, ops, ttlOf, key)
    ensures var e := Run(s, ops, ttlOf);
      s.clock <= e.clock && (e.clock < s.store[key].expiry ==> key in e.store && e.store[key] == s.store[key])
    decreases |ops|
  {
    if ops != [] {
      var s1 := Next(s, ops[0], ttlOf);
      if s1.clock < s.store[key].expiry {
        UnexpiredStays(s1, ops[1..], ttlOf, key);
      } else {
        ClockNeverGoesBack(s1, ops[1..], ttlOf);
      }
    }
  }

  lemma {:induction false} ClockNeverGoesBack(s: State, ops: seq<Op>, ttlOf: TtlOf)
    ensures s.clock <= Run(s, ops, ttlOf).clock
    decreases |ops|
  {
    if ops != [] { ClockNeverGoesBack(Next(s, ops[0], ttlOf), ops[1..], ttlOf); }
  }

  /**
   * What a fetch has stored is what every read is answered with until twice its TTL later, as long as nothing else
   * is stored under the key, whatever is read and fetched meanwhile; from then on the read misses.
   */
  lemma StoredValueIsServedForTwiceItsTtl(s: State, op: Op, ops: seq<Op>, ttlOf: TtlOf, now: int)
    requires op.Complete? && Enabled(s, op)
    requires var f := s.inFlight[op.fetch]; NeverStores(Next(s, op, ttlOf), ops, ttlOf, f.key)
    requires Run(Next(s, op, ttlOf), ops, ttlOf).clock <= now
    ensures var f := s.inFlight[op.fetch];
      var e := Run(Next(s, op, ttlOf), ops, ttlOf);
      Hit(e, f.key, now) == if now < op.later + 2000 * ttlOf(f.key) then Some(Payload(op.at, f.data)) else None
  {
    var f, s1 := s.inFlight[op.fetch], Next(s, op, ttlOf);
    UnexpiredStays(s1, ops, ttlOf, f.key);
    NothingIsAdded(s1, ops, ttlOf, f.key, op.later + 2000 * ttlOf(f.key));
  }

  lemma {:induction false} NothingIsAdded(s: State, ops: seq<Op>, ttlOf: TtlOf, key: string, expiry: int)
    requires NeverStores(s, ops, ttlOf, key) && (key in s.store ==> s.store[key].expiry <= expiry)
    ensures var e := Run(s, ops, ttlOf); key in e.store ==> e.store[key].expiry <= expiry
    decreases |ops|
  {
    if ops != [] { NothingIsAdded(Next(s, ops[0], ttlOf), ops[1..], ttlOf, key, expiry); }
  }

  // ---- The cache as it is written -------------------------------------------------------------

  class MemoryCache {
    var store: map<string, Item>

    /** Expired entries are deleted when they are met. */
    method GetCache(key: string, now: int) returns (value: Option<Payload>)
      modifies this
      ensures value == Hit(State(old(store), map[], now), key, now)
      ensures store == if value.None? then old(store) - {key} else old(store)
    {
      if key in store {
        if store[key].expiry > now { return Some(store[key].value); }
        store := store - {key};
      }
      return None;
    }

    method SetCache(key: string, value: Payload, ttlSeconds: nat, now: int)
      modifies this
      ensures store == old(store)[key := Item(value, now + ttlSeconds * 1000)]
    {
      store := store[key := Item(value, now + ttlSeconds * 1000)];
    }

    /** `getOrSetCacheSWR` up to the point where it returns or waits for its fetch. */
    method ReadSwr(key: string, ttl: nat, op: Op, inFlight: map<nat, Fetch>)
      returns (answer: Option<Data>, flying: map<nat, Fetch>)
      requires op.Read? && op.key == key && Enabled(State(store, inFlight, op.at), op)
      modifies this
      ensures State(store, flying, op.later) == AfterRead(State(old(store), inFlight, op.at), op, ttl)
      ensures answer.None? <==> Hit(State(old(store), inFlight, op.at), key, op.at).None?
      ensures answer.Some? ==> key in store && answer.value == store[key].value.data
    {
      flying := inFlight;
      var cached := GetCache(key, op.at);
      if cached.Some? {
        if Stale(cached.value, ttl, op.later) {
          flying := flying[op.fetch := Fetch(key, Data(op.later, op.body))];
        }
        return Some(cached.value.data), flying;
      }
      flying := flying[op.fetch := Fetch(key, Data(op.later, op.body))];
      return None, flying;
    }

    /** The continuation of a fetch, in the foreground or in the background. */
    method CompleteFetch(ttl: nat, op: Op, inFlight: map<nat, Fetch>) returns (flying: map<nat, Fetch>)
      requires op.Complete? && Enabled(State(store, inFlight, op.at), op)
      modifies this
      ensures State(store, flying, op.later) == AfterComplete(State(old(store), inFlight, op.at), op, ttl)
    {
      var f := inFlight[op.fetch];
      SetCache(f.key, Payload(op.at, f.data), ttl * 2, op.later);
      flying := inFlight - {op.fetch};
    }
  }
}
