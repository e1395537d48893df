/** The in-memory cache of API tokens, bucketed by token prefix, that bearer authentication reads. */
module TokenCache {
  import opened Prelude
  import opened Usernames

  datatype ApiToken = ApiToken(
    id: string, owner: Option<string>, hash: string, prefix: string, active: bool, scopes: string)

  datatype Entry = Entry(id: string, hash: string, owner: string, scopes: string)

  type Buckets = map<string, seq<Entry>>

  /** `check(raw, hash)` stands for the bcrypt comparison. */
  type Check = (string, string) -> bool

  /** The normalised owner if there is such an account. */
  function KnownOwner(users: set<string>, owner: Option<string>): Option<string> {
    var key := Normalize(owner.GetOr(""));
    if key == "" || key !in users then None else Some(key)
  }

  /** What a row contributes: nothing if it is inactive or nobody's. */
  function EntriesOf(r: ApiToken, users: set<string>): seq<Entry> {
    var owner := KnownOwner(users, r.owner);
    if r.active && owner.Some? then [Entry(r.id, r.hash, owner.value, r.scopes)] else []
  }

  function AllEntries(rows: seq<ApiToken>, users: set<string>): seq<Entry> {
    if rows == [] then [] else AllEntries(rows[..|rows| - 1], users) + EntriesOf(rows[|rows| - 1], users)
  }

  function Bucket(rows: seq<ApiToken>, users: set<string>, prefix: string): seq<Entry> {
    if rows == [] then []
    else
      var last := rows[|rows| - 1];
      Bucket(rows[..|rows| - 1], users, prefix) + if last.prefix == prefix then EntriesOf(last, users) else []
  }

  function Added(cache: Buckets, prefix: string, entries: seq<Entry>): Buckets {
    if entries == [] then cache
    else cache[prefix := (if prefix in cache then cache[prefix] else []) + entries]
  }

  /** The map a refresh builds, one row after the other. */
  function Build(rows: seq<ApiToken>, users: set<string>): Buckets {
    if rows == [] then map[]
    else
      var last := rows[|rows| - 1];
      Added(Build(rows[..|rows| - 1], users), last.prefix, EntriesOf(last, users))
  }

  function FirstMatch(entries: seq<Entry>, raw: string, check: Check): Option<Entry> {
    if entries == [] then None
    else if check(raw, entries[0].hash) then Some(entries[0])
    else FirstMatch(entries[1..], raw, check)
  }

  /** What a scan over every token row would answer. */
  function Scan(rows: seq<ApiToken>, users: set<string>, raw: string, check: Check): Option<Entry> {
    FirstMatch(AllEntries(rows, users), raw, check)
  }

  function CachedLookup(cache: Buckets, raw: string, check: Check): Option<Entry>
    requires |raw| >= 8
  {
    if raw[..8] in cache then FirstMatch(cache[raw[..8]], raw, check) else None
  }

  /** Rows store the first 8 characters of the only token their hash matches. */
  ghost predicate PrefixesRight(rows: seq<ApiToken>, check: Check) {
    forall r, raw :: r in rows && check(raw, r.hash) ==> |raw| >= 8 && r.prefix == raw[..8]
  }

  // ---- Buckets answer like a full scan --------------------------------------------------------

  lemma {:induction false} FirstMatchAppend(a: seq<Entry>, b: seq<Entry>, raw: string, check: Check)
    ensures FirstMatch(a + b, raw, check) ==
      if FirstMatch(a, raw, check).Some? then FirstMatch(a, raw, check) else FirstMatch(b, raw, check)
  {
    if a == [] {
      assert a + b == b;
    } else {
      assert (a + b)[1..] == a[1..] + b;
      FirstMatchAppend(a[1..], b, raw, check);
    }
  }

  lemma {:induction false} BucketAnswersLikeScan(
      rows: seq<ApiToken>, users: set<string>, raw: string, check: Check)
    requires |raw| >= 8 && PrefixesRight(rows, check)
    ensures FirstMatch(Bucket(rows, users, raw[..8]), raw, check) == Scan(rows, users, raw, check)
  {
    if rows != [] {
      var front, last := rows[..|rows| - 1], rows[|rows| - 1];
      BucketAnswersLikeScan(front, users, raw, check);
      FirstMatchAppend(AllEntries(front, users), EntriesOf(last, users), raw, check);
      FirstMatchAppend(
        Bucket(front, users, raw[..8]), if last.prefix == raw[..8] then EntriesOf(last, users) else [], raw, check);
    }
  }

  lemma {:induction false} BuildHoldsTheBuckets(rows: seq<ApiToken>, users: set<string>, prefix: string)
    ensures var cache := Build(rows, users);
      (if prefix in cache then cache[prefix] else []) == Bucket(rows, users, prefix)
  {
    if rows != [] { BuildHoldsTheBuckets(rows[..|rows| - 1], users, prefix); }
  }

  /** A cache built from the current tables answers every lookup as a scan of the tables would. */
  lemma BuiltCacheAnswersLikeScan(rows: seq<ApiToken>, users: set<string>, raw: string, check: Check)
    requires |raw| >= 8 && PrefixesRight(rows, check)
    ensures CachedLookup(Build(rows, users), raw, check) == Scan(rows, users, raw, check)
  {
    BucketAnswersLikeScan(rows, users, raw, check);
    BuildHoldsTheBuckets(rows, users, raw[..8]);
  }

  /** The row is active, its hash is that of the token, and its owner is an account. */
  ghost predicate Accepts(r: ApiToken, users: set<string>, raw: string, check: Check) {
    && r.active && check(raw, r.hash)
    && r.owner.Some? && Normalize(r.owner.value) in users && Normalize(r.owner.value) != ""
  }

  ghost predicate FirstAccepting(rows: seq<ApiToken>, users: set<string>, raw: string, check: Check, i: nat)
    requires i < |rows|
  {
    Accepts(rows[i], users, raw, check) && forall j :: 0 <= j < i ==> !Accepts(rows[j], users, raw, check)
  }

  lemma OwnersAreKnown(r: ApiToken, users: set<string>, raw: string, check: Check)
    ensures FirstMatch(EntriesOf(r, users), raw, check) ==
      if Accepts(r, users, raw, check) then Some(Entry(r.id, r.hash, Normalize(r.owner.value), r.scopes)) else None
  {
    assert Normalize("") == "";
    hide Normalize;
  }

  lemma ScanOneMore(rows: seq<ApiToken>, users: set<string>, raw: string, check: Check)
    requires |rows| > 0
    ensures var before, r := Scan(rows[..|rows| - 1], users, raw, check), rows[|rows| - 1];
      Scan(rows, users, raw, check) ==
        if before.Some? then before
        else if Accepts(r, users, raw, check) then Some(Entry(r.id, r.hash, Normalize(r.owner.value), r.scopes))
        else None
  {
    hide Accepts, EntriesOf, Normalize, FirstMatch;
    var n := |rows| - 1;
    OwnersAreKnown(rows[n], users, raw, check);
    FirstMatchAppend(AllEntries(rows[..n], users), EntriesOf(rows[n], users), raw, check);
  }

  lemma FirstAcceptingBefore(rows: seq<ApiToken>, users: set<string>, raw: string, check: Check, i: nat)
    requires i < |rows| - 1
    ensures FirstAccepting(rows[..|rows| - 1], users, raw, check, i) <==> FirstAccepting(rows, users, raw, check, i)
  {
    hide Accepts;
  }

  ghost predicate NoneAccepts(rows: seq<ApiToken>, users: set<string>, raw: string, check: Check) {
    forall i :: 0 <= i < |rows| ==> !Accepts(rows[i], users, raw, check)
  }

  lemma NoneAcceptsOneMore(rows: seq<ApiToken>, users: set<string>, raw: string, check: Check)
    requires |rows| > 0
    ensures var n := |rows| - 1;
      NoneAccepts(rows, users, raw, check) <==>
        NoneAccepts(rows[..n], users, raw, check) && !Accepts(rows[n], users, raw, check)
  {
    hide Accepts;
    assert forall i :: 0 <= i < |rows| - 1 ==> rows[..|rows| - 1][i] == rows[i];
  }

  lemma {:induction false} ScanRefusesExactly(rows: seq<ApiToken>, users: set<string>, raw: string, check: Check)
    ensures Scan(rows, users, raw, check).None? <==> NoneAccepts(rows, users, raw, check)
  {
    if |rows| > 0 {
      hide *;
      ScanRefusesExactly(rows[..|rows| - 1], users, raw, check);
      ScanOneMore(rows, users, raw, check);
      NoneAcceptsOneMore(rows, users, raw, check);
    }
  }

  lemma {:induction false} ScanAnswersTheFirst(
      rows: seq<ApiToken>, users: set<string>, raw: string, check: Check, i: nat)
    requires i < |rows| && FirstAccepting(rows, users, raw, check, i)
    ensures Accepts(rows[i], users, raw, check)
    ensures Scan(rows, users, raw, check) ==
      Some(Entry(rows[i].id, rows[i].hash, Normalize(rows[i].owner.value), rows[i].scopes))
  {
    var n := |rows| - 1;
    ScanOneMore(rows, users, raw, check);
    ScanRefusesExactly(rows[..n], users, raw, check);
    hide Normalize, Scan;
    if i < n {
      FirstAcceptingBefore(rows, users, raw, check, i);
      ScanAnswersTheFirst(rows[..n], users, raw, check, i);
    }
  }

  /** A scan accepts a token exactly if some row does, and answers with the first such row and its owner's account. */
  lemma ScanAnswersTheFirstAcceptingRow(rows: seq<ApiToken>, users: set<string>, raw: string, check: Check)
    ensures Scan(rows, users, raw, check).None? <==> NoneAccepts(rows, users, raw, check)
    ensures forall i :: 0 <= i < |rows| && FirstAccepting(rows, users, raw, check, i) ==>
      Scan(rows, users, raw, check) ==
        Some(Entry(rows[i].id, rows[i].hash, Normalize(rows[i].owner.value), rows[i].scopes))
  {
    ScanRefusesExactly(rows, users, raw, check);
    forall i | 0 <= i < |rows| && FirstAccepting(rows, users, raw, check, i)
      ensures Scan(rows, users, raw, check) ==
        Some(Entry(rows[i].id, rows[i].hash, Normalize(rows[i].owner.value), rows[i].scopes))
    {
      ScanAnswersTheFirst(rows, users, raw, check, i);
    }
    hide Scan, Normalize;
  }

  // ---- The dirty-flag protocol ----------------------------------------------------------------

  /** What the database holds at one time: token rows and account names. */
  datatype Tables = Tables(rows: seq<ApiToken>, users: set<string>)

  /** A map of tokens, and the version of the tables it was built from. */
  datatype Built = Built(buckets: Buckets, version: nat)

  /**
   * `versions` are the committed states of the tables, oldest first; `changing` counts changes not yet flagged.
   * `touched` records that a change was committed since the refresh under way read the tables, `torn` the same
   * for the refresh last published, up to its publishing.
   */
  datatype State = State(
    versions: seq<Tables>, cache: Built, dirty: bool, refresh: Option<Built>, changing: nat, touched: bool, torn: bool)

  datatype Op =
    | Change(tables: Tables)  // a committed change of tokens or accounts
    | Invalidate              // the flag set after it
    | RefreshRead
    | RefreshPublish
    | RefreshFails            // it raises, and leaves the cache and the flag as they are

  function Current(s: State): nat
    requires s.versions != []
  {
    |s.versions| - 1
  }

  function Now(s: State): Tables
    requires s.versions != []
  {
    s.versions[|s.versions| - 1]
  }

  /** Refreshes are serialised by the lock and re-check the flag under it. */
  predicate Enabled(s: State, op: Op) {
    && s.versions != []
    && match op
       case Change(_) => true
       case Invalidate => s.changing > 0
       case RefreshRead => s.refresh.None? && s.dirty
       case RefreshPublish | RefreshFails => s.refresh.Some?
  }

  function Next(s: State, op: Op): State {
    if !Enabled(s, op) then s
    else
      match op
      case Change(tables) =>
        s.(versions := s.versions + [tables], changing := s.changing + 1, touched := s.refresh.Some?)
      case Invalidate => s.(dirty := true, changing := s.changing - 1)
      case RefreshRead =>
        s.(refresh := Some(Built(Build(Now(s).rows, Now(s).users), Current(s))), touched := false)
      case RefreshPublish => s.(cache := s.refresh.value, dirty := false, refresh := None, torn := s.touched)
      case RefreshFails => s.(refresh := None)
  }

  function Run(s: State, ops: seq<Op>): State
    decreases |ops|
  {
    if ops == [] then s else Run(Next(s, ops[0]), ops[1..])
  }

  /** At startup the flag is set and nothing has been read. */
  function Startup(tables: Tables): State {
    State([tables], Built(map[], 0), true, None, 0, false, false)
  }

  ghost predicate BuiltFrom(s: State, b: Built) {
    b.version < |s.versions| && b.buckets == Build(s.versions[b.version].rows, s.versions[b.version].users)
  }

  /** Until something is published the flag stays set; afterwards the cache is of a version that existed. */
  ghost predicate Inv(s: State) {
    && s.versions != []
    && (s.refresh.Some? ==> BuiltFrom(s, s.refresh.value) && (s.refresh.value.version == Current(s) <==> !s.touched))
    && (!s.dirty ==> BuiltFrom(s, s.cache) && (s.torn ==> s.cache.version != Current(s)))
    && (!s.dirty && s.changing == 0 && !s.torn ==> s.cache.version == Current(s))
  }

  lemma StepKeepsInv(s: State, op: Op)
    requires Inv(s)
    ensures Inv(Next(s, op))
  {
    hide Build;
  }

  lemma {:induction false} RunKeepsInv(s: State, ops: seq<Op>)
    requires Inv(s)
    ensures Inv(Run(s, ops))
    decreases |ops|
  {
    if ops != [] {
      StepKeepsInv(s, ops[0]);
      hide Inv;
      RunKeepsInv(Next(s, ops[0]), ops[1..]);
    }
  }

  /**
   * In every run, with every change flagged and the flag clear, the cache is of the current version of the tables
   * exactly if no change was committed between the read and the publishing of the last published refresh; it
   * answers what the tables of its version say.
   */
  lemma ClearFlagMeansCurrentExactly(tables: Tables, ops: seq<Op>, raw: string, check: Check)
    requires var e := Run(Startup(tables), ops); !e.dirty && e.changing == 0
    ensures var e := Run(Startup(tables), ops);
      && e.cache.version < |e.versions| && (e.cache.version == Current(e) <==> !e.torn)
      && (var read := e.versions[e.cache.version];
          |raw| >= 8 && PrefixesRight(read.rows, check) ==>
            CachedLookup(e.cache.buckets, raw, check) == Scan(read.rows, read.users, raw, check))
  {
    RunKeepsInv(Startup(tables), ops);
    var e := Run(Startup(tables), ops);
    var read := e.versions[e.cache.version];
    if |raw| >= 8 && PrefixesRight(read.rows, check) { BuiltCacheAnswersLikeScan(read.rows, read.users, raw, check); }
  }

  /** Steps that do not end a refresh. */
  ghost predicate AllInside(ops: seq<Op>) {
    forall i :: 0 <= i < |ops| ==> !ops[i].RefreshPublish? && !ops[i].RefreshFails?
  }

  /** What `torn` records, on the run itself: a change after the read of the refresh that is published here. */
  lemma {:induction false} TornMeansAChangeInBetween(s: State, between: seq<Op>)
    requires Inv(s) && Enabled(s, RefreshRead) && AllInside(between)
    ensures var e := Next(Run(Next(s, RefreshRead), between), RefreshPublish);
      e.torn <==> exists i :: 0 <= i < |between| && between[i].Change?
  {
    StepKeepsInv(s, RefreshRead);
    TouchedMeansAChange(Next(s, RefreshRead), between);
  }

  lemma {:induction false} TouchedMeansAChange(s: State, between: seq<Op>)
    requires s.versions != [] && s.refresh.Some? && AllInside(between)
    ensures var e := Run(s, between);
      && e.versions != [] && e.refresh.Some?
      && (e.touched <==> s.touched || exists i :: 0 <= i < |between| && between[i].Change?)
    decreases |between|
  {
    if between != [] {
      var s1, rest := Next(s, between[0]), between[1..];
      TouchedMeansAChange(s1, rest);
      assert forall i :: 0 <= i < |rest| ==> rest[i] == between[i + 1];
    }
  }

  /**
   * The bearer path up to the lookup. If the flag is set it takes the lock, so waits for a refresh under way, and
   * refreshes if the flag is still set. Should the refresh under way raise instead, that is a step before this.
   */
  function AfterWaiting(s: State): State {
    if !s.dirty then s
    else
      var published := Next(s, RefreshPublish);
      if published.dirty then Next(Next(published, RefreshRead), RefreshPublish) else published
  }

  // ---- Minting --------------------------------------------------------------------------------

  lemma AppendedRowIsFound(rows: seq<ApiToken>, users: set<string>, row: ApiToken, raw: string, check: Check)
    requires check(raw, row.hash) && row.active && KnownOwner(users, row.owner).Some?
    requires forall r :: r in rows ==> !check(raw, r.hash)
    ensures Scan(rows + [row], users, raw, check)
      == Some(Entry(row.id, row.hash, KnownOwner(users, row.owner).value, row.scopes))
  {
    assert (rows + [row])[..|rows|] == rows;
    NothingMatches(rows, users, raw, check);
    FirstMatchAppend(AllEntries(rows, users), EntriesOf(row, users), raw, check);
  }

  lemma {:induction false} NothingMatches(rows: seq<ApiToken>, users: set<string>, raw: string, check: Check)
    requires forall r :: r in rows ==> !check(raw, r.hash)
    ensures Scan(rows, users, raw, check) == None
  {
    if rows != [] {
      NothingMatches(rows[..|rows| - 1], users, raw, check);
      FirstMatchAppend(
        AllEntries(rows[..|rows| - 1], users), EntriesOf(rows[|rows| - 1], users), raw, check);
    }
  }

  /** The row that minting stores for a raw token of which only the hash is kept. */
  function Minted(id: string, owner: string, raw: string, hash: string): ApiToken
    requires |raw| >= 8
  {
    ApiToken(id, Some(owner), hash, raw[..8], true, "chat")
  }

  /** The token is new to every version of the tables so far, and they store prefixes as they should. */
  ghost predicate NewToken(s: State, raw: string, check: Check) {
    forall v :: 0 <= v < |s.versions| ==>
      PrefixesRight(s.versions[v].rows, check) && forall r :: r in s.versions[v].rows ==> !check(raw, r.hash)
  }

  lemma {:induction false} OnlyRefreshesKeepVersions(s: State, ops: seq<Op>)
    requires forall i :: 0 <= i < |ops| ==> !ops[i].Change?
    ensures Run(s, ops).versions == s.versions
    decreases |ops|
  {
    if ops != [] {
      assert !ops[0].Change?;
      OnlyRefreshesKeepVersions(Next(s, ops[0]), ops[1..]);
    }
  }

  /**
   * A token is minted in any reachable state, refreshes run and the flag is set in any order, then it is looked
   * up. It is accepted, as its own, exactly if no change, so not the minting either, came between the read and the
   * publishing of the refresh last published by then; otherwise it is refused.
   */
  lemma MintedTokenIsAcceptedExactly(
      s: State, id: string, owner: string, raw: string, hash: string, ops: seq<Op>, check: Check)
    requires Inv(s) && NewToken(s, raw, check)
    requires |raw| >= 8 && KnownOwner(Now(s).users, Some(owner)).Some?
    requires forall other :: check(other, hash) <==> other == raw
    requires forall i :: 0 <= i < |ops| ==> !ops[i].Change?
    requires var minted := Tables(Now(s).rows + [Minted(id, owner, raw, hash)], Now(s).users);
      Run(Next(s, Change(minted)), ops).changing == 0
    ensures var minted := Tables(Now(s).rows + [Minted(id, owner, raw, hash)], Now(s).users);
      var e := AfterWaiting(Run(Next(s, Change(minted)), ops));
      && !e.dirty
      && CachedLookup(e.cache.buckets, raw, check) ==
           if e.torn then None else Some(Entry(id, hash, Normalize(owner), "chat"))
  {
    var row := Minted(id, owner, raw, hash);
    var minted := Tables(Now(s).rows + [row], Now(s).users);
    AfterAChange(s, minted, ops);
    var e := AfterWaiting(Run(Next(s, Change(minted)), ops));
    if e.torn {
      OldVersionRefuses(s, e.versions[e.cache.version], raw, check);
    } else {
      NewVersionAccepts(Now(s), id, owner, raw, hash, check);
    }
    hide Build, Scan, CachedLookup, PrefixesRight, KnownOwner, Normalize, Run, Next, AfterWaiting;
  }

  lemma AfterAChange(s: State, tables: Tables, ops: seq<Op>)
    requires Inv(s) && forall i :: 0 <= i < |ops| ==> !ops[i].Change?
    requires Run(Next(s, Change(tables)), ops).changing == 0
    ensures var e := AfterWaiting(Run(Next(s, Change(tables)), ops));
      && !e.dirty && e.versions == s.versions + [tables] && BuiltFrom(e, e.cache)
      && (e.torn ==> e.versions[e.cache.version] in s.versions)
      && (!e.torn ==> e.versions[e.cache.version] == tables)
  {
    StepKeepsInv(s, Change(tables));
    var s1 := Next(s, Change(tables));
    RunKeepsInv(s1, ops);
    OnlyRefreshesKeepVersions(s1, ops);
    WaitingKeepsInv(Run(s1, ops));
    var e := AfterWaiting(Run(s1, ops));
    assert Inv(e);
    hide Build, Run, Next, AfterWaiting;
    if e.torn { assert e.versions[e.cache.version] == s.versions[e.cache.version]; }
  }

  lemma OldVersionRefuses(s: State, read: Tables, raw: string, check: Check)
    requires |raw| >= 8 && NewToken(s, raw, check) && read in s.versions
    ensures CachedLookup(Build(read.rows, read.users), raw, check) == None
  {
    var v :| 0 <= v < |s.versions| && s.versions[v] == read;
    BuiltCacheAnswersLikeScan(read.rows, read.users, raw, check);
    NothingMatches(read.rows, read.users, raw, check);
  }

  lemma NewVersionAccepts(was: Tables, id: string, owner: string, raw: string, hash: string, check: Check)
    requires |raw| >= 8 && PrefixesRight(was.rows, check) && KnownOwner(was.users, Some(owner)).Some?
    requires (forall other :: check(other, hash) <==> other == raw) && forall r :: r in was.rows ==> !check(raw, r.hash)
    ensures CachedLookup(Build(was.rows + [Minted(id, owner, raw, hash)], was.users), raw, check)
      == Some(Entry(id, hash, Normalize(owner), "chat"))
  {
    var row := Minted(id, owner, raw, hash);
    assert PrefixesRight(was.rows + [row], check);
    BuiltCacheAnswersLikeScan(was.rows + [row], was.users, raw, check);
    AppendedRowIsFound(was.rows, was.users, row, raw, check);
  }

  lemma WaitingKeepsInv(s: State)
    requires Inv(s)
    ensures var e := AfterWaiting(s);
      Inv(e) && !e.dirty && e.versions == s.versions && e.changing == s.changing
  {
    StepKeepsInv(s, RefreshPublish);
    var published := Next(s, RefreshPublish);
    StepKeepsInv(published, RefreshRead);
    StepKeepsInv(Next(published, RefreshRead), RefreshPublish);
    hide Inv, Build;
  }

  /** With no refresh under way when it is minted, and none started before it is flagged, it works at once. */
  lemma MintedTokenWorksAtOnce(s: State, id: string, owner: string, raw: string, hash: string, check: Check)
    requires Inv(s) && s.refresh.None? && s.changing == 0 && NewToken(s, raw, check)
    requires |raw| >= 8 && KnownOwner(Now(s).users, Some(owner)).Some?
    requires forall other :: check(other, hash) <==> other == raw
    ensures var minted := Tables(Now(s).rows + [Minted(id, owner, raw, hash)], Now(s).users);
      var e := AfterWaiting(Next(Next(s, Change(minted)), Invalidate));
      CachedLookup(e.cache.buckets, raw, check) == Some(Entry(id, hash, Normalize(owner), "chat"))
  {
    var minted := Tables(Now(s).rows + [Minted(id, owner, raw, hash)], Now(s).users);
    assert [Invalidate][1..] == [];
    assert Run(Next(s, Change(minted)), [Invalidate]) == Next(Next(s, Change(minted)), Invalidate);
    MintedTokenIsAcceptedExactly(s, id, owner, raw, hash, [Invalidate], check);
  }

  /**
   * Minted and flagged while a refresh has read the tables and not published: refused by the next lookup, which
   * waits for that refresh and then finds the flag clear, although a scan finds it.
   */
  lemma OverlappingMintIsLost(s: State, id: string, owner: string, raw: string, hash: string, check: Check)
    requires Inv(s) && s.refresh.Some? && s.changing == 0 && NewToken(s, raw, check)
    requires |raw| >= 8 && KnownOwner(Now(s).users, Some(owner)).Some?
    requires forall other :: check(other, hash) <==> other == raw
    ensures var minted := Tables(Now(s).rows + [Minted(id, owner, raw, hash)], Now(s).users);
      var e := AfterWaiting(Next(Next(s, Change(minted)), Invalidate));
      && !e.dirty && e.changing == 0
      && CachedLookup(e.cache.buckets, raw, check) == None && Scan(Now(e).rows, Now(e).users, raw, check).Some?
  {
    var row := Minted(id, owner, raw, hash);
    var minted := Tables(Now(s).rows + [row], Now(s).users);
    assert [Invalidate][1..] == [];
    assert Run(Next(s, Change(minted)), [Invalidate]) == Next(Next(s, Change(minted)), Invalidate);
    MintedTokenIsAcceptedExactly(s, id, owner, raw, hash, [Invalidate], check);
    AppendedRowIsFound(Now(s).rows, Now(s).users, row, raw, check);
  }

  // ---- Revoking -------------------------------------------------------------------------------

  /** Every version of the tables so far stores prefixes as it should and accepts the token. */
  ghost predicate AlwaysAccepted(s: State, raw: string, check: Check) {
    forall v :: 0 <= v < |s.versions| ==> !Refused(s.versions[v], raw, check)
  }

  /** No row accepts the token: those of its hash are gone or inactive, or their owner is no account. */
  ghost predicate Refused(tables: Tables, raw: string, check: Check) {
    NoneAccepts(tables.rows, tables.users, raw, check)
  }

  ghost predicate AnswersLikeAVersion(s: State, cache: Buckets, raw: string, check: Check)
    requires |raw| >= 8
  {
    exists read :: read in s.versions && CachedLookup(cache, raw, check) == Scan(read.rows, read.users, raw, check)
  }

  ghost predicate AllPrefixesRight(s: State, check: Check) {
    forall v :: 0 <= v < |s.versions| ==> PrefixesRight(s.versions[v].rows, check)
  }

  lemma AsRefused(tables: Tables, raw: string, check: Check)
    ensures Refused(tables, raw, check) <==> Scan(tables.rows, tables.users, raw, check).None?
  {
    ScanAnswersTheFirstAcceptingRow(tables.rows, tables.users, raw, check);
  }

  /**
   * In any reachable state the tables change so that a token is no longer accepted: its row or its account is
   * gone, or it is inactive. Refreshes run and the flag is set in any order, then it is looked up. Of a token
   * accepted by every version before, it is refused exactly if no change, so not this one either, came between
   * the read and the publishing of the refresh last published by then. In general a torn refresh leaves the answer
   * of the older version it read.
   */
  lemma RevokedTokenIsRefusedExactly(s: State, tables: Tables, raw: string, ops: seq<Op>, check: Check)
    requires Inv(s) && AllPrefixesRight(s, check) && PrefixesRight(tables.rows, check)
    requires |raw| >= 8 && Refused(tables, raw, check)
    requires forall i :: 0 <= i < |ops| ==> !ops[i].Change?
    requires Run(Next(s, Change(tables)), ops).changing == 0
    ensures var e := AfterWaiting(Run(Next(s, Change(tables)), ops));
      && !e.dirty
      && (AlwaysAccepted(s, raw, check) ==> (CachedLookup(e.cache.buckets, raw, check).None? <==> !e.torn))
      && (e.torn ==> AnswersLikeAVersion(s, e.cache.buckets, raw, check))
      && (!e.torn ==> CachedLookup(e.cache.buckets, raw, check).None?)
  {
    AfterAChange(s, tables, ops);
    var e := AfterWaiting(Run(Next(s, Change(tables)), ops));
    var read := e.versions[e.cache.version];
    assert e.torn ==> PrefixesRight(read.rows, check);
    BuiltCacheAnswersLikeScan(read.rows, read.users, raw, check);
    AsRefused(read, raw, check);
    hide Build, Scan, CachedLookup, PrefixesRight, Run, Next, AfterWaiting, Inv, Accepts, Refused;
  }

  /** With no refresh under way when it is revoked, and none started before it is flagged, it is refused at once. */
  lemma RevokedTokenIsRefusedAtOnce(s: State, tables: Tables, raw: string, check: Check)
    requires Inv(s) && s.refresh.None? && s.changing == 0
    requires AllPrefixesRight(s, check) && PrefixesRight(tables.rows, check)
    requires |raw| >= 8 && Refused(tables, raw, check)
    ensures var e := AfterWaiting(Next(Next(s, Change(tables)), Invalidate));
      CachedLookup(e.cache.buckets, raw, check).None?
  {
    assert [Invalidate][1..] == [];
    assert Run(Next(s, Change(tables)), [Invalidate]) == Next(Next(s, Change(tables)), Invalidate);
    RevokedTokenIsRefusedExactly(s, tables, raw, [Invalidate], check);
  }

  /**
   * Revoked and flagged while a refresh that has read the tables as they were before is not published: the next
   * lookup waits for that refresh, finds the flag clear and accepts the token, although a scan does not.
   */
  lemma OverlappingRevocationIsLost(s: State, tables: Tables, raw: string, check: Check)
    requires Inv(s) && s.refresh.Some? && !s.touched && s.changing == 0
    requires AllPrefixesRight(s, check) && |raw| >= 8
    requires !Refused(Now(s), raw, check) && Refused(tables, raw, check)
    ensures var e := AfterWaiting(Next(Next(s, Change(tables)), Invalidate));
      && !e.dirty && e.changing == 0 && Refused(Now(e), raw, check)
      && CachedLookup(e.cache.buckets, raw, check) == Scan(Now(s).rows, Now(s).users, raw, check) != None
  {
    AsRefused(Now(s), raw, check);
    hide Scan, CachedLookup, PrefixesRight, Build, Accepts;
    BuiltCacheAnswersLikeScan(Now(s).rows, Now(s).users, raw, check);
  }

  /** Creating an account sets no flag. That is harmless as long as no token row already names it. */
  lemma {:induction false} NewAccountNeedsNoRefresh(rows: seq<ApiToken>, users: set<string>, name: string)
    requires forall r :: r in rows ==> Normalize(r.owner.GetOr("")) != name
    ensures Build(rows, users + {name}) == Build(rows, users)
  {
    if rows != [] { NewAccountNeedsNoRefresh(rows[..|rows| - 1], users, name); }
  }

  // ---- The middleware as it is written --------------------------------------------------------

  lemma BuildNothing(rows: seq<ApiToken>, users: set<string>)
    ensures Build(rows[..0], users) == map[]
  {
  }

  lemma BuildOneMore(rows: seq<ApiToken>, users: set<string>, i: nat)
    requires i < |rows|
    ensures Build(rows[..i + 1], users) == Added(Build(rows[..i], users), rows[i].prefix, EntriesOf(rows[i], users))
  {
    assert rows[..i + 1][..i] == rows[..i];
  }

  class AuthState {
    var rows: seq<ApiToken>
    var users: set<string>
    var cache: Buckets
    var dirty: bool

    method Refresh()
      modifies this`cache, this`dirty
      ensures cache == Build(rows, users) && !dirty
    {
      hide Build, KnownOwner;
      var newMap: Buckets := map[];
      BuildNothing(rows, users);
      for i := 0 to |rows|
        invariant newMap == Build(rows[..i], users)
      {
        var r := rows[i];
        var owner := KnownOwner(users, r.owner);
        if r.active && owner.Some? {
          var bucket := if r.prefix in newMap then newMap[r.prefix] else [];
          newMap := newMap[r.prefix := bucket + [Entry(r.id, r.hash, owner.value, r.scopes)]];
        }
        BuildOneMore(rows, users, i);
      }
      assert rows[..|rows|] == rows;
      cache := newMap;
      dirty := false;
    }

    /** The bearer branch of the middleware, from the raw token to the matching row. */
    method Authenticate(raw: string, check: Check) returns (hit: Option<Entry>)
      requires !dirty ==> cache == Build(rows, users)
      requires PrefixesRight(rows, check)
      modifies this`cache, this`dirty
      ensures hit == if 12 <= |raw| <= 100 then Scan(rows, users, raw, check) else None
    {
      if |raw| < 12 || |raw| > 100 { return None; }
      if dirty { Refresh(); }
      BuiltCacheAnswersLikeScan(rows, users, raw, check);
      var candidates := if raw[..8] in cache then cache[raw[..8]] else [];
      var i := 0;
      while i < |candidates|
        invariant 0 <= i <= |candidates|
        invariant FirstMatch(candidates, raw, check) == FirstMatch(candidates[i..], raw, check)
      {
        if check(raw, candidates[i].hash) { return Some(candidates[i]); }
        i := i + 1;
      }
      return None;
    }
  }
}
