/**
 * Row locking of email-account owner scopes on a row-locking database, and the seeding of one legacy account
 * under that lock. Every SQL statement of every transaction is a step.
 */
module OwnerLocks {
  import opened Prelude
  import opened StringOrder

  // ---- Which keys, in which order -------------------------------------------------------------

  ghost predicate Ascending(keys: seq<string>) {
    forall i, j :: 0 <= i < j < |keys| ==> Less(keys[i], keys[j])
  }

  function Insert(key: string, keys: seq<string>): seq<string> {
    if keys == [] then [key]
    else if key == keys[0] then keys
    else if Less(key, keys[0]) then [key] + keys
    else [keys[0]] + Insert(key, keys[1..])
  }

  /** NULL and the empty string are one scope. */
  function ScopeKey(owner: Option<string>): string {
    owner.GetOr("")
  }

  function SortedKeys(owners: seq<Option<string>>): seq<string> {
    if owners == [] then [] else Insert(ScopeKey(owners[0]), SortedKeys(owners[1..]))
  }

  /** `sorted({owner or "" for owner in owners} or {""})`. */
  function OwnerKeys(owners: seq<Option<string>>): seq<string> {
    if owners == [] then [""] else SortedKeys(owners)
  }

  lemma {:induction false} InsertKeepsAscending(key: string, keys: seq<string>)
    requires Ascending(keys)
    ensures Ascending(Insert(key, keys))
    ensures forall x :: x in Insert(key, keys) <==> x == key || x in keys
  {
    if keys != [] && key != keys[0] {
      LessIsTotal(key, keys[0]);
      if Less(key, keys[0]) {
        forall i | 0 <= i < |keys| ensures Less(key, keys[i]) {
          if i > 0 { LessIsTransitive(key, keys[0], keys[i]); }
        }
      } else {
        InsertKeepsAscending(key, keys[1..]);
        var rest := Insert(key, keys[1..]);
        forall i | 0 <= i < |rest| ensures Less(keys[0], rest[i]) {
          assert rest[i] == key || rest[i] in keys[1..];
        }
        assert keys == [keys[0]] + keys[1..];
      }
    }
  }

  /** The keys are in strictly ascending order, so distinct, and are exactly the requested scopes. */
  lemma {:induction false} OwnerKeysAreCanonical(owners: seq<Option<string>>)
    ensures Ascending(OwnerKeys(owners)) && OwnerKeys(owners) != []
    ensures forall k :: k in OwnerKeys(owners) <==>
      (owners == [] && k == "") || exists i :: 0 <= i < |owners| && ScopeKey(owners[i]) == k
  {
    if |owners| >= 1 {
      SortedKeysAreCanonical(owners);
    }
  }

  lemma {:induction false} SortedKeysAreCanonical(owners: seq<Option<string>>)
    ensures Ascending(SortedKeys(owners)) && (owners != [] ==> SortedKeys(owners) != [])
    ensures forall k :: k in SortedKeys(owners) <==> exists i :: 0 <= i < |owners| && ScopeKey(owners[i]) == k
  {
    if owners != [] {
      var rest := owners[1..];
      SortedKeysAreCanonical(rest);
      InsertKeepsAscending(ScopeKey(owners[0]), SortedKeys(rest));
      assert ScopeKey(owners[0]) in SortedKeys(owners);
      forall k ensures k in SortedKeys(owners) <==> exists i :: 0 <= i < |owners| && ScopeKey(owners[i]) == k {
        if k in SortedKeys(rest) {
          var i :| 0 <= i < |rest| && ScopeKey(rest[i]) == k;
          assert ScopeKey(owners[i + 1]) == k;
        }
        if i :| 0 < i < |owners| && ScopeKey(owners[i]) == k {
          assert ScopeKey(rest[i - 1]) == k;
        }
      }
    }
  }

  // ---- The protocol ---------------------------------------------------------------------------

  /** What a transaction does next: one of the three statements for its current key, or its body. */
  datatype Phase = SelectRow | InsertRow | SelectExisting | Body | Counted | Seeded | Closed

  datatype Txn = Txn(keys: seq<string>, next: nat, phase: Phase, seeder: bool)

  /**
   * The committed email accounts: how many are seeded ones, how many others, and, as history, how many seedings
   * there were since the table last was empty.
   */
  datatype Accounts = Accounts(seeded: nat, others: nat, seedings: nat)

  /** What a transaction other than a seeder does to the table: it creates and deletes accounts. */
  function Edited(a: Accounts, created: nat, goneSeeded: nat, goneOthers: nat): Accounts
    requires goneSeeded <= a.seeded && goneOthers <= a.others + created
  {
    var seeded, others := a.seeded - goneSeeded, a.others + created - goneOthers;
    Accounts(seeded, others, if seeded + others == 0 then 0 else a.seedings)
  }

  function WithSeed(a: Accounts): Accounts {
    Accounts(a.seeded + 1, a.others, a.seedings + 1)
  }

  /**
   * `rows` are the committed mutex rows, `rowLocks` who has locked them, `staged` who has inserted a mutex row
   * without having committed yet.
   */
  datatype Db = Db(
    rows: set<string>, rowLocks: map<string, nat>, staged: map<string, nat>,
    txns: map<nat, Txn>, accounts: Accounts)

  datatype Op =
    | Start(t: nat, owners: seq<Option<string>>, seeder: bool)
    | Statement(t: nat)                 // the next statement of the lock loop
    | Count(t: nat)
    | InsertSeed(t: nat)
    | Commit(t: nat, created: nat, goneSeeded: nat, goneOthers: nat)
    | Rollback(t: nat)                  // also what closing without a commit does

  predicate Locking(p: Phase) {
    p.SelectRow? || p.InsertRow? || p.SelectExisting?
  }

  predicate Active(db: Db, t: nat) {
    t in db.txns && !db.txns[t].phase.Closed?
  }

  predicate InLockLoop(db: Db, t: nat) {
    t in db.txns && Locking(db.txns[t].phase) && db.txns[t].next < |db.txns[t].keys|
  }

  function CurrentKey(db: Db, t: nat): string
    requires InLockLoop(db, t)
  {
    db.txns[t].keys[db.txns[t].next]
  }

  /** The statement has to wait: for a locked row, or for the fate of another's uncommitted insert. */
  predicate Blocked(db: Db, t: nat)
    requires InLockLoop(db, t)
  {
    var k := CurrentKey(db, t);
    match db.txns[t].phase
    case SelectRow => k in db.rows && k in db.rowLocks
    case InsertRow => k !in db.rows && k in db.staged
    case _ => k in db.rowLocks
  }

  predicate Enabled(db: Db, op: Op) {
    match op
    case Start(t, _, _) => t !in db.txns
    case Statement(t) => InLockLoop(db, t) && !Blocked(db, t)
    case Count(t) => t in db.txns && db.txns[t].phase.Body? && db.txns[t].seeder
    case InsertSeed(t) => t in db.txns && db.txns[t].phase.Counted?
    case Commit(t, created, goneSeeded, goneOthers) =>
      && t in db.txns && (if db.txns[t].seeder then db.txns[t].phase.Seeded? else db.txns[t].phase.Body?)
      && goneSeeded <= db.accounts.seeded && goneOthers <= db.accounts.others + created
    case Rollback(t) => Active(db, t)
  }

  function Released(locks: map<string, nat>, t: nat): map<string, nat> {
    map k | k in locks && locks[k] != t :: locks[k]
  }

  function SetTxn(db: Db, t: nat, txn: Txn): Db {
    db.(txns := db.txns[t := txn])
  }

  /** The transaction after it has got its current key. */
  function Advanced(txn: Txn): Txn {
    txn.(next := txn.next + 1, phase := if txn.next + 1 == |txn.keys| then Body else SelectRow)
  }

  function Apply(db: Db, op: Op): Db
    requires Enabled(db, op)
  {
    match op
    case Start(t, owners, seeder) =>
      SetTxn(db, t, Txn(OwnerKeys(if seeder then [Some("")] else owners), 0, SelectRow, seeder))
    case Statement(t) =>
      var txn, k := db.txns[t], CurrentKey(db, t);
      if txn.phase.InsertRow? then
        if k in db.rows then SetTxn(db, t, txn.(phase := SelectExisting))  // IntegrityError, back to the savepoint
        else SetTxn(db.(staged := db.staged[k := t]), t, Advanced(txn))
      else if txn.phase.SelectRow? && k !in db.rows then SetTxn(db, t, txn.(phase := InsertRow))
      else SetTxn(db.(rowLocks := db.rowLocks[k := t]), t, Advanced(txn))
    case Count(t) =>
      if db.accounts.seeded + db.accounts.others > 0 then Close(db, t, false)
      else SetTxn(db, t, db.txns[t].(phase := Counted))
    case InsertSeed(t) => SetTxn(db, t, db.txns[t].(phase := Seeded))
    case Commit(t, created, goneSeeded, goneOthers) =>
      var edited :=
        if db.txns[t].seeder then WithSeed(db.accounts) else Edited(db.accounts, created, goneSeeded, goneOthers);
      Close(db, t, true).(accounts := edited)
    case Rollback(t) => Close(db, t, false)
  }

  /** The end of a transaction releases its locks; its inserted mutex rows become durable or vanish. */
  function Close(db: Db, t: nat, commit: bool): Db
    requires t in db.txns
  {
    SetTxn(
      db.(rows := if commit then db.rows + (set k | k in db.staged && db.staged[k] == t) else db.rows,
          rowLocks := Released(db.rowLocks, t), staged := Released(db.staged, t)),
      t, db.txns[t].(phase := Closed))
  }

  function Next(db: Db, op: Op): Db {
    if Enabled(db, op) then Apply(db, op) else db
  }

  function Run(db: Db, ops: seq<Op>): Db
    decreases |ops|
  {
    if ops == [] then db else Run(Next(db, ops[0]), ops[1..])
  }

  const EMPTY := Db({}, map[], map[], map[], Accounts(0, 0, 0))

  // ---- The invariant --------------------------------------------------------------------------

  /** The keys a transaction has got past. */
  function Got(txn: Txn): set<string> {
    set i | 0 <= i < |txn.keys| && i < txn.next :: txn.keys[i]
  }

  ghost predicate TxnOk(txn: Txn) {
    && Ascending(txn.keys) && txn.next <= |txn.keys|
    && (Locking(txn.phase) ==> txn.next < |txn.keys|)
    && (!Locking(txn.phase) && !txn.phase.Closed? ==> txn.next == |txn.keys|)
    && (txn.seeder ==> txn.keys == [""])
    && (txn.phase.Counted? || txn.phase.Seeded? ==> txn.seeder)
  }

  predicate Holds(db: Db, t: nat, k: string) {
    (k in db.rowLocks && db.rowLocks[k] == t) || (k in db.staged && db.staged[k] == t)
  }

  /** A lock belongs to a transaction that is open and past that key, and an open one holds all it is past. */
  ghost predicate LocksMatch(db: Db) {
    LocksAreOwned(db) && OpenOnesHold(db)
  }

  ghost predicate LocksAreOwned(db: Db) {
    && (forall k :: k in db.rowLocks ==> Active(db, db.rowLocks[k]) && k in Got(db.txns[db.rowLocks[k]]))
    && (forall k :: k in db.staged ==> Active(db, db.staged[k]) && k in Got(db.txns[db.staged[k]]))
  }

  ghost predicate OpenOnesHold(db: Db) {
    forall t, k :: Active(db, t) && k in Got(db.txns[t]) ==> Holds(db, t, k)
  }

  ghost predicate RowsMatch(db: Db) {
    && db.rowLocks.Keys <= db.rows && db.staged.Keys !! db.rows
    && (forall t :: InLockLoop(db, t) && db.txns[t].phase.SelectExisting? ==> CurrentKey(db, t) in db.rows)
  }

  predicate Seeding(db: Db, t: nat) {
    t in db.txns && (db.txns[t].phase.Counted? || db.txns[t].phase.Seeded?)
  }

  predicate Sane(a: Accounts) {
    a.seeded <= a.seedings <= 1 && (a.seeded + a.others == 0 ==> a.seedings == 0)
  }

  ghost predicate SeedersRight(db: Db) {
    && Sane(db.accounts)
    && forall t :: t in db.txns ==>
         (db.txns[t].phase.Counted? || db.txns[t].phase.Seeded?) ==> db.accounts.seedings == 0
  }

  ghost predicate TxnsOk(db: Db) {
    forall t :: t in db.txns ==> TxnOk(db.txns[t])
  }

  ghost predicate Inv(db: Db) {
    TxnsOk(db) && LocksMatch(db) && RowsMatch(db) && SeedersRight(db)
  }

  /** No two transactions that are still open have got past the same key. */
  lemma LocksAreExclusive(db: Db, t: nat, u: nat, k: string)
    requires LocksMatch(db) && RowsMatch(db) && Active(db, t) && Active(db, u)
    requires k in Got(db.txns[t]) && k in Got(db.txns[u])
    ensures t == u
  {
  }

  lemma StartKeepsInv(db: Db, op: Op)
    requires Inv(db) && op.Start? && Enabled(db, op)
    ensures Inv(Apply(db, op))
  {
    OwnerKeysAreCanonical(op.owners);
    assert OwnerKeys([Some("")]) == [""] by { assert [Some("")][1..] == []; }
    var txn := Apply(db, op).txns[op.t];
    assert TxnOk(txn) && Got(txn) == {};
  }

  lemma RephaseKeepsInv(db: Db, t: nat, phase: Phase)
    requires Inv(db) && Active(db, t) && !phase.Closed? && (Locking(phase) <==> Locking(db.txns[t].phase))
    requires phase.SelectExisting? && InLockLoop(db, t) ==> CurrentKey(db, t) in db.rows
    requires phase.Counted? || phase.Seeded? ==> db.txns[t].seeder && db.accounts.seedings == 0
    ensures Inv(SetTxn(db, t, db.txns[t].(phase := phase)))
  {
    var db' := SetTxn(db, t, db.txns[t].(phase := phase));
    assert Got(db'.txns[t]) == Got(db.txns[t]);
  }

  lemma GotGrows(txn: Txn)
    requires txn.next < |txn.keys|
    ensures Got(Advanced(txn)) == Got(txn) + {txn.keys[txn.next]}
  {
  }

  /** Adding one lock on `key` for a transaction that at the same time moves past `key`. */
  lemma OneMoreLock(db: Db, t: nat, key: string, db': Db)
    requires LocksMatch(db) && Active(db, t) && Active(db', t) && db'.txns == db.txns[t := db'.txns[t]]
    requires Got(db'.txns[t]) == Got(db.txns[t]) + {key}
    requires forall k :: k in db'.rowLocks ==>
      (k in db.rowLocks && db'.rowLocks[k] == db.rowLocks[k]) || (k == key && db'.rowLocks[k] == t)
    requires forall k :: k in db'.staged ==>
      (k in db.staged && db'.staged[k] == db.staged[k]) || (k == key && db'.staged[k] == t)
    requires Holds(db', t, key) && forall u, k :: Holds(db, u, k) ==> Holds(db', u, k)
    ensures LocksMatch(db')
  {
    hide Got;
    assert LocksAreOwned(db') by { hide Holds, OpenOnesHold; }
    hide LocksAreOwned;
    forall u, k | Active(db', u) && k in Got(db'.txns[u]) ensures Holds(db', u, k) {
      if u != t || k != key { assert Holds(db, u, k); }
    }
  }

  lemma AdvancingKeepsTheRest(db: Db, t: nat, db': Db)
    requires TxnsOk(db) && SeedersRight(db) && InLockLoop(db, t)
    requires db'.txns == db.txns[t := Advanced(db.txns[t])] && db'.accounts == db.accounts
    ensures TxnsOk(db') && SeedersRight(db')
  {
  }

  lemma LockingKeepsInv(db: Db, t: nat)
    requires Inv(db) && InLockLoop(db, t) && CurrentKey(db, t) in db.rows && CurrentKey(db, t) !in db.rowLocks
    ensures Inv(SetTxn(db.(rowLocks := db.rowLocks[CurrentKey(db, t) := t]), t, Advanced(db.txns[t])))
  {
    GotGrows(db.txns[t]);
    AdvancedIsOk(db, t);
    var key, txn := CurrentKey(db, t), Advanced(db.txns[t]);
    var db' := SetTxn(db.(rowLocks := db.rowLocks[key := t]), t, txn);
    AdvancingKeepsTheRest(db, t, db');
    hide Got, Advanced, LocksMatch, TxnsOk, TxnOk, SeedersRight;
    OneMoreLock(db, t, key, db');
  }

  lemma StagingKeepsInv(db: Db, t: nat)
    requires Inv(db) && InLockLoop(db, t) && CurrentKey(db, t) !in db.rows && CurrentKey(db, t) !in db.staged
    ensures Inv(SetTxn(db.(staged := db.staged[CurrentKey(db, t) := t]), t, Advanced(db.txns[t])))
  {
    GotGrows(db.txns[t]);
    AdvancedIsOk(db, t);
    var key, txn := CurrentKey(db, t), Advanced(db.txns[t]);
    var db' := SetTxn(db.(staged := db.staged[key := t]), t, txn);
    AdvancingKeepsTheRest(db, t, db');
    hide Got, Advanced, LocksMatch, TxnsOk, TxnOk, SeedersRight;
    OneMoreLock(db, t, key, db');
  }

  lemma AdvancedIsOk(db: Db, t: nat)
    requires TxnsOk(db) && InLockLoop(db, t)
    ensures var txn := Advanced(db.txns[t]);
      TxnOk(txn) && (txn.phase.Body? || txn.phase.SelectRow?) && txn.keys == db.txns[t].keys
  {
  }

  lemma StatementKeepsInv(db: Db, t: nat)
    requires Inv(db) && Enabled(db, Statement(t))
    ensures Inv(Apply(db, Statement(t)))
  {
    hide Inv, TxnsOk, LocksMatch, SeedersRight, Got, Advanced;
    var txn, k := db.txns[t], CurrentKey(db, t);
    if txn.phase.InsertRow? && k in db.rows {
      RephaseKeepsInv(db, t, SelectExisting);
    } else if txn.phase.InsertRow? {
      StagingKeepsInv(db, t);
    } else if txn.phase.SelectRow? && k !in db.rows {
      RephaseKeepsInv(db, t, InsertRow);
    } else {
      assert k in db.rows by { ExistingRowIsThere(db, t); }
      LockingKeepsInv(db, t);
    }
  }

  lemma ExistingRowIsThere(db: Db, t: nat)
    requires Inv(db) && InLockLoop(db, t) && !db.txns[t].phase.InsertRow?
    requires db.txns[t].phase.SelectRow? ==> CurrentKey(db, t) in db.rows
    ensures CurrentKey(db, t) in db.rows
  {
  }

  lemma CloseKeepsInv(db: Db, t: nat, commit: bool)
    requires Inv(db) && Active(db, t)
    ensures Inv(Close(db, t, commit)) && !Seeding(Close(db, t, commit), t)
  {
    var db' := Close(db, t, commit);
    assert RowsMatch(db');
    forall u, k | Active(db', u) && k in Got(db'.txns[u]) ensures Holds(db', u, k) {
      assert Holds(db, u, k);
    }
  }

  /** A seeder that has counted still holds the empty scope, so no other is between its count and its commit. */
  lemma SeedersAreExclusive(db: Db, t: nat, u: nat)
    requires Inv(db) && Seeding(db, t) && Seeding(db, u)
    ensures t == u
  {
    assert TxnOk(db.txns[t]) && TxnOk(db.txns[u]);
    assert "" == db.txns[t].keys[0] && "" == db.txns[u].keys[0];
    LocksAreExclusive(db, t, u, "");
  }

  lemma EditingKeepsInv(db: Db, closed: Db, accounts: Accounts)
    requires Inv(closed) && Sane(accounts)
    requires accounts.seedings == 0 || accounts.seedings == closed.accounts.seedings || forall u :: !Seeding(closed, u)
    requires db == closed.(accounts := accounts)
    ensures Inv(db)
  {
    forall u | u in db.txns && accounts.seedings != 0 ensures !(db.txns[u].phase.Counted? || db.txns[u].phase.Seeded?) {
      assert !Seeding(closed, u) || closed.accounts.seedings == 0;
    }
  }

  lemma NobodyElseSeeds(db: Db, t: nat)
    requires Inv(db) && Seeding(db, t)
    ensures forall u :: !Seeding(Close(db, t, true), u)
  {
    forall u ensures !Seeding(Close(db, t, true), u) {
      if Seeding(Close(db, t, true), u) && u != t {
        assert Seeding(db, u);
        SeedersAreExclusive(db, t, u);
      }
    }
  }

  lemma CommitKeepsInv(db: Db, op: Op)
    requires Inv(db) && op.Commit? && Enabled(db, op)
    ensures Inv(Apply(db, op))
  {
    CloseKeepsInv(db, op.t, true);
    var closed := Close(db, op.t, true);
    if db.txns[op.t].seeder { NobodyElseSeeds(db, op.t); }
    assert Sane(Apply(db, op).accounts) by { assert db.txns[op.t].seeder ==> Seeding(db, op.t); }
    assert closed.accounts == db.accounts;
    hide Inv, Close, Seeding;
    EditingKeepsInv(Apply(db, op), closed, Apply(db, op).accounts);
  }

  lemma StepKeepsInv(db: Db, op: Op)
    requires Inv(db)
    ensures Inv(Next(db, op))
  {
    if Enabled(db, op) {
      match op {
        case Start(_, _, _) => StartKeepsInv(db, op);
        case Statement(t) => StatementKeepsInv(db, t);
        case Count(t) =>
          if db.accounts.seeded + db.accounts.others > 0 {
            CloseKeepsInv(db, t, false);
          } else {
            RephaseKeepsInv(db, t, Counted);
          }
        case InsertSeed(t) => RephaseKeepsInv(db, t, Seeded);
        case Commit(_, _, _, _) => CommitKeepsInv(db, op);
        case Rollback(t) => CloseKeepsInv(db, t, false);
      }
    }
  }

  lemma {:induction false} RunKeepsInv(db: Db, ops: seq<Op>)
    requires Inv(db)
    ensures Inv(Run(db, ops))
    decreases |ops|
  {
    if ops != [] {
      StepKeepsInv(db, ops[0]);
      RunKeepsInv(Next(db, ops[0]), ops[1..]);
    }
  }

  // ---- What callers rely on -------------------------------------------------------------------

  /** What starting with these owners asks for: their scopes, NULL as the empty one, which is also the default. */
  ghost predicate Requests(owners: seq<Option<string>>, seeder: bool, k: string) {
    if seeder then k == ""
    else (owners == [] && k == "") || exists i :: 0 <= i < |owners| && owners[i].GetOr("") == k
  }

  lemma StartedKeysAreRequests(db: Db, t: nat, owners: seq<Option<string>>, seeder: bool)
    requires t !in db.txns
    ensures InLockLoop(Next(db, Start(t, owners, seeder)), t)
    ensures var txn := Next(db, Start(t, owners, seeder)).txns[t];
      txn.seeder == seeder && forall k :: k in txn.keys <==> Requests(owners, seeder, k)
  {
    OwnerKeysAreCanonical(owners);
    assert OwnerKeys([Some("")]) == [""] by { assert [Some("")][1..] == []; }
  }

  lemma KeysStayInAStep(db: Db, op: Op, t: nat)
    requires t in db.txns
    ensures t in Next(db, op).txns
    ensures Next(db, op).txns[t].keys == db.txns[t].keys && Next(db, op).txns[t].seeder == db.txns[t].seeder
  {
    hide Blocked, Released, OwnerKeys;
  }

  lemma {:induction false} KeysStay(db: Db, ops: seq<Op>, t: nat)
    requires t in db.txns
    ensures t in Run(db, ops).txns
    ensures Run(db, ops).txns[t].keys == db.txns[t].keys && Run(db, ops).txns[t].seeder == db.txns[t].seeder
    decreases |ops|
  {
    if ops != [] {
      KeysStayInAStep(db, ops[0], t);
      hide Next;
      KeysStay(Next(db, ops[0]), ops[1..], t);
    }
  }

  /**
   * A transaction started with some owners, in any reachable state, once past the lock loop holds all of their
   * scopes for as long as it is open, whatever runs; and it never holds any other.
   */
  lemma StartedTransactionHoldsItsScopes(
      before: seq<Op>, t: nat, owners: seq<Option<string>>, seeder: bool, after: seq<Op>, k: string)
    requires t !in Run(EMPTY, before).txns
    ensures var db := Run(Next(Run(EMPTY, before), Start(t, owners, seeder)), after);
      && t in db.txns
      && (Active(db, t) && !Locking(db.txns[t].phase) && Requests(owners, seeder, k) ==> Holds(db, t, k))
      && (Holds(db, t, k) ==> Requests(owners, seeder, k))
  {
    var db0 := Run(EMPTY, before);
    var db1 := Next(db0, Start(t, owners, seeder));
    StartedKeysAreRequests(db0, t, owners, seeder);
    KeysStay(db1, after, t);
    RunKeepsInv(EMPTY, before);
    StepKeepsInv(db0, Start(t, owners, seeder));
    RunKeepsInv(db1, after);
    HoldersHaveTheirKeys(Run(db1, after), t, k);
    hide *;
  }

  lemma HoldersHaveTheirKeys(db: Db, t: nat, k: string)
    requires Inv(db) && t in db.txns
    ensures Active(db, t) && !Locking(db.txns[t].phase) && k in db.txns[t].keys ==> Holds(db, t, k)
    ensures Holds(db, t, k) ==> k in db.txns[t].keys
  {
    var txn := db.txns[t];
    assert TxnOk(txn);
    if Active(db, t) && !Locking(txn.phase) && k in txn.keys {
      var i :| 0 <= i < |txn.keys| && txn.keys[i] == k;
      assert k in Got(txn);
    }
  }

  /** Step i of the run starts a transaction for an owner of scope k. */
  ghost predicate StartsFor(ops: seq<Op>, i: nat, k: string)
    requires i < |ops|
  {
    && ops[i].Start? && ops[i].t !in Run(EMPTY, ops[..i]).txns
    && Requests(ops[i].owners, ops[i].seeder, k)
  }

  lemma {:induction false} RunSum(db: Db, a: seq<Op>, b: seq<Op>)
    ensures Run(db, a + b) == Run(Run(db, a), b)
    decreases |a|
  {
    hide Next;
    if a == [] {
      assert a + b == b;
    } else {
      assert (a + b)[1..] == a[1..] + b;
      RunSum(Next(db, a[0]), a[1..], b);
    }
  }

  lemma StartedHolds(ops: seq<Op>, i: nat, k: string)
    requires i < |ops| && StartsFor(ops, i, k)
    ensures var db, t := Run(EMPTY, ops), ops[i].t;
      Active(db, t) && !Locking(db.txns[t].phase) ==> Holds(db, t, k)
  {
    var op := ops[i];
    StartedTransactionHoldsItsScopes(ops[..i], op.t, op.owners, op.seeder, ops[i + 1..], k);
    RunSum(EMPTY, ops[..i], [op] + ops[i + 1..]);
    assert ops == ops[..i] + ([op] + ops[i + 1..]);
    assert ([op] + ops[i + 1..])[1..] == ops[i + 1..];
    assert Run(Run(EMPTY, ops[..i]), [op] + ops[i + 1..]) == Run(Next(Run(EMPTY, ops[..i]), op), ops[i + 1..]);
    hide *;
  }

  /**
   * In every run, of the transactions started for the owners of one scope at most one is open and past its lock
   * loop.
   */
  lemma ScopesAreExclusive(ops: seq<Op>, i: nat, j: nat, k: string)
    requires i < |ops| && StartsFor(ops, i, k) && j < |ops| && StartsFor(ops, j, k)
    requires var db, t, u := Run(EMPTY, ops), ops[i].t, ops[j].t;
      && Active(db, t) && !Locking(db.txns[t].phase)
      && Active(db, u) && !Locking(db.txns[u].phase)
    ensures ops[i].t == ops[j].t
  {
    RunKeepsInv(EMPTY, ops);
    StartedHolds(ops, i, k);
    StartedHolds(ops, j, k);
    HoldersAreOne(Run(EMPTY, ops), ops[i].t, ops[j].t, k);
  }

  lemma HoldersAreOne(db: Db, t: nat, u: nat, k: string)
    requires Inv(db) && Holds(db, t, k) && Holds(db, u, k)
    ensures t == u
  {
  }

  function HolderOf(db: Db, t: nat): nat
    requires InLockLoop(db, t) && Blocked(db, t)
  {
    if db.txns[t].phase.InsertRow? then db.staged[CurrentKey(db, t)] else db.rowLocks[CurrentKey(db, t)]
  }

  /** A waiting transaction waits for an open one, and for a key above every key it holds itself. */
  lemma WaitersWaitUpwards(db: Db, t: nat)
    requires Inv(db) && InLockLoop(db, t) && Blocked(db, t)
    ensures Active(db, HolderOf(db, t)) && Holds(db, HolderOf(db, t), CurrentKey(db, t)) && HolderOf(db, t) != t
    ensures forall k :: Holds(db, t, k) ==> Less(k, CurrentKey(db, t))
  {
    var txn := db.txns[t];
    forall k | Holds(db, t, k) ensures Less(k, CurrentKey(db, t)) {
      assert k in Got(txn);
    }
    LessIsIrreflexive(CurrentKey(db, t));
  }

  predicate CanStep(db: Db, t: nat) {
    Active(db, t) && (InLockLoop(db, t) ==> !Blocked(db, t))
  }

  /**
   * No deadlock: as long as some transaction is open, one of them can execute its next statement. The witness
   * is whoever holds the greatest key anybody waits for.
   */
  lemma SomeoneCanStep(ops: seq<Op>, t: nat)
    requires Active(Run(EMPTY, ops), t)
    ensures exists u :: CanStep(Run(EMPTY, ops), u)
  {
    var db := Run(EMPTY, ops);
    RunKeepsInv(EMPTY, ops);
    var awaited := set u | u in db.txns && InLockLoop(db, u) && Blocked(db, u) :: CurrentKey(db, u);
    assert InLockLoop(db, t) && Blocked(db, t) ==> CurrentKey(db, t) in awaited;
    if awaited == {} {
      assert CanStep(db, t);
    } else {
      var top := GreatestExists(awaited);
      var u :| u in db.txns && InLockLoop(db, u) && Blocked(db, u) && CurrentKey(db, u) == top;
      WaitersWaitUpwards(db, u);
      var h := HolderOf(db, u);
      if InLockLoop(db, h) && Blocked(db, h) {
        WaitersWaitUpwards(db, h);
        var k := CurrentKey(db, h);
        assert k in awaited && Less(top, k);
        LessIsAsymmetric(top, k);
        assert false;
      }
      assert CanStep(db, h);
    }
  }

  /** Work left in the lock loop; every statement that is not blocked lowers it, and only the body follows the loop. */
  function LockWork(txn: Txn): int {
    3 * (|txn.keys| - txn.next) + (match txn.phase case SelectRow => 2 case InsertRow => 1 case _ => 0)
  }

  lemma StatementsMakeProgress(db: Db, t: nat)
    requires Enabled(db, Statement(t))
    ensures 0 <= LockWork(Next(db, Statement(t)).txns[t]) < LockWork(db.txns[t])
    ensures InLockLoop(Next(db, Statement(t)), t) || Next(db, Statement(t)).txns[t].phase.Body?
  {
  }

  /** A mutex row that a transaction has inserted is there for good once it commits. */
  lemma {:induction false} CommittedMutexRowsStay(db: Db, ops: seq<Op>, k: string)
    requires k in db.rows
    ensures k in Run(db, ops).rows
    decreases |ops|
  {
    if ops != [] {
      RowsStayInAStep(db, ops[0], k);
      hide Next;
      CommittedMutexRowsStay(Next(db, ops[0]), ops[1..], k);
    }
  }

  lemma RowsStayInAStep(db: Db, op: Op, k: string)
    requires k in db.rows
    ensures k in Next(db, op).rows
  {
    hide Blocked, Released, OwnerKeys;
  }

  /** How a transaction ends: its locks are gone, and its mutex rows stay exactly if it commits. */
  lemma ClosingReleasesAndPublishes(db: Db, op: Op, k: string)
    requires Inv(db) && Enabled(db, op) && (op.Commit? || op.Rollback?) && Holds(db, op.t, k)
    ensures var e := Next(db, op);
      && !Active(e, op.t) && !Holds(e, op.t, k)
      && (k in e.rows <==> op.Commit? || k in db.rows)
  {
    hide Got;
  }

  /**
   * However many workers start together, and whatever else is created and deleted: at most one seeded account is
   * there at any time, and there was at most one seeding since the table last was empty.
   */
  lemma SeedsAtMostOneAccount(ops: seq<Op>)
    ensures var accounts := Run(EMPTY, ops).accounts; accounts.seeded <= 1 && accounts.seedings <= 1
  {
    RunKeepsInv(EMPTY, ops);
  }

  /** Commits count every account: what is there afterwards was there before or created, and is not deleted. */
  lemma CommitsCountEveryAccount(db: Db, op: Op)
    requires Inv(db) && Enabled(db, op) && op.Commit? && !db.txns[op.t].seeder
    ensures var a, e := db.accounts, Next(db, op).accounts;
      && e.seeded + op.goneSeeded == a.seeded && e.others + op.goneOthers == a.others + op.created
      && (e.seedings == a.seedings || (e.seedings == 0 && e.seeded + e.others == 0))
  {
    hide Inv;
  }

  /** The steps do not belong to the transaction. */
  ghost predicate OthersOnly(ops: seq<Op>, t: nat) {
    forall i :: 0 <= i < |ops| ==> ops[i].t != t
  }

  lemma OthersLeaveATxn(db: Db, op: Op, t: nat)
    requires t in db.txns && op.t != t
    ensures t in Next(db, op).txns && Next(db, op).txns[t] == db.txns[t]
  {
    hide Blocked, Released, OwnerKeys;
  }

  lemma SeedersFindNothingSeeded(db: Db, t: nat)
    requires Inv(db) && Seeding(db, t)
    ensures db.accounts.seeded == 0
  {
    assert Sane(db.accounts);
  }

  lemma OthersStep(db: Db, op: Op, t: nat)
    requires Inv(db) && t in db.txns && op.t != t
    ensures var e := Next(db, op);
      && t in e.txns && e.txns[t] == db.txns[t]
      && (Seeding(db, t) ==> e.accounts.seeded == 0)
  {
    hide Inv, Next;
    StepKeepsInv(db, op);
    OthersLeaveATxn(db, op, t);
    if Seeding(db, t) { SeedersFindNothingSeeded(Next(db, op), t); }
  }

  lemma {:induction false} OthersRun(db: Db, ops: seq<Op>, t: nat)
    requires Inv(db) && t in db.txns && OthersOnly(ops, t) && (Seeding(db, t) ==> db.accounts.seeded == 0)
    ensures var e := Run(db, ops);
      && Inv(e) && t in e.txns && e.txns[t] == db.txns[t]
      && (Seeding(db, t) ==> e.accounts.seeded == 0)
    decreases |ops|
  {
    if ops != [] {
      assert ops[0].t != t;
      StepKeepsInv(db, ops[0]);
      OthersStep(db, ops[0], t);
      hide Inv, Next;
      OthersRun(Next(db, ops[0]), ops[1..], t);
    }
  }

  lemma CountSteps(db: Db, t: nat)
    requires t in db.txns && db.txns[t].seeder && db.txns[t].phase.Body?
    ensures var a := Next(db, Count(t));
      if db.accounts.seeded + db.accounts.others > 0 then !Active(a, t) && a.accounts == db.accounts
      else t in a.txns && a.txns[t] == db.txns[t].(phase := Counted) && a.accounts == db.accounts
  {
  }

  lemma SeedSteps(db: Db, t: nat)
    requires t in db.txns && db.txns[t].phase.Counted?
    ensures var b := Next(db, InsertSeed(t));
      t in b.txns && b.txns[t] == db.txns[t].(phase := Seeded) && b.accounts == db.accounts
  {
  }

  lemma SeedCommits(db: Db, t: nat)
    requires t in db.txns && db.txns[t].seeder && db.txns[t].phase.Seeded?
    ensures var e := Next(db, Commit(t, 0, 0, 0));
      !Active(e, t) && e.accounts.seeded == db.accounts.seeded + 1 && e.accounts.others == db.accounts.others
  {
  }

  /**
   * A seeder that has its lock seeds exactly if the table is empty when it counts; if so its commit leaves just
   * this one seeded account, whatever others do in between, and else it ends at the count without a trace.
   */
  lemma SeederSeedsExactlyIfEmpty(db: Db, t: nat, second: seq<Op>, third: seq<Op>)
    requires Inv(db) && t in db.txns && db.txns[t].seeder && db.txns[t].phase.Body?
    requires OthersOnly(second, t) && OthersOnly(third, t)
    ensures var a := Next(db, Count(t));
      if db.accounts.seeded + db.accounts.others > 0 then !Active(a, t) && a.accounts == db.accounts
      else
        var b := Next(Run(a, second), InsertSeed(t));
        var e := Next(Run(b, third), Commit(t, 0, 0, 0));
        && Run(b, third).accounts.seeded == 0 && e.accounts.seeded == 1 && !Active(e, t)
        && e.accounts.others == Run(b, third).accounts.others
  {
    hide Inv, Run, Next;
    StepKeepsInv(db, Count(t));
    CountSteps(db, t);
    var a := Next(db, Count(t));
    if db.accounts.seeded + db.accounts.others == 0 {
      OthersRun(a, second, t);
      var m := Run(a, second);
      StepKeepsInv(m, InsertSeed(t));
      SeedSteps(m, t);
      OthersRun(Next(m, InsertSeed(t)), third, t);
      SeedCommits(Run(Next(m, InsertSeed(t)), third), t);
    }
  }
}
