/** Two startup migrations that give ownerless rows an owner, and why they run in the order they do. */
module OwnerMigrations {
  import opened Prelude

  datatype Row = Row(owner: Option<string>, session: Option<string>)

  datatype Table = Table(hasOwner: bool, rows: map<string, Row>)

  type Schema = map<string, Table>

  const SWEPT_TABLES := [
    "sessions", "memories", "gallery_images", "user_tools", "comparisons", "documents", "signatures", "notes",
    "calendars", "calendar_events", "integrations", "scheduled_tasks", "task_runs", "crew_members",
    "gallery_albums", "gallery_people", "user_tool_data", "api_tokens", "webhooks"]

  ghost predicate IsFirstMarked(users: seq<(string, bool)>, i: nat)
    requires i < |users|
  {
    users[i].1 && forall j :: 0 <= j < i ==> !users[j].1
  }

  function FirstMarked(users: seq<(string, bool)>): (admin: Option<string>)
    ensures admin.None? ==> forall i :: 0 <= i < |users| ==> !users[i].1
    ensures admin.Some? ==> exists i :: 0 <= i < |users| && IsFirstMarked(users, i) && users[i].0 == admin.value
  {
    if users == [] then None
    else if users[0].1 then assert IsFirstMarked(users, 0); Some(users[0].0)
    else
      var later := FirstMarked(users[1..]);
      assert later.Some? ==> exists i :: 0 < i < |users| && IsFirstMarked(users, i) && users[i].0 == later.value by {
        if later.Some? {
          var i :| 0 <= i < |users[1..]| && IsFirstMarked(users[1..], i) && users[1..][i].0 == later.value;
          assert IsFirstMarked(users, i + 1) by {
            forall j | 0 <= j < i + 1 ensures !users[j].1 { if j > 0 { assert !users[1..][j - 1].1; } }
          }
        }
      }
      later
  }

  /** The first user marked as administrator, else the first user at all. */
  function FindAdmin(users: seq<(string, bool)>): (admin: Option<string>)
    ensures admin.Some? <==> users != []
    ensures admin.Some? ==>
      || (exists i :: 0 <= i < |users| && IsFirstMarked(users, i) && users[i].0 == admin.value)
      || (admin.value == users[0].0 && forall i :: 0 <= i < |users| ==> !users[i].1)
  {
    if users == [] then None
    else if FirstMarked(users).Some? then FirstMarked(users)
    else Some(users[0].0)
  }

  predicate Owned(db: Schema, table: string) {
    table in db && db[table].hasOwner
  }

  /** The session whose owner the backfill copies, if the document has one. */
  predicate LinksToOwnedSession(db: Schema, doc: Row) {
    && Owned(db, "sessions") && doc.session.Some?
    && doc.session.value in db["sessions"].rows && db["sessions"].rows[doc.session.value].owner.Some?
  }

  function BackfilledRow(db: Schema, doc: Row): Row {
    if doc.owner.None? && LinksToOwnedSession(db, doc)
    then doc.(owner := db["sessions"].rows[doc.session.value].owner)
    else doc
  }

  function Backfilled(db: Schema): Schema {
    if !Owned(db, "documents") then db
    else
      var docs := db["documents"].rows;
      db["documents" := Table(true, map d | d in docs :: BackfilledRow(db, docs[d]))]
  }

  function SweptRow(row: Row, admin: string): Row {
    if row.owner.None? then row.(owner := Some(admin)) else row
  }

  function SweptTable(t: Table, admin: string): Table {
    if t.hasOwner then Table(true, map r | r in t.rows :: SweptRow(t.rows[r], admin)) else t
  }

  function Swept(db: Schema, tables: seq<string>, admin: string): Schema {
    map t | t in db :: if t in tables then SweptTable(db[t], admin) else db[t]
  }

  /** What startup does to the database once there is an account to fall back on. */
  function Startup(db: Schema, tables: seq<string>, admin: string): Schema {
    Swept(Backfilled(db), tables, admin)
  }

  function WrongOrder(db: Schema, tables: seq<string>, admin: string): Schema {
    Backfilled(Swept(db, tables, admin))
  }

  // ---- What the right order gives -------------------------------------------------------------

  ghost predicate NobodyOwnerless(db: Schema, tables: seq<string>) {
    forall t, r :: t in tables && Owned(db, t) && r in db[t].rows ==> db[t].rows[r].owner.Some?
  }

  /**
   * After startup no row of a swept table is without an owner, no owner that was set has changed, and nothing
   * else has changed either: unlisted tables but the documents, and tables without owners, stay as they are.
   */
  lemma StartupAssignsEveryOwner(db: Schema, tables: seq<string>, admin: string)
    ensures var db' := Startup(db, tables, admin);
      && NobodyOwnerless(db', tables)
      && (forall t :: t in db <==> t in db')
      && (forall t, r :: t in db ==> (r in db[t].rows <==> r in db'[t].rows))
      && (forall t, r :: t in db && r in db[t].rows ==>
            var was, now := db[t].rows[r], db'[t].rows[r];
            now.session == was.session && (was.owner.Some? ==> now.owner == was.owner))
      && (forall t :: t in db ==> db'[t].hasOwner == db[t].hasOwner)
      && (forall t :: t in db && (!db[t].hasOwner || (t !in tables && t != "documents")) ==> db'[t] == db[t])
  {
  }

  /** Every document that had no owner but belongs to a session ends up with the owner its session ends with. */
  lemma DocumentsFollowTheirSessions(db: Schema, tables: seq<string>, admin: string, d: string)
    requires "documents" in tables && "sessions" in tables && Owned(db, "documents") && Owned(db, "sessions")
    requires d in db["documents"].rows
    requires var doc := db["documents"].rows[d];
      doc.owner.None? && doc.session.Some? && doc.session.value in db["sessions"].rows
    ensures var db' := Startup(db, tables, admin);
      db'["documents"].rows[d].owner == db'["sessions"].rows[db["documents"].rows[d].session.value].owner
  {
  }

  /** Once done, startup finds nothing left to do, whoever the fallback account is by then. */
  lemma StartupIsIdempotent(db: Schema, tables: seq<string>, admin: string, later: string)
    requires "documents" in tables
    ensures Startup(Startup(db, tables, admin), tables, later) == Startup(db, tables, admin)
  {
    var done := Startup(db, tables, admin);
    StartupAssignsEveryOwner(db, tables, admin);
    if Owned(done, "documents") {
      var docs := done["documents"].rows;
      assert (map d | d in docs :: BackfilledRow(done, docs[d])) == docs;
    }
    assert Backfilled(done) == done;
    forall t | t in done && t in tables && done[t].hasOwner ensures SweptTable(done[t], later) == done[t] {
      var rows := done[t].rows;
      assert (map r | r in rows :: SweptRow(rows[r], later)) == rows;
    }
    assert Swept(done, tables, later) == done;
  }

  /** The documents whose true owner the wrong order loses. */
  ghost predicate Misattributed(db: Schema, admin: string, d: string) {
    && Owned(db, "documents") && d in db["documents"].rows
    && db["documents"].rows[d].owner.None? && LinksToOwnedSession(db, db["documents"].rows[d])
    && db["sessions"].rows[db["documents"].rows[d].session.value].owner != Some(admin)
  }

  /**
   * Sweeping first gives the same database exactly when no ownerless document belongs to a session of somebody
   * other than the fallback account; every document that does is given to the wrong owner.
   */
  lemma OrderMattersExactlyForOthersDocuments(db: Schema, tables: seq<string>, admin: string)
    requires "documents" in tables && "sessions" in tables
    ensures WrongOrder(db, tables, admin) == Startup(db, tables, admin) <==> forall d :: !Misattributed(db, admin, d)
    ensures forall d :: Misattributed(db, admin, d) ==>
      WrongOrder(db, tables, admin)["documents"].rows[d].owner == Some(admin)
  {
    var right, wrong := Startup(db, tables, admin), WrongOrder(db, tables, admin);
    assert right.Keys == wrong.Keys;
    if Owned(db, "documents") {
      var docs := db["documents"].rows;
      forall d | d in docs
        ensures wrong["documents"].rows[d] == SweptRow(docs[d], admin)
        ensures right["documents"].rows[d] == SweptRow(BackfilledRow(db, docs[d]), admin)
        ensures Misattributed(db, admin, d) <==> wrong["documents"].rows[d] != right["documents"].rows[d]
      {
      }
      if forall d :: !Misattributed(db, admin, d) {
        assert wrong["documents"].rows == right["documents"].rows;
        assert wrong == right;
      }
    } else {
      assert wrong == right;
    }
  }

  lemma SweptTablesHold()
    ensures "sessions" in SWEPT_TABLES && "documents" in SWEPT_TABLES
  {
    assert SWEPT_TABLES[0] == "sessions" && SWEPT_TABLES[5] == "documents";
  }

  /** The results above for the tables that the sweep really lists. */
  lemma StartupOnTheListedTables(db: Schema, admin: string, later: string)
    ensures var done := Startup(db, SWEPT_TABLES, admin);
      && NobodyOwnerless(done, SWEPT_TABLES) && Startup(done, SWEPT_TABLES, later) == done
      && (WrongOrder(db, SWEPT_TABLES, admin) == done <==> forall d :: !Misattributed(db, admin, d))
  {
    SweptTablesHold();
    hide SWEPT_TABLES, Startup, WrongOrder, Misattributed, NobodyOwnerless;
    StartupAssignsEveryOwner(db, SWEPT_TABLES, admin);
    StartupIsIdempotent(db, SWEPT_TABLES, admin, later);
    OrderMattersExactlyForOthersDocuments(db, SWEPT_TABLES, admin);
  }

  lemma OneDocumentSuffices(db: Schema, d: string, s: string, owner: string, admin: string)
    requires owner != admin && Owned(db, "sessions") && Owned(db, "documents")
    requires d in db["documents"].rows && db["documents"].rows[d] == Row(None, Some(s))
    requires s in db["sessions"].rows && db["sessions"].rows[s].owner == Some(owner)
    ensures WrongOrder(db, SWEPT_TABLES, admin) != Startup(db, SWEPT_TABLES, admin)
  {
    assert Misattributed(db, admin, d);
    hide *;
    StartupOnTheListedTables(db, admin, admin);
  }

  /** Such a database exists for any two accounts: a session of one, with an ownerless document, and the other. */
  lemma WrongOrderLosesAnOwner(d: string, s: string, owner: string, admin: string) returns (db: Schema)
    requires owner != admin
    ensures WrongOrder(db, SWEPT_TABLES, admin) != Startup(db, SWEPT_TABLES, admin)
  {
    hide *;
    var sessions := Table(true, map[s := Row(Some(owner), None)]);
    var documents := Table(true, map[d := Row(None, Some(s))]);
    db := map["documents" := documents];
    db := db["sessions" := sessions];
    assert db["documents"] == documents by { assert "documents"[0] != "sessions"[0]; }
    BothOwned(db);
    OneDocumentSuffices(db, d, s, owner, admin);
  }

  lemma BothOwned(db: Schema)
    requires "sessions" in db && "documents" in db && db["sessions"].hasOwner && db["documents"].hasOwner
    ensures Owned(db, "sessions") && Owned(db, "documents")
  {
  }

  // ---- The migrations as they are written -----------------------------------------------------

  class Database {
    var tables: Schema

    method BackfillDocumentOwners()
      modifies this
      ensures tables == Backfilled(old(tables))
    {
      if !Owned(tables, "documents") { return; }
      var docs := tables["documents"].rows;
      tables := tables["documents" := Table(true, map d | d in docs :: BackfilledRow(tables, docs[d]))];
    }

    /** One UPDATE per listed table that exists and has an owner column; none without an account. */
    method AssignLegacyOwner(names: seq<string>, users: seq<(string, bool)>)
      modifies this
      ensures tables == if users == [] then old(tables) else Swept(old(tables), names, FindAdmin(users).value)
    {
      var admin := FindAdmin(users);
      if admin.None? { return; }
      ghost var before := tables;
      for i := 0 to |names|
        invariant tables == Swept(before, names[..i], admin.value)
      {
        ghost var was := tables;
        if names[i] in tables && tables[names[i]].hasOwner {
          tables := tables[names[i] := SweptTable(tables[names[i]], admin.value)];
        }
        SweepOneMore(before, names, i, admin.value, was, tables);
      }
      assert names[..|names|] == names;
    }

    /** The two migrations in the order in which startup calls them. */
    method MigrateOwners(users: seq<(string, bool)>)
      modifies this
      ensures tables == if users == [] then Backfilled(old(tables))
        else Startup(old(tables), SWEPT_TABLES, FindAdmin(users).value)
    {
      hide SWEPT_TABLES, Swept, Backfilled, FindAdmin;
      BackfillDocumentOwners();
      AssignLegacyOwner(SWEPT_TABLES, users);
    }
  }

  lemma SweepOneMore(db: Schema, names: seq<string>, i: nat, admin: string, was: Schema, now: Schema)
    requires i < |names| && was == Swept(db, names[..i], admin)
    requires now == if Owned(was, names[i]) then was[names[i] := SweptTable(was[names[i]], admin)] else was
    ensures now == Swept(db, names[..i + 1], admin)
  {
    assert names[..i + 1] == names[..i] + [names[i]];
    if Owned(db, names[i]) {
      var rows := db[names[i]].rows;
      var once := SweptTable(db[names[i]], admin);
      assert SweptTable(once, admin).rows == once.rows;
    }
  }
}
