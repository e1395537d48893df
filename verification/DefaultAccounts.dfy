/** The startup migration that leaves one default email account in each owner scope. */
module DefaultAccounts {
  import opened Prelude
  import opened StringOrder

  datatype Account = Account(id: string, owner: Option<string>, isDefault: bool, createdAt: Option<int>)

  /** The table by primary key. */
  type Table = map<string, Account>

  ghost predicate Keyed(t: Table) {
    forall id :: id in t ==> t[id].id == id
  }

  function Scope(a: Account): string {
    a.owner.GetOr("")
  }

  /** ORDER BY scope, NULL timestamps last, timestamp, id. */
  predicate Earlier(a: Account, b: Account) {
    if Scope(a) != Scope(b) then Less(Scope(a), Scope(b))
    else if a.createdAt == b.createdAt then Less(a.id, b.id)
    else if a.createdAt.None? then false
    else b.createdAt.None? || a.createdAt.value < b.createdAt.value
  }

  lemma EarlierIsTransitive(a: Account, b: Account, c: Account)
    requires Earlier(a, b) && Earlier(b, c)
    ensures Earlier(a, c)
  {
    if Less(Scope(a), Scope(b)) && Less(Scope(b), Scope(c)) { LessIsTransitive(Scope(a), Scope(b), Scope(c)); }
    if Less(a.id, b.id) && Less(b.id, c.id) { LessIsTransitive(a.id, b.id, c.id); }
    LessIsIrreflexive(Scope(a));
    if Less(Scope(a), Scope(b)) { LessIsAsymmetric(Scope(a), Scope(b)); }
  }

  lemma EarlierIsTotal(a: Account, b: Account)
    requires a.id != b.id
    ensures Earlier(a, b) || Earlier(b, a)
    ensures !(Earlier(a, b) && Earlier(b, a))
  {
    LessIsTotal(Scope(a), Scope(b));
    LessIsTotal(a.id, b.id);
    if Less(Scope(a), Scope(b)) { LessIsAsymmetric(Scope(a), Scope(b)); }
    if Less(a.id, b.id) { LessIsAsymmetric(a.id, b.id); }
  }

  lemma EarliestExists(t: Table, ids: set<string>) returns (m: string)
    requires Keyed(t) && ids <= t.Keys && ids != {}
    ensures m in ids && forall j :: j in ids && j != m ==> Earlier(t[m], t[j])
  {
    var x :| x in ids;
    m := x;
    var rest := ids - {x};
    if rest != {} {
      var r := EarliestExists(t, rest);
      EarlierIsTotal(t[x], t[r]);
      if Earlier(t[r], t[x]) { m := r; }
      forall j | j in ids && j != m ensures Earlier(t[m], t[j]) {
        assert j == x || j in rest;
        if m == x && j != r { EarlierIsTransitive(t[x], t[r], t[j]); }
      }
    } else {
      assert ids == {x};
    }
  }

  // ---- What the migration is for --------------------------------------------------------------

  ghost predicate IsOldestDefault(t: Table, id: string) {
    && id in t && t[id].isDefault
    && forall j :: j in t && t[j].isDefault && Scope(t[j]) == Scope(t[id]) && j != id ==> Earlier(t[id], t[j])
  }

  ghost function Normalized(t: Table): Table {
    map id | id in t :: t[id].(isDefault := IsOldestDefault(t, id))
  }

  /** The defaults of one owner, NULL and the empty name being the same one. */
  ghost predicate Rivals(t: Table, i: string, j: string) {
    i in t && j in t && t[i].isDefault && t[j].isDefault && t[i].owner.GetOr("") == t[j].owner.GetOr("")
  }

  /** Created earlier, a missing time counting as latest; of the same time, the smaller id. */
  ghost predicate NoNewer(a: Account, b: Account) {
    && (b.createdAt.Some? ==> a.createdAt.Some? && a.createdAt.value <= b.createdAt.value)
    && (a.createdAt == b.createdAt ==> a.id == b.id || Less(a.id, b.id))
  }

  /** Each owner that had a default keeps exactly one, the one created first. */
  lemma EachScopeKeepsItsOldest(t: Table, id: string) returns (kept: string)
    requires Keyed(t) && id in t && t[id].isDefault
    ensures Rivals(t, id, kept) && forall j :: Rivals(t, id, j) ==> NoNewer(t[kept], t[j])
    ensures forall j :: Rivals(t, id, j) ==> (Normalized(t)[j].isDefault <==> j == kept)
  {
    var rivals := set j | j in t && t[j].isDefault && Scope(t[j]) == Scope(t[id]);
    assert id in rivals;
    kept := EarliestExists(t, rivals);
    forall j | j in rivals && j != kept ensures !IsOldestDefault(t, j) {
      EarlierIsTotal(t[kept], t[j]);
    }
    assert IsOldestDefault(t, kept);
    forall j | Rivals(t, id, j) ensures j in rivals {}
  }

  /** The unique index the migration installs next can be built: no scope has two defaults. */
  lemma UniqueIndexHolds(t: Table, i: string, j: string)
    requires Keyed(t) && i in t && j in t && t[i].owner.GetOr("") == t[j].owner.GetOr("")
    requires Normalized(t)[i].isDefault && Normalized(t)[j].isDefault
    ensures i == j
  {
    if i != j { EarlierIsTotal(t[i], t[j]); }
  }

  /** Running the migration again changes nothing, and the first run changed nothing but default flags. */
  lemma MigrationIsIdempotent(t: Table)
    requires Keyed(t)
    ensures Normalized(Normalized(t)) == Normalized(t)
    ensures forall id :: id in t <==> id in Normalized(t)
    ensures forall id :: id in t ==> Normalized(t)[id].(isDefault := t[id].isDefault) == t[id]
    ensures forall id :: id in t && !t[id].isDefault ==> Normalized(t)[id] == t[id]
  {
  }

  // ---- The migration as it is written ---------------------------------------------------------

  ghost predicate InOrder(rows: seq<Account>) {
    forall i, j :: 0 <= i < j < |rows| ==> Earlier(rows[i], rows[j])
  }

  ghost predicate AreTheDefaults(rows: seq<Account>, t: Table) {
    forall a :: a in rows <==> a.id in t && t[a.id] == a && a.isDefault
  }

  /** The SELECT: all default rows in order. */
  method SelectDefaults(t: Table) returns (rows: seq<Account>)
    requires Keyed(t)
    ensures InOrder(rows) && AreTheDefaults(rows, t)
  {
    rows := [];
    var defaults := set id | id in t && t[id].isDefault;
    var todo := defaults;
    while todo != {}
      invariant todo <= defaults && InOrder(rows)
      invariant forall i, j :: 0 <= i < |rows| && j in todo ==> Earlier(rows[i], t[j])
      invariant forall a :: a in rows <==> a.id in defaults - todo && t[a.id] == a
    {
      ghost var m := EarliestExists(t, todo);
      var id :| id in todo && forall j :: j in todo && j != id ==> Earlier(t[id], t[j]);
      rows := rows + [t[id]];
      todo := todo - {id};
    }
  }

  /** A row is the oldest default of its scope exactly when no row before it in the order shares its scope. */
  lemma FirstOfScopeIsOldest(t: Table, rows: seq<Account>, k: nat)
    requires Keyed(t) && InOrder(rows) && AreTheDefaults(rows, t) && k < |rows|
    ensures IsOldestDefault(t, rows[k].id) <==> forall m :: 0 <= m < k ==> Scope(rows[m]) != Scope(rows[k])
  {
    var a := rows[k];
    assert a in rows;
    if m :| 0 <= m < k && Scope(rows[m]) == Scope(a) {
      assert rows[m] in rows && Earlier(rows[m], a);
      if rows[m].id == a.id { LessIsIrreflexive(a.id); } else { EarlierIsTotal(rows[m], a); }
    } else {
      forall j | j in t && t[j].isDefault && Scope(t[j]) == Scope(a) && j != a.id ensures Earlier(a, t[j]) {
        assert t[j] in rows;
        var m :| 0 <= m < |rows| && rows[m] == t[j];
        assert m > k;
      }
    }
  }

  method FindDuplicates(rows: seq<Account>) returns (duplicates: set<string>)
    ensures forall id :: id in duplicates <==>
      exists k, m :: 0 <= m < k < |rows| && rows[k].id == id && Scope(rows[m]) == Scope(rows[k])
  {
    var seen: set<string> := {};
    duplicates := {};
    for i := 0 to |rows|
      invariant forall s :: s in seen <==> exists m :: 0 <= m < i && Scope(rows[m]) == s
      invariant forall id :: id in duplicates <==>
        exists k, m :: 0 <= m < k < i && rows[k].id == id && Scope(rows[m]) == Scope(rows[k])
    {
      var key := Scope(rows[i]);
      if key in seen {
        duplicates := duplicates + {rows[i].id};
      } else {
        seen := seen + {key};
      }
    }
  }

  class EmailAccounts {
    var table: Table

    /** One UPDATE per collected id. */
    method ClearDefaults(ids: set<string>)
      requires ids <= table.Keys
      modifies this
      ensures table == map id | id in old(table) ::
        if id in ids then old(table)[id].(isDefault := false) else old(table)[id]
    {
      ghost var t := table;
      var todo := ids;
      while todo != {}
        invariant todo <= ids <= table.Keys == t.Keys
        invariant forall id :: id in t ==>
          table[id] == if id in ids && id !in todo then t[id].(isDefault := false) else t[id]
      {
        var id :| id in todo;
        table := table[id := table[id].(isDefault := false)];
        todo := todo - {id};
      }
    }

    method EnforceOneDefaultPerScope()
      requires Keyed(table)
      modifies this
      ensures table == Normalized(old(table))
    {
      ghost var t := table;
      var rows := SelectDefaults(table);
      var duplicates := FindDuplicates(rows);
      DuplicatesAreTheOthers(t, rows, duplicates);
      ClearDefaults(duplicates);
      assert forall id :: id in t ==> (t[id].isDefault && id !in duplicates <==> IsOldestDefault(t, id));
    }
  }

  lemma DuplicatesAreTheOthers(t: Table, rows: seq<Account>, duplicates: set<string>)
    requires Keyed(t) && InOrder(rows) && AreTheDefaults(rows, t)
    requires forall id :: id in duplicates <==>
      exists k, m :: 0 <= m < k < |rows| && rows[k].id == id && Scope(rows[m]) == Scope(rows[k])
    ensures forall id :: id in duplicates <==> id in t && t[id].isDefault && !IsOldestDefault(t, id)
  {
    forall id ensures id in duplicates <==> id in t && t[id].isDefault && !IsOldestDefault(t, id) {
      if id in duplicates {
        var k, m :| 0 <= m < k < |rows| && rows[k].id == id && Scope(rows[m]) == Scope(rows[k]);
        assert rows[k] in rows;
        FirstOfScopeIsOldest(t, rows, k);
      }
      if id in t && t[id].isDefault && !IsOldestDefault(t, id) {
        assert t[id] in rows;
        var k :| 0 <= k < |rows| && rows[k] == t[id];
        FirstOfScopeIsOldest(t, rows, k);
      }
    }
  }
}
