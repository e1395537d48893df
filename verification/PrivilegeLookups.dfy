/**
 * The same reader with its first read, the lookup of the record under a name, while accounts are created, deleted
 * and renamed as well. A deleted record stays with whoever has looked it up.
 */
module PrivilegeLookups {
  import opened Accounts
  import opened PrivilegeReads

  /** The user table as names of record objects. */
  datatype World = World(names: map<string, nat>, records: map<nat, Record>)

  datatype Event =
    | OneWrite(id: nat, w: Write)
    | Creation(name: string, id: nat, user: User)
    | Deletion(name: string)
    | Renaming(oldName: string, newName: string)

  ghost predicate Registered(s: World, id: nat) {
    exists name :: name in s.names && s.names[name] == id
  }

  /** Accounts come and go only while nobody is in the middle of writing to their record. */
  ghost predicate Happens(s: World, e: Event) {
    match e
    case OneWrite(id, w) => Registered(s, id) && id in s.records && Enabled(s.records[id], w)
    case Creation(name, id, _) => name !in s.names && id !in s.records
    case Deletion(name) => name in s.names && s.names[name] in s.records && s.records[s.names[name]].writer.Idle?
    case Renaming(oldName, newName) =>
      && oldName in s.names && newName !in s.names
      && s.names[oldName] in s.records && s.records[s.names[oldName]].writer.Idle?
  }

  ghost function After(s: World, e: Event): World
    requires Happens(s, e)
  {
    match e
    case OneWrite(id, w) => s.(records := s.records[id := Apply(s.records[id], w)])
    case Creation(name, id, user) => World(s.names[name := id], s.records[id := Record(user, Idle)])
    case Deletion(name) => s.(names := s.names - {name})
    case Renaming(oldName, newName) => s.(names := (s.names - {oldName})[newName := s.names[oldName]])
  }

  ghost predicate Moves(a: World, b: World) {
    a == b || exists e: Event :: Happens(a, e) && b == After(a, e)
  }

  ghost predicate WellFormed(s: World) {
    && (forall name :: name in s.names ==> s.names[name] in s.records)
    && (forall a, b :: a in s.names && b in s.names && a != b ==> s.names[a] != s.names[b])
    && (forall id :: id in s.records ==> Consistent(s.records[id]))
  }

  ghost predicate IsWorldHistory(h: seq<World>) {
    && (h != [] ==> WellFormed(h[0]))
    && forall i :: 0 <= i < |h| - 1 ==> Moves(h[i], h[i + 1])
  }

  lemma EventKeepsWellFormed(s: World, e: Event)
    requires WellFormed(s) && Happens(s, e)
    ensures WellFormed(After(s, e)) && s.records.Keys <= After(s, e).records.Keys
  {
    if e.OneWrite? { OneWriteDecides(s.records[e.id], e.w); }
    if e.Creation? { assert Consistent(Record(e.user, Idle)); }
    hide Apply, Enabled, Consistent, Effective;
  }

  lemma MovesKeepWellFormed(a: World, b: World)
    requires WellFormed(a) && Moves(a, b)
    ensures WellFormed(b) && a.records.Keys <= b.records.Keys
  {
    hide WellFormed, Happens, After;
    if a != b {
      var e :| Happens(a, e) && b == After(a, e);
      EventKeepsWellFormed(a, e);
    }
  }

  lemma {:induction false} StaysWellFormed(h: seq<World>, i: nat, j: nat)
    requires IsWorldHistory(h) && i <= j < |h|
    ensures WellFormed(h[j]) && h[i].records.Keys <= h[j].records.Keys
    decreases j
  {
    if j > 0 {
      StaysWellFormed(h, if i < j then i else j - 1, j - 1);
      assert Moves(h[j - 1], h[j - 1 + 1]);
      MovesKeepWellFormed(h[j - 1], h[j]);
    }
  }

  /** In one move a record pauses or takes one write, and takes none once it has no name. */
  lemma RecordMoves(a: World, b: World, id: nat)
    requires WellFormed(a) && id in a.records && Moves(a, b)
    ensures id in b.records && Step(a.records[id], b.records[id])
    ensures !Registered(a, id) ==> b.records[id] == a.records[id] && !Registered(b, id)
    ensures Registered(a, id) && !Registered(b, id) ==> b.records[id] == a.records[id]
  {
    if a != b {
      var e :| Happens(a, e) && b == After(a, e);
      hide Apply;
      match e
      case OneWrite(_, _) => assert b.names == a.names;
      case Creation(name, _, _) => NamesGrow(a, b, id, name);
      case Deletion(_) => assert Registered(b, id) ==> Registered(a, id);
      case Renaming(oldName, newName) => NamesMove(a, b, id, oldName, newName);
    }
  }

  lemma NamesGrow(a: World, b: World, id: nat, name: string)
    requires name !in a.names && name in b.names && b.names == a.names[name := b.names[name]] && b.names[name] != id
    ensures Registered(a, id) <==> Registered(b, id)
  {
    if n :| n in a.names && a.names[n] == id { assert n in b.names && b.names[n] == id; }
  }

  lemma NamesMove(a: World, b: World, id: nat, oldName: string, newName: string)
    requires oldName in a.names && newName !in a.names
    requires b.names == (a.names - {oldName})[newName := a.names[oldName]]
    ensures Registered(a, id) <==> Registered(b, id)
  {
    if n :| n in a.names && a.names[n] == id {
      var m := if n == oldName then newName else n;
      assert m in b.names && b.names[m] == id;
    }
    if n :| n in b.names && b.names[n] == id {
      var m := if n == newName then oldName else n;
      assert m in a.names && a.names[m] == id;
    }
  }

  /** The history of one record from an instant on. */
  ghost function RecordHistory(h: seq<World>, id: nat, from: nat): (r: seq<Record>)
    requires from <= |h| && forall k :: from <= k < |h| ==> id in h[k].records
    ensures |r| == |h| - from && forall k :: from <= k < |h| ==> r[k - from] == h[k].records[id]
  {
    seq(|h| - from, k requires 0 <= k < |h| - from => h[from + k].records[id])
  }

  lemma RecordHistoryIsHistory(h: seq<World>, id: nat, from: nat)
    requires IsWorldHistory(h) && from < |h| && id in h[from].records
    ensures forall k :: from <= k < |h| ==> id in h[k].records
    ensures IsHistory(RecordHistory(h, id, from))
  {
    forall k | from <= k < |h| ensures id in h[k].records && WellFormed(h[k]) { StaysWellFormed(h, from, k); }
    var r := RecordHistory(h, id, from);
    forall i | 0 <= i < |r| - 1 ensures Step(r[i], r[i + 1]) {
      assert Moves(h[from + i], h[from + i + 1]);
      RecordMoves(h[from + i], h[from + i + 1], id);
      assert r[i] == h[from + i].records[id] && r[i + 1] == h[from + i + 1].records[id];
    }
    assert r[0] == h[from].records[id];
  }

  lemma OneMoveOfARecord(h: seq<World>, id: nat, k: nat)
    requires IsWorldHistory(h) && 0 < k < |h| && id in h[k - 1].records
    ensures id in h[k].records
    ensures !Registered(h[k], id) ==> h[k].records[id] == h[k - 1].records[id]
  {
    StaysWellFormed(h, 0, k - 1);
    assert Moves(h[k - 1], h[k - 1 + 1]);
    RecordMoves(h[k - 1], h[k], id);
  }

  /** Whatever a record holds later, it held while it still had a name. */
  lemma {:induction false} HeldWhileNamed(h: seq<World>, id: nat, from: nat, k: nat) returns (named: nat)
    requires IsWorldHistory(h) && from <= k < |h| && Registered(h[from], id) && id in h[from].records
    ensures from <= named <= k && id in h[k].records && id in h[named].records
    ensures Registered(h[named], id) && h[named].records[id] == h[k].records[id]
    decreases k
  {
    hide IsWorldHistory, Registered;
    if k == from {
      named := k;
    } else {
      named := HeldWhileNamed(h, id, from, k - 1);
      OneMoveOfARecord(h, id, k);
      if Registered(h[k], id) { named := k; }
    }
  }

  /** What a call returns that has the record, reads the flag at `i` and the stored map at `j`. */
  ghost function RecordResult(h: seq<World>, id: nat, i: nat, j: nat): Privileges
    requires i <= j < |h| && id in h[i].records && id in h[j].records
  {
    if h[i].records[id].user.isAdmin then ADMIN_PRIVILEGES else Merged(h[j].records[id].user.privileges)
  }

  /** The map was in force for the account at an instant of the call, when it still was an account. */
  ghost predicate WasInForce(h: seq<World>, id: nat, a: nat, j: nat, p: Privileges)
    requires a <= j < |h|
  {
    exists k: nat :: a <= k <= j && Registered(h[k], id) && id in h[k].records && Effective(h[k].records[id].user) == p
  }

  lemma ResultsAgree(h: seq<World>, id: nat, a: nat, i: nat, j: nat)
    requires a <= i <= j < |h| && forall k :: a <= k < |h| ==> id in h[k].records
    ensures ReaderResult(RecordHistory(h, id, a), i - a, j - a) == RecordResult(h, id, i, j)
  {
    hide Merged;
    var r := RecordHistory(h, id, a);
    assert r[i - a] == h[i].records[id] && r[j - a] == h[j].records[id];
  }

  lemma RecordReadIsExplained(h: seq<World>, id: nat, a: nat, i: nat, j: nat) returns (k: nat)
    requires IsWorldHistory(h) && a <= i <= j < |h| && id in h[a].records
    ensures i <= k <= j && id in h[i].records && id in h[j].records && id in h[k].records
    ensures Effective(h[k].records[id].user) == RecordResult(h, id, i, j)
  {
    hide *;
    RecordHistoryIsHistory(h, id, a);
    ResultsAgree(h, id, a, i, j);
    var r := RecordHistory(h, id, a);
    LockFreeReadIsLinearizable(r, i - a, j - a);
    var m := WasEffectiveAt(r, i - a, j - a, ReaderResult(r, i - a, j - a));
    RecordAt(h, id, a, m);
    k := a + m;
  }

  lemma RecordAt(h: seq<World>, id: nat, from: nat, m: nat)
    requires from + m < |h| && forall k :: from <= k < |h| ==> id in h[k].records
    ensures RecordHistory(h, id, from)[m] == h[from + m].records[id]
  {
    assert h[from + m] == h[from + m];
    assert from + m - from == m;
  }

  lemma WasEffectiveAt(h: seq<Record>, i: nat, j: nat, p: Privileges) returns (k: nat)
    requires i <= j < |h| && WasEffective(h, i, j, p)
    ensures i <= k <= j && Effective(h[k].user) == p
  {
    hide Effective;
    k :| i <= k <= j && Effective(h[k].user) == p;
  }

  /**
   * Whatever creations, deletions, renames, promotions, demotions and edits run meanwhile: a call for a name that is
   * an account when it is looked up returns the map in force for that account at some instant of the call, before
   * the account was deleted if it was. For another name it reads an empty record, so returns the defaults.
   */
  lemma LookupIsLinearizable(h: seq<World>, name: string, a: nat, i: nat, j: nat)
    requires IsWorldHistory(h) && a <= i <= j < |h| && name in h[a].names
    ensures var id := h[a].names[name];
      && id in h[i].records && id in h[j].records
      && WasInForce(h, id, a, j, RecordResult(h, id, i, j))
  {
    var id := h[a].names[name];
    assert Registered(h[a], id);
    StaysWellFormed(h, 0, a);
    assert id in h[a].records;
    hide WellFormed, IsWorldHistory, Effective, RecordResult, Registered;
    var k := RecordReadIsExplained(h, id, a, i, j);
    var named := HeldWhileNamed(h, id, a, k);
    assert Effective(h[named].records[id].user) == RecordResult(h, id, i, j);
  }
}
