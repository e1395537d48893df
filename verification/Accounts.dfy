/** Usernames as the auth layer stores them: stripped of surrounding white space and lower-cased. */
module Usernames {
  import opened Text

  const RESERVED_USERNAMES: set<string> := {"internal-tool", "api", "demo", "system", "__odysseus_local__"}

  /** `username.strip().lower()`. */
  function Normalize(s: string): string {
    Lower(Strip(s))
  }

  /** Normalising twice changes nothing more, so a stored key is found again by any spelling of it. */
  lemma NormalizeIsIdempotent(s: string)
    ensures Normalize(Normalize(s)) == Normalize(s)
  {
    var t := Strip(s);
    var n := Lower(t);
    assert n != "" ==> n[0] == LowerChar(t[0]) && n[|n| - 1] == LowerChar(t[|t| - 1]);
    assert Lower(n) == n;
  }

  /** Every spelling of a name, in any case and with blanks around it, is that name. */
  lemma SpellingsAreOneName(before: string, s: string, after: string, t: string)
    requires Blanks(before) && Blanks(after) && SameButForCase(Strip(s), Strip(t))
    ensures Normalize(before + s + after) == Normalize(t)
  {
    StripIgnoresBlanks(before, s, after);
    LowerIgnoresExactlyCase(Strip(s), Strip(t));
  }

  /** What every stored account name must look like. */
  ghost predicate WellNamed(name: string) {
    name != "" && Normalize(name) == name && name !in RESERVED_USERNAMES
  }
}

/** The critical sections of `AuthManager` that change the user table, as functions on that table. */
module Accounts {
  import opened Prelude
  import opened Usernames

  /** A JSON value as it occurs in a privilege map. */
  datatype Value = Flag(on: bool) | Limit(n: int) | Names(items: seq<string>) | OtherJson(text: string)

  /** The keys of a privilege map; a request may carry any other key as well. */
  datatype Key =
    | CanUseAgent | CanUseBrowser | CanUseBash | CanUseDocuments | CanUseResearch | CanGenerateImages
    | CanManageMemory | MaxMessagesPerDay | AllowedModels | AllowedModelsRestricted | BlockAllModels
    | UnknownKey(name: string)

  type Privileges = map<Key, Value>

  const DEFAULT_PRIVILEGES: Privileges := map[
    CanUseAgent := Flag(true),
    CanUseBrowser := Flag(true),
    CanUseBash := Flag(false),
    CanUseDocuments := Flag(true),
    CanUseResearch := Flag(true),
    CanGenerateImages := Flag(true),
    CanManageMemory := Flag(true),
    MaxMessagesPerDay := Limit(0),
    AllowedModels := Names([]),
    AllowedModelsRestricted := Flag(false),
    BlockAllModels := Flag(false)
  ]

  function Broadest(v: Value): Value {
    match v
    case Flag(_) => Flag(true)
    case Limit(_) => Limit(0)
    case _ => Names([])
  }

  const ADMIN_PRIVILEGES: Privileges :=
    (map k | k in DEFAULT_PRIVILEGES :: Broadest(DEFAULT_PRIVILEGES[k]))
    + map[AllowedModelsRestricted := Flag(false), BlockAllModels := Flag(false)]

  datatype User = User(
    passwordHash: string,
    isAdmin: bool,
    privileges: Option<Privileges>,
    stash: Option<Privileges>)  // "privileges_before_admin"

  type Users = map<string, User>

  /** What `get_privileges` reports for a record read in one instant. */
  function Effective(u: User): Privileges {
    if u.isAdmin then ADMIN_PRIVILEGES else DEFAULT_PRIVILEGES + u.privileges.GetOr(map[])
  }

  /** Python's `p or DEFAULT_PRIVILEGES`: a missing and an empty map both fall back. */
  function OrDefault(p: Option<Privileges>): Privileges {
    if p.Some? && p.value != map[] then p.value else DEFAULT_PRIVILEGES
  }

  function Admins(users: Users): set<string> {
    set u | u in users && users[u].isAdmin
  }

  predicate IsAdmin(users: Users, name: string) {
    name in users && users[name].isAdmin
  }

  function CreateUser(users: Users, rawName: string, hash: string, isAdmin: bool): (Users, bool) {
    var name := Normalize(rawName);
    if name == "" || name in RESERVED_USERNAMES || name in users then
      (users, false)
    else
      (users[name := User(hash, isAdmin, Some(if isAdmin then ADMIN_PRIVILEGES else DEFAULT_PRIVILEGES), None)], true)
  }

  /** Note that only the target's name is normalised here, not the requester's. */
  function DeleteUser(users: Users, rawName: string, requester: string, tokenStoreUp: bool): (Users, bool) {
    var name := Normalize(rawName);
    if name !in users || name == requester || !IsAdmin(users, requester) || !tokenStoreUp then
      (users, false)
    else
      (users - {name}, true)
  }

  function RenameUser(users: Users, rawOld: string, rawNew: string, rawRequester: string): (Users, bool) {
    var oldName, newName, requester := Normalize(rawOld), Normalize(rawNew), Normalize(rawRequester);
    if oldName == "" || newName == "" || newName in RESERVED_USERNAMES then
      (users, false)
    else if oldName !in users || newName in users || !IsAdmin(users, requester) then
      (users, false)
    else
      ((users - {oldName})[newName := users[oldName]], true)
  }

  datatype SetAdminResult = Ok | UserNotFound | NotAuthorized | LastAdmin

  function Promoted(u: User): User {
    u.(isAdmin := true, stash := Some(OrDefault(u.privileges)), privileges := Some(ADMIN_PRIVILEGES))
  }

  function Demoted(u: User): User {
    u.(isAdmin := false, privileges := Some(OrDefault(u.stash)), stash := None)
  }

  function SetAdmin(users: Users, rawName: string, flag: bool, rawRequester: string): (Users, SetAdminResult) {
    var name, requester := Normalize(rawName), Normalize(rawRequester);
    if name !in users then (users, UserNotFound)
    else if !IsAdmin(users, requester) then (users, NotAuthorized)
    else if users[name].isAdmin == flag then (users, Ok)
    else if !flag && |Admins(users)| <= 1 then (users, LastAdmin)
    else (users[name := if flag then Promoted(users[name]) else Demoted(users[name])], Ok)
  }

  /** The map a privilege edit stores: the current effective map with the known keys overwritten. */
  function Edited(current: Privileges, changes: Privileges, known: set<Key>): Privileges {
    current + map k | k in changes && k in known :: changes[k]
  }

  function SetPrivileges(users: Users, rawName: string, changes: Privileges): (Users, bool) {
    var name := Normalize(rawName);
    if name !in users || users[name].isAdmin then (users, false)
    else
      var edited := Edited(Effective(users[name]), changes, DEFAULT_PRIVILEGES.Keys);
      (users[name := users[name].(privileges := Some(edited))], true)
  }

  // ---- What each critical section keeps -------------------------------------------------------

  ghost predicate HasAdmin(users: Users) {
    exists u :: IsAdmin(users, u)
  }

  ghost predicate AllWellNamed(users: Users) {
    forall u :: u in users ==> WellNamed(u)
  }

  /** A stashed pre-admin map exists only while the user is an administrator. */
  ghost predicate StashesAreAdmins(users: Users) {
    forall u :: u in users && users[u].stash.Some? ==> users[u].isAdmin
  }

  ghost predicate SoundUsers(users: Users) {
    HasAdmin(users) && AllWellNamed(users) && StashesAreAdmins(users)
  }

  /** An account that is not alone in a set of at least two leaves somebody behind. */
  lemma AnotherMember(s: set<string>, x: string) returns (y: string)
    requires |s| > 1
    ensures y in s && y != x
  {
    assert s <= (s - {x}) + {x};
    assert |s - {x}| >= |s| - 1;
    y :| y in s - {x};
  }

  lemma CreateKeepsSound(users: Users, rawName: string, hash: string, isAdmin: bool)
    requires SoundUsers(users)
    ensures SoundUsers(CreateUser(users, rawName, hash, isAdmin).0)
  {
    var after := CreateUser(users, rawName, hash, isAdmin).0;
    NormalizeIsIdempotent(rawName);
    hide Normalize;
    var a :| IsAdmin(users, a);
    assert IsAdmin(after, a);
  }

  lemma DeleteKeepsSound(users: Users, rawName: string, requester: string, storeUp: bool)
    requires SoundUsers(users)
    ensures SoundUsers(DeleteUser(users, rawName, requester, storeUp).0)
  {
    hide Normalize, WellNamed;
    var (after, done) := DeleteUser(users, rawName, requester, storeUp);
    if done { assert IsAdmin(after, requester); }
  }

  lemma RenameKeepsSound(users: Users, rawOld: string, rawNew: string, rawRequester: string)
    requires SoundUsers(users)
    ensures SoundUsers(RenameUser(users, rawOld, rawNew, rawRequester).0)
  {
    var (after, done) := RenameUser(users, rawOld, rawNew, rawRequester);
    NormalizeIsIdempotent(rawNew);
    hide Normalize;
    if done {
      var requester := Normalize(rawRequester);
      assert IsAdmin(after, if requester == Normalize(rawOld) then Normalize(rawNew) else requester);
    }
  }

  /** The administrator count and the flag change share one critical section, so the last one stays. */
  lemma SetAdminKeepsSound(users: Users, rawName: string, flag: bool, rawRequester: string)
    requires SoundUsers(users)
    ensures SoundUsers(SetAdmin(users, rawName, flag, rawRequester).0)
  {
    hide Normalize, WellNamed;
    var after := SetAdmin(users, rawName, flag, rawRequester).0;
    var name := Normalize(rawName);
    if after != users {
      if flag {
        assert IsAdmin(after, name);
      } else {
        var other := AnotherMember(Admins(users), name);
        assert IsAdmin(after, other);
      }
    }
  }

  lemma SetPrivilegesKeepsSound(users: Users, rawName: string, changes: Privileges)
    requires SoundUsers(users)
    ensures SoundUsers(SetPrivileges(users, rawName, changes).0)
  {
    hide Normalize, WellNamed;
    var a :| IsAdmin(users, a);
    assert IsAdmin(SetPrivileges(users, rawName, changes).0, a);
  }

  /** Demotion with the stash a promotion left gives back the effective map from before the promotion. */
  lemma DemotionUndoesPromotion(u: User, v: User)
    requires !u.isAdmin && v.stash == Promoted(u).stash
    ensures Effective(Demoted(v)) == Effective(u)
  {
  }

  lemma PromotionStashes(users: Users, rawName: string, actor: string)
    requires SetAdmin(users, rawName, true, actor).1 == Ok && !users[Normalize(rawName)].isAdmin
    ensures var name := Normalize(rawName);
      var after := SetAdmin(users, rawName, true, actor).0;
      IsAdmin(after, name) && after[name].stash == Promoted(users[name]).stash
  {
  }

  lemma DemotionRestores(users: Users, rawName: string, actor: string, u: User)
    requires SetAdmin(users, rawName, false, actor).1 == Ok && IsAdmin(users, Normalize(rawName))
    requires !u.isAdmin && users[Normalize(rawName)].stash == Promoted(u).stash
    ensures var after := SetAdmin(users, rawName, false, actor).0;
      Normalize(rawName) in after && Effective(after[Normalize(rawName)]) == Effective(u)
  {
    DemotionUndoesPromotion(u, users[Normalize(rawName)]);
  }

  // ---- What each critical section does --------------------------------------------------------

  /** Every other account stays as it is, and none comes or goes. */
  ghost predicate OnlyTouches(users: Users, after: Users, name: string) {
    after.Keys == users.Keys && forall u :: u in users && u != name ==> after[u] == users[u]
  }

  /** Known keys get the changed values, and nothing else is added or changed. */
  lemma EditedIsExact(current: Privileges, changes: Privileges, known: set<Key>)
    ensures var edited := Edited(current, changes, known);
      && edited.Keys == current.Keys + (changes.Keys * known)
      && (forall k :: k in changes && k in known ==> edited[k] == changes[k])
      && (forall k :: k in current && !(k in changes && k in known) ==> edited[k] == current[k])
  {
  }

  /**
   * An edit succeeds for accounts that are no administrators. In the map in force it gives the changed values to
   * the known keys, and changes no other value and no set of keys.
   */
  lemma EditSetsExactlyTheKnownKeys(users: Users, rawName: string, changes: Privileges)
    ensures var name := Normalize(rawName);
      var (after, done) := SetPrivileges(users, rawName, changes);
      && (done <==> name in users && !IsAdmin(users, name))
      && (!done ==> after == users)
      && (done ==> OnlyTouches(users, after, name) && IsEdit(users[name], changes, after[name]))
  {
    hide Normalize;
    hide DEFAULT_PRIVILEGES;
  }

  /** The later map in force has the changed values at the default keys, and all others as before. */
  ghost predicate IsEdit(u: User, changes: Privileges, edited: User) {
    var was, now := Effective(u), Effective(edited);
    && edited == u.(privileges := edited.privileges)
    && now.Keys == was.Keys
    && (forall k :: k in changes && k in DEFAULT_PRIVILEGES ==> k in now && now[k] == changes[k])
    && (forall k :: k in was && !(k in changes && k in DEFAULT_PRIVILEGES) ==> now[k] == was[k])
  }

  /** A new account has the hash and the flag it was created with, all the rights of its kind, and nothing stashed. */
  lemma CreationAddsExactlyOne(users: Users, rawName: string, hash: string, isAdmin: bool)
    ensures var name := Normalize(rawName);
      var (after, done) := CreateUser(users, rawName, hash, isAdmin);
      && (done <==> name != "" && name !in RESERVED_USERNAMES && name !in users)
      && (!done ==> after == users)
      && (done ==> after - {name} == users && name in after && IsNew(after[name], hash, isAdmin))
  {
    hide Normalize, DEFAULT_PRIVILEGES, ADMIN_PRIVILEGES;
  }

  ghost predicate IsNew(u: User, hash: string, isAdmin: bool) {
    && u.passwordHash == hash && u.isAdmin == isAdmin && u.stash.None?
    && Effective(u) == if isAdmin then ADMIN_PRIVILEGES else DEFAULT_PRIVILEGES
  }

  /** A deletion needs a requester who is an administrator and somebody else; it takes away just that account. */
  lemma DeletionRemovesExactlyOne(users: Users, rawName: string, requester: string, storeUp: bool)
    ensures var name := Normalize(rawName);
      var (after, done) := DeleteUser(users, rawName, requester, storeUp);
      && (done <==> name in users && IsAdmin(users, requester) && requester != name && storeUp)
      && (!done ==> after == users)
      && (done ==> after.Keys == users.Keys - {name} && forall u :: u in after ==> after[u] == users[u])
  {
    hide Normalize;
  }

  /** A rename needs an administrator, too; it carries the whole record over, password hash and stash included. */
  lemma RenameCarriesTheRecord(users: Users, rawOld: string, rawNew: string, rawRequester: string)
    ensures var o, n, r := Normalize(rawOld), Normalize(rawNew), Normalize(rawRequester);
      var (after, done) := RenameUser(users, rawOld, rawNew, rawRequester);
      && (done <==> o != "" && o in users && n != "" && n !in RESERVED_USERNAMES && n !in users && IsAdmin(users, r))
      && (!done ==> after == users)
      && (done ==> o !in after && n in after && after[n] == users[o] && after - {n} == users - {o})
  {
    hide Normalize;
  }

  /** Administrators have every right there is, no limit, and neither of the two restrictions. */
  lemma AdministratorsAreUnrestricted(u: User)
    requires u.isAdmin
    ensures Effective(u).Keys == DEFAULT_PRIVILEGES.Keys
    ensures forall k :: k in DEFAULT_PRIVILEGES ==>
      match DEFAULT_PRIVILEGES[k]
      case Flag(_) => Effective(u)[k] == Flag(k != AllowedModelsRestricted && k != BlockAllModels)
      case Limit(_) => Effective(u)[k] == Limit(0)
      case _ => Effective(u)[k] == Names([])
  {
  }

  /**
   * A change of the flag has one of four results, and changes the table exactly if it is Ok and the flag was
   * another. Promotion gives all rights. Demotion gives the stashed ones, or the defaults if nothing is stashed,
   * as for an account created as administrator.
   */
  lemma FlagChangeIsExact(users: Users, rawName: string, flag: bool, rawRequester: string)
    ensures var name, requester := Normalize(rawName), Normalize(rawRequester);
      var (after, result) := SetAdmin(users, rawName, flag, rawRequester);
      && (result == UserNotFound <==> name !in users)
      && (result == NotAuthorized <==> name in users && !IsAdmin(users, requester))
      && (result == LastAdmin <==> IsAdmin(users, name) && IsAdmin(users, requester) && !flag && |Admins(users)| <= 1)
      && (result != Ok ==> after == users)
      && (result == Ok ==> OnlyTouches(users, after, name) && IsFlagChange(users[name], flag, after[name]))
  {
    var (name, requester) := (Normalize(rawName), Normalize(rawRequester));
    hide Normalize, IsFlagChange, Promoted, Demoted;
    if SetAdmin(users, rawName, flag, rawRequester).1 == Ok {
      PromotedIsFlagChange(users[name]);
      DemotedIsFlagChange(users[name]);
      if users[name].isAdmin == flag { SameFlagIsNoChange(users[name]); }
    }
  }

  lemma SameFlagIsNoChange(u: User)
    ensures IsFlagChange(u, u.isAdmin, u)
  {
  }

  lemma PromotedIsFlagChange(u: User)
    ensures !u.isAdmin ==> IsFlagChange(u, true, Promoted(u))
  {
    hide DEFAULT_PRIVILEGES, ADMIN_PRIVILEGES;
  }

  lemma DemotedIsFlagChange(u: User)
    ensures u.isAdmin ==> IsFlagChange(u, false, Demoted(u))
  {
    hide DEFAULT_PRIVILEGES, ADMIN_PRIVILEGES;
  }

  ghost predicate IsFlagChange(was: User, flag: bool, now: User) {
    if was.isAdmin == flag then now == was
    else
      && now.passwordHash == was.passwordHash && now.isAdmin == flag
      && (!flag ==> now.stash.None? && Effective(now) == DEFAULT_PRIVILEGES + was.stash.GetOr(map[]))
      && (flag ==> now.stash.Some? && DEFAULT_PRIVILEGES + now.stash.value == Effective(was))
  }

  /** So an administrator with nothing stashed is demoted to an account without shell access. */
  lemma NothingLeaksPastDemotion(u: User)
    requires u.isAdmin && u.stash.None?
    ensures Effective(Demoted(u)) == DEFAULT_PRIVILEGES && Effective(Demoted(u))[CanUseBash] == Flag(false)
  {
  }
}
