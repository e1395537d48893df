/**
 * The account service as a state machine: one step per critical section or database transaction.
 * Calls of several steps (deleting and renaming a user) leave a pending entry after each but the last, so every
 * interleaving of any number of calls is a sequence of operations.
 */
module AuthMachine {
  import opened Prelude
  import opened Usernames
  import opened Accounts
  import opened Text

  datatype Session = Session(username: string, expiry: int)

  /**
   * What a delete or rename has still to do: the session-lock half of either, and after that of a rename the
   * transaction in which the route hands the account's rows over to the new name.
   */
  datatype Pending =
    | Purge(username: string)
    | Relabel(oldName: string, newName: string)
    | Move(oldName: string, newName: string)

  datatype State = State(
    users: Users,
    apiTokens: map<string, Option<string>>,  // row id to owner
    rows: set<string>,                       // every row id ever used
    sessions: map<string, Session>,
    issued: set<string>,                     // every session token ever handed out
    pending: map<nat, Pending>)

  datatype Op =
    | CreateAccount(name: string, hash: string, isAdmin: bool)
    | DeleteStart(call: nat, name: string, requester: string, tokenStoreUp: bool)
    | RenameStart(call: nat, oldName: string, newName: string, requester: string)
    | Finish(call: nat)
    | ChangeAdmin(name: string, flag: bool, requester: string)
    | ChangePrivileges(name: string, changes: Privileges)
    | Issue(name: string, token: string, expiry: int)
    | Validate(token: string, now: int)
    | Revoke(token: string)
    | RevokeUser(name: string, except: Option<string>)
    | MoveOwners(call: nat, committed: bool)
    | MintApi(row: string, owner: Option<string>)  // no lock, and no look at the account
    | RemoveApi(row: string)

  function Purged(sessions: map<string, Session>, name: string): map<string, Session> {
    map t | t in sessions && sessions[t].username != name :: sessions[t]
  }

  function Relabelled(sessions: map<string, Session>, oldName: string, newName: string): map<string, Session> {
    map t | t in sessions ::
      if Normalize(sessions[t].username) == oldName then sessions[t].(username := newName) else sessions[t]
  }

  function RevokedExcept(sessions: map<string, Session>, name: string, except: Option<string>): map<string, Session> {
    map t | t in sessions && (except == Some(t) || sessions[t].username != name) :: sessions[t]
  }

  function Validated(users: Users, sessions: map<string, Session>, token: string, now: int): map<string, Session> {
    if token in sessions && (now > sessions[token].expiry || sessions[token].username !in users)
    then sessions - {token}
    else sessions
  }

  function OwnedByOthers(tokens: map<string, Option<string>>, name: string): map<string, Option<string>> {
    map i | i in tokens && tokens[i] != Some(name) :: tokens[i]
  }

  /** `UPDATE ... SET owner = new WHERE lower(owner) = old`. */
  function OwnersMoved(tokens: map<string, Option<string>>, oldName: string, newName: string)
    : map<string, Option<string>>
  {
    map i | i in tokens ::
      if tokens[i].Some? && Lower(tokens[i].value) == oldName then Some(newName) else tokens[i]
  }

  /**
   * One step. Random tokens, row ids and call numbers never repeat, so a repeated draw is a step that does nothing.
   */
  function Next(s: State, op: Op): State {
    match op
    case CreateAccount(name, hash, isAdmin) =>
      s.(users := CreateUser(s.users, name, hash, isAdmin).0)
    case DeleteStart(call, name, requester, tokenStoreUp) =>
      var (users, done) := DeleteUser(s.users, name, requester, tokenStoreUp);
      if call in s.pending || !done then s
      else s.(users := users,
              apiTokens := OwnedByOthers(s.apiTokens, Normalize(name)),
              pending := s.pending[call := Purge(Normalize(name))])
    case RenameStart(call, oldName, newName, requester) =>
      var (users, done) := RenameUser(s.users, oldName, newName, requester);
      if call in s.pending || !done then s
      else s.(users := users, pending := s.pending[call := Relabel(Normalize(oldName), Normalize(newName))])
    case Finish(call) =>
      if call !in s.pending then s
      else
        (match s.pending[call]
         case Purge(name) => s.(pending := s.pending - {call}, sessions := Purged(s.sessions, name))
         case Relabel(o, n) => s.(pending := s.pending[call := Move(o, n)], sessions := Relabelled(s.sessions, o, n))
         case Move(_, _) => s)
    case ChangeAdmin(name, flag, requester) =>
      s.(users := SetAdmin(s.users, name, flag, requester).0)
    case ChangePrivileges(name, changes) =>
      s.(users := SetPrivileges(s.users, name, changes).0)
    case Issue(name, token, expiry) =>
      if token in s.issued || Normalize(name) !in s.users then s
      else s.(sessions := s.sessions[token := Session(Normalize(name), expiry)], issued := s.issued + {token})
    case Validate(token, now) =>
      s.(sessions := Validated(s.users, s.sessions, token, now))
    case Revoke(token) =>
      s.(sessions := s.sessions - {token})
    case RevokeUser(name, except) =>
      s.(sessions := RevokedExcept(s.sessions, Normalize(name), except))
    case MoveOwners(call, committed) =>
      if call !in s.pending || !s.pending[call].Move? then s
      else
        var m := s.pending[call];
        s.(pending := s.pending - {call},
           apiTokens := if committed then OwnersMoved(s.apiTokens, m.oldName, m.newName) else s.apiTokens)
    case MintApi(row, owner) =>
      if row in s.rows then s else s.(apiTokens := s.apiTokens[row := owner], rows := s.rows + {row})
    case RemoveApi(row) =>
      s.(apiTokens := s.apiTokens - {row})
  }

  function Run(s: State, ops: seq<Op>): State
    decreases |ops|
  {
    if ops == [] then s else Run(Next(s, ops[0]), ops[1..])
  }

  /** The answer of `validate_token`. */
  predicate Authenticates(s: State, token: string, now: int) {
    token in s.sessions && now <= s.sessions[token].expiry && s.sessions[token].username in s.users
  }

  // ---- Safety over whole runs -----------------------------------------------------------------

  ghost predicate Sound(s: State) {
    SoundUsers(s.users)
  }

  lemma StepKeepsSound(s: State, op: Op)
    requires Sound(s)
    ensures Sound(Next(s, op))
  {
    hide Normalize, SoundUsers, CreateUser, DeleteUser, RenameUser, SetAdmin, SetPrivileges;
    match op {
      case CreateAccount(name, hash, isAdmin) => CreateKeepsSound(s.users, name, hash, isAdmin);
      case DeleteStart(_, name, requester, storeUp) => DeleteKeepsSound(s.users, name, requester, storeUp);
      case RenameStart(_, oldName, newName, requester) => RenameKeepsSound(s.users, oldName, newName, requester);
      case ChangeAdmin(name, flag, requester) => SetAdminKeepsSound(s.users, name, flag, requester);
      case ChangePrivileges(name, changes) => SetPrivilegesKeepsSound(s.users, name, changes);
      case _ =>
    }
  }

  /**
   * Whatever calls overlap and in whatever order their critical sections run, somebody stays administrator,
   * no reserved, empty or non-normalised name is stored, and stashes belong to administrators.
   */
  lemma {:induction false} RunKeepsSound(s: State, ops: seq<Op>)
    requires Sound(s)
    ensures Sound(Run(s, ops))
    decreases |ops|
  {
    if ops != [] {
      StepKeepsSound(s, ops[0]);
      RunKeepsSound(Next(s, ops[0]), ops[1..]);
    }
  }

  // ---- What becomes of an account -------------------------------------------------------------

  /** The step deletes the account: its requester is an administrator and somebody else. */
  predicate Deletes(s: State, op: Op, name: string) {
    && op.DeleteStart? && op.call !in s.pending && op.tokenStoreUp
    && Normalize(op.name) == name && name in s.users && IsAdmin(s.users, op.requester) && op.requester != name
  }

  /** The step gives the account another privilege map. */
  predicate Edits(s: State, op: Op, name: string) {
    op.ChangePrivileges? && Normalize(op.name) == name && name in s.users && !IsAdmin(s.users, name)
  }

  /** The step changes the account's flag. */
  predicate Flags(s: State, op: Op, name: string) {
    && op.ChangeAdmin? && Normalize(op.name) == name && IsAdmin(s.users, Normalize(op.requester))
    && name in s.users && s.users[name].isAdmin != op.flag && (op.flag || |Admins(s.users)| > 1)
  }

  /** Where the account is after the step, if it is not deleted. */
  predicate Renames(s: State, op: Op, name: string) {
    && op.RenameStart? && op.call !in s.pending && name != "" && Normalize(op.oldName) == name && name in s.users
    && Normalize(op.newName) != "" && Normalize(op.newName) !in RESERVED_USERNAMES
    && Normalize(op.newName) !in s.users && IsAdmin(s.users, Normalize(op.requester))
  }

  function NameAfter(s: State, op: Op, name: string): string {
    if Renames(s, op, name) then Normalize(op.newName) else name
  }

  /** What one step makes of the record. */
  ghost predicate Becomes(s: State, op: Op, name: string, was: User, now: User) {
    if Edits(s, op, name) then IsEdit(was, op.changes, now)
    else if Flags(s, op, name) then IsFlagChange(was, op.flag, now)
    else now == was
  }

  lemma FateOfAnAccount(s: State, op: Op, name: string)
    requires name in s.users
    ensures var e := Next(s, op);
      if Deletes(s, op, name) then name !in e.users
      else NameAfter(s, op, name) in e.users && Becomes(s, op, name, s.users[name], e.users[NameAfter(s, op, name)])
  {
    hide Normalize, IsEdit, IsFlagChange, Effective;
    match op
    case ChangePrivileges(n, changes) => EditSetsExactlyTheKnownKeys(s.users, n, changes);
    case ChangeAdmin(n, flag, requester) => FlagChangeIsExact(s.users, n, flag, requester); hide Promoted, Demoted;
    case RenameStart(_, o, n, requester) => RenameCarriesTheRecord(s.users, o, n, requester);
    case DeleteStart(_, n, requester, up) => DeletionRemovesExactlyOne(s.users, n, requester, up);
    case CreateAccount(n, hash, isAdmin) => CreationAddsExactlyOne(s.users, n, hash, isAdmin);
    case _ =>
  }

  function NameAfterAll(s: State, ops: seq<Op>, name: string): string
    decreases |ops|
  {
    if ops == [] then name else NameAfterAll(Next(s, ops[0]), ops[1..], NameAfter(s, ops[0], name))
  }

  ghost predicate NeverDeleted(s: State, ops: seq<Op>, name: string)
    decreases |ops|
  {
    ops != [] ==> !Deletes(s, ops[0], name) && NeverDeleted(Next(s, ops[0]), ops[1..], NameAfter(s, ops[0], name))
  }

  /** An account that is never deleted keeps its password through every run, whatever it is called by then. */
  lemma {:induction false} PasswordSurvivesRun(s: State, ops: seq<Op>, name: string)
    requires name in s.users && NeverDeleted(s, ops, name)
    ensures var e, now := Run(s, ops), NameAfterAll(s, ops, name);
      now in e.users && e.users[now].passwordHash == s.users[name].passwordHash
    decreases |ops|
  {
    if ops != [] {
      FateOfAnAccount(s, ops[0], name);
      hide Next, Deletes, NameAfter;
      PasswordSurvivesRun(Next(s, ops[0]), ops[1..], NameAfter(s, ops[0], name));
    }
  }

  // ---- Promotion, anything else, demotion -----------------------------------------------------

  /** The name an account goes by after a step, following it through renames. */
  function Follow(name: string, s: State, op: Op): string {
    if op.RenameStart? && Normalize(op.oldName) == name && Next(s, op).users != s.users
    then Normalize(op.newName)
    else name
  }

  function FollowAll(name: string, s: State, ops: seq<Op>): string
    decreases |ops|
  {
    if ops == [] then name else FollowAll(Follow(name, s, ops[0]), Next(s, ops[0]), ops[1..])
  }

  /** No step of the run deletes or demotes the account that is called `name` at its start. */
  ghost predicate StaysAdmin(name: string, s: State, ops: seq<Op>)
    decreases |ops|
  {
    && IsAdmin(s.users, name)
    && (ops != [] ==> StaysAdmin(Follow(name, s, ops[0]), Next(s, ops[0]), ops[1..]))
  }

  lemma StashSurvivesStep(name: string, s: State, op: Op)
    requires IsAdmin(s.users, name) && IsAdmin(Next(s, op).users, Follow(name, s, op))
    ensures Next(s, op).users[Follow(name, s, op)].stash == s.users[name].stash
  {
  }

  lemma {:induction false} StashSurvivesRun(name: string, s: State, ops: seq<Op>)
    requires StaysAdmin(name, s, ops)
    ensures var s', name' := Run(s, ops), FollowAll(name, s, ops);
      IsAdmin(s'.users, name') && s'.users[name'].stash == s.users[name].stash
    decreases |ops|
  {
    if ops != [] {
      StashSurvivesStep(name, s, ops[0]);
      StashSurvivesRun(Follow(name, s, ops[0]), Next(s, ops[0]), ops[1..]);
    }
  }

  lemma ChangeAdminUsers(s: State, rawName: string, flag: bool, actor: string)
    ensures Next(s, ChangeAdmin(rawName, flag, actor)).users == SetAdmin(s.users, rawName, flag, actor).0
  {
  }

  /**
   * Promote a non-admin, run anything that neither deletes nor demotes the account (renames, refused privilege
   * edits, changes to other accounts), then demote it: its effective privileges are those it had before.
   */
  lemma DemotionRestoresPrivileges(
      s0: State, rawName: string, actor: string, ops: seq<Op>, rawNameNow: string, actorNow: string)
    requires Normalize(rawName) in s0.users && !s0.users[Normalize(rawName)].isAdmin
    ensures var name, s1 := Normalize(rawName), Next(s0, ChangeAdmin(rawName, true, actor));
      var nameNow, s2 := Normalize(rawNameNow), Run(s1, ops);
      var s3 := Next(s2, ChangeAdmin(rawNameNow, false, actorNow));
      && SetAdmin(s0.users, rawName, true, actor).1 == Ok
      && StaysAdmin(name, s1, ops) && nameNow == FollowAll(name, s1, ops)
      && SetAdmin(s2.users, rawNameNow, false, actorNow).1 == Ok
      ==> nameNow in s3.users && Effective(s3.users[nameNow]) == Effective(s0.users[name])
  {
    var name, s1 := Normalize(rawName), Next(s0, ChangeAdmin(rawName, true, actor));
    var s2 := Run(s1, ops);
    ChangeAdminUsers(s0, rawName, true, actor);
    ChangeAdminUsers(s2, rawNameNow, false, actorNow);
    if SetAdmin(s0.users, rawName, true, actor).1 == Ok && StaysAdmin(name, s1, ops) {
      PromotionStashes(s0.users, rawName, actor);
      StashSurvivesRun(name, s1, ops);
      if Normalize(rawNameNow) == FollowAll(name, s1, ops) && SetAdmin(s2.users, rawNameNow, false, actorNow).1 == Ok {
        DemotionRestores(s2.users, rawNameNow, actorNow, s0.users[name]);
      }
    }
  }

  // ---- Sessions come from logins --------------------------------------------------------------

  /** A session is issued exactly for an account, and is good until its expiry; nothing else makes a session. */
  lemma LoginsMakeSessions(s: State, name: string, token: string, expiry: int, now: int)
    requires token !in s.issued
    ensures var e := Next(s, Issue(name, token, expiry));
      if Normalize(name) in s.users then
        && e.sessions.Keys == s.sessions.Keys + {token} && e.issued == s.issued + {token}
        && e.sessions[token].username == Normalize(name) && (Authenticates(e, token, now) <==> now <= expiry)
        && forall t :: t in s.sessions && t != token ==> e.sessions[t] == s.sessions[t]
      else e == s
  {
    hide Normalize;
  }

  lemma OnlyLoginsMakeSessions(s: State, op: Op, t: string)
    requires t !in s.sessions && t in Next(s, op).sessions
    ensures op.Issue? && op.token == t && t !in s.issued
  {
    hide Normalize;
  }

  // ---- Revocation -----------------------------------------------------------------------------

  lemma DeadTokenStaysDead(s: State, op: Op, t: string)
    requires t in s.issued && t !in s.sessions
    ensures t in Next(s, op).issued && t !in Next(s, op).sessions
  {
  }

  /** A token that was issued and is gone from the session table never comes back. */
  lemma {:induction false} DeadTokensStayDead(s: State, ops: seq<Op>, t: string)
    requires t in s.issued && t !in s.sessions
    ensures t in Run(s, ops).issued && t !in Run(s, ops).sessions
    decreases |ops|
  {
    if ops != [] {
      DeadTokenStaysDead(s, ops[0], t);
      DeadTokensStayDead(Next(s, ops[0]), ops[1..], t);
    }
  }

  /** In this run no rename away from `name` reaches its second critical section. */
  ghost predicate NoRelabelFrom(name: string, s: State, ops: seq<Op>)
    decreases |ops|
  {
    ops != [] ==>
      && !(ops[0].Finish? && ops[0].call in s.pending
           && s.pending[ops[0].call].Relabel? && s.pending[ops[0].call].oldName == name)
      && NoRelabelFrom(name, Next(s, ops[0]), ops[1..])
  }

  /** The deletion's purge is still to come, and `t` is either gone or carries the deleted name. */
  ghost predicate AwaitsPurge(s: State, call: nat, t: string, name: string) {
    && call in s.pending && s.pending[call] == Purge(name)
    && t in s.issued && (t in s.sessions ==> s.sessions[t].username == name)
  }

  lemma LabelSurvivesStep(s: State, op: Op, call: nat, t: string, name: string)
    requires Normalize(name) == name && NoRelabelFrom(name, s, [op]) && op != Finish(call)
    requires AwaitsPurge(s, call, t, name)
    ensures AwaitsPurge(Next(s, op), call, t, name)
  {
  }

  lemma {:induction false} LabelSurvives(s: State, ops: seq<Op>, call: nat, t: string, name: string)
    requires Normalize(name) == name && NoRelabelFrom(name, s, ops) && Finish(call) !in ops
    requires AwaitsPurge(s, call, t, name)
    ensures AwaitsPurge(Run(s, ops), call, t, name)
    decreases |ops|
  {
    if ops != [] {
      LabelSurvivesStep(s, ops[0], call, t, name);
      LabelSurvives(Next(s, ops[0]), ops[1..], call, t, name);
    }
  }

  /**
   * Once a deletion has returned, no token issued to that user before it began authenticates again: not under
   * any interleaving with other calls between its two critical sections, and not if the name is created anew
   * later. The one hypothesis is that no rename away from the name completes in between.
   */
  lemma {:induction false} DeletionRevokesForGood(
      s0: State, call: nat, rawName: string, requester: string, between: seq<Op>, after: seq<Op>, t: string)
    requires t in s0.issued && (t in s0.sessions ==> s0.sessions[t].username == Normalize(rawName))
    requires call !in s0.pending && DeleteUser(s0.users, rawName, requester, true).1
    requires Finish(call) !in between
    requires NoRelabelFrom(Normalize(rawName), Next(s0, DeleteStart(call, rawName, requester, true)), between)
    ensures var s1 := Next(s0, DeleteStart(call, rawName, requester, true));
      var s2 := Next(Run(s1, between), Finish(call));
      t !in Run(s2, after).sessions && forall now :: !Authenticates(Run(s2, after), t, now)
  {
    NormalizeIsIdempotent(rawName);
    var s1 := Next(s0, DeleteStart(call, rawName, requester, true));
    LabelSurvives(s1, between, call, t, Normalize(rawName));
    DeadTokensStayDead(Next(Run(s1, between), Finish(call)), after, t);
  }

  /** Session labels, and the names renames are about to write into them, are names an account can have. */
  ghost predicate LabelsRight(s: State) {
    && (forall t :: t in s.sessions ==> WellNamed(s.sessions[t].username))
    && (forall c :: c in s.pending && s.pending[c].Relabel? ==> WellNamed(s.pending[c].newName))
  }

  lemma StepKeepsLabelsRight(s: State, op: Op)
    requires Sound(s) && LabelsRight(s)
    ensures LabelsRight(Next(s, op))
  {
    match op
    case RenameStart(_, _, _, _) => RenameStartKeepsLabelsRight(s, op);
    case Finish(_) => FinishKeepsLabelsRight(s, op);
    case _ => OthersKeepLabelsRight(s, op);
  }

  lemma RenameStartKeepsLabelsRight(s: State, op: Op)
    requires LabelsRight(s) && op.RenameStart?
    ensures LabelsRight(Next(s, op))
  {
    RenamesAreWellNamed(s.users, op.oldName, op.newName, op.requester);
    hide Normalize, WellNamed, RenameUser;
  }

  lemma FinishKeepsLabelsRight(s: State, op: Op)
    requires LabelsRight(s) && op.Finish?
    ensures LabelsRight(Next(s, op))
  {
    hide Normalize, WellNamed;
  }

  lemma OthersKeepLabelsRight(s: State, op: Op)
    requires Sound(s) && LabelsRight(s) && !op.RenameStart? && !op.Finish?
    ensures LabelsRight(Next(s, op))
  {
    hide Normalize, WellNamed, CreateUser, DeleteUser, SetAdmin, SetPrivileges, HasAdmin, StashesAreAdmins;
  }

  lemma RenamesAreWellNamed(users: Users, rawOld: string, rawNew: string, rawRequester: string)
    ensures RenameUser(users, rawOld, rawNew, rawRequester).1 ==> WellNamed(Normalize(rawNew))
  {
    NormalizeIsIdempotent(rawNew);
  }

  /** From a sound start they stay right in every run. */
  lemma {:induction false} RunKeepsLabelsRight(s: State, ops: seq<Op>)
    requires Sound(s) && LabelsRight(s)
    ensures Sound(Run(s, ops)) && LabelsRight(Run(s, ops))
    decreases |ops|
  {
    if ops != [] {
      StepKeepsSound(s, ops[0]);
      StepKeepsLabelsRight(s, ops[0]);
      hide Sound, LabelsRight, Next;
      RunKeepsLabelsRight(Next(s, ops[0]), ops[1..]);
    }
  }

  lemma PendingStaysForAStep(s: State, op: Op, call: nat)
    requires call in s.pending && !s.pending[call].Move? && op != Finish(call)
    ensures call in Next(s, op).pending && Next(s, op).pending[call] == s.pending[call]
    ensures s.issued <= Next(s, op).issued
  {
    hide Normalize;
  }

  lemma {:induction false} PendingStays(s: State, ops: seq<Op>, call: nat)
    requires call in s.pending && !s.pending[call].Move? && Finish(call) !in ops
    ensures var e := Run(s, ops);
      call in e.pending && e.pending[call] == s.pending[call] && s.issued <= e.issued
    decreases |ops|
  {
    if ops != [] {
      PendingStaysForAStep(s, ops[0], call);
      hide Next;
      PendingStays(Next(s, ops[0]), ops[1..], call);
    }
  }

  /** Creating the account its label names revives a session, unless that account exists anyway. */
  lemma SessionsCanRevive(s: State, t: string)
    requires t in s.sessions && WellNamed(s.sessions[t].username)
    ensures exists after: seq<Op>, now: int :: Authenticates(Run(s, after), t, now)
  {
    var name := s.sessions[t].username;
    var ops := [CreateAccount(name, "", false)];
    assert ops[1..] == [] && Run(s, ops) == Next(s, ops[0]);
    assert Authenticates(Run(s, ops), t, s.sessions[t].expiry);
  }

  lemma PurgeIsExact(s: State, call: nat, t: string)
    requires LabelsRight(s) && call in s.pending && s.pending[call].Purge? && t in s.issued
    ensures var e := Next(s, Finish(call));
      && t in e.issued
      && (t in e.sessions <==> t in s.sessions && s.sessions[t].username != s.pending[call].username)
      && (t in e.sessions ==> WellNamed(e.sessions[t].username))
  {
  }

  /**
   * Exactly which tokens a deletion fails to revoke: those that carry another label when its purge runs. Any such
   * token can work again later; no other one ever does.
   */
  lemma DeletionMissesExactlyTheRelabelled(
      s0: State, call: nat, rawName: string, requester: string, between: seq<Op>, t: string)
    requires Sound(s0) && LabelsRight(s0) && t in s0.issued
    requires call !in s0.pending && DeleteUser(s0.users, rawName, requester, true).1 && Finish(call) !in between
    ensures var e := Run(Next(s0, DeleteStart(call, rawName, requester, true)), between);
      (exists after: seq<Op>, now: int :: Authenticates(Run(Next(e, Finish(call)), after), t, now))
      <==> t in e.sessions && e.sessions[t].username != Normalize(rawName)
  {
    var start := DeleteStart(call, rawName, requester, true);
    StepKeepsSound(s0, start);
    StepKeepsLabelsRight(s0, start);
    var s1 := Next(s0, start);
    assert call in s1.pending && s1.pending[call] == Purge(Normalize(rawName)) && s1.issued == s0.issued;
    hide Sound, LabelsRight;
    RunKeepsLabelsRight(s1, between);
    PendingStays(s1, between, call);
    var e := Run(s1, between);
    PurgeIsExact(e, call, t);
    var s2 := Next(e, Finish(call));
    hide Next, Normalize, WellNamed;
    if t in s2.sessions {
      SessionsCanRevive(s2, t);
    } else {
      forall after: seq<Op>, now: int ensures !Authenticates(Run(s2, after), t, now) {
        DeadTokensStayDead(s2, after, t);
      }
    }
  }

  /**
   * Why the hypothesis is there. If a rename from `w` into `u` is between its critical sections when `u` is
   * deleted, a live token of that user outlives the deletion and works again as soon as `u` is re-created.
   */
  lemma OverlappingRenameDefeatsRevocation(
      s: State, rename: nat, delete: nat, w: string, u: string, requester: string, t: string, now: int)
    requires w != u && WellNamed(w) && WellNamed(u)
    requires rename in s.pending && s.pending[rename] == Relabel(w, u)
    requires delete !in s.pending && DeleteUser(s.users, u, requester, true).1
    requires t in s.sessions && s.sessions[t].username == w && now <= s.sessions[t].expiry
    ensures Authenticates(
      Run(s, [DeleteStart(delete, u, requester, true), Finish(delete), Finish(rename), CreateAccount(u, "", false)]),
      t, now)
  {
    var a := Next(s, DeleteStart(delete, u, requester, true));
    var b := Next(a, Finish(delete));
    var c := Next(b, Finish(rename));
    var d := Next(c, CreateAccount(u, "", false));
    var ops := [DeleteStart(delete, u, requester, true), Finish(delete), Finish(rename), CreateAccount(u, "", false)];
    assert ops[1..][1..][1..][1..] == [];
    assert Run(s, ops) == Run(a, ops[1..]) == Run(b, ops[1..][1..]) == Run(c, ops[1..][1..][1..]) == d;
  }

  // ---- API tokens -----------------------------------------------------------------------------

  predicate Owns(s: State, name: string, row: string) {
    row in s.apiTokens && s.apiTokens[row] == Some(name)
  }

  lemma GoneInAStep(s: State, op: Op, row: string)
    requires row in s.rows && row !in s.apiTokens
    ensures row in Next(s, op).rows && row !in Next(s, op).apiTokens
  {
    hide Normalize, Lower;
  }

  lemma {:induction false} GoneRowsStayGone(s: State, ops: seq<Op>, row: string)
    requires row in s.rows && row !in s.apiTokens
    ensures row !in Run(s, ops).apiTokens
    decreases |ops|
  {
    if ops != [] {
      GoneInAStep(s, ops[0], row);
      hide Next;
      GoneRowsStayGone(Next(s, ops[0]), ops[1..], row);
    }
  }

  /**
   * No API token row that the user owns when it is deleted exists in any later state, whatever is minted, renamed,
   * moved and re-created; a refused deletion leaves everything as it is.
   */
  lemma DeletionRevokesApiTokens(
      s: State, call: nat, rawName: string, requester: string, storeUp: bool, after: seq<Op>, row: string)
    requires call !in s.pending && row in s.rows
    ensures var s' := Next(s, DeleteStart(call, rawName, requester, storeUp));
      if DeleteUser(s.users, rawName, requester, storeUp).1
      then Owns(s, Normalize(rawName), row) ==> row !in Run(s', after).apiTokens
      else s' == s
  {
    var s' := Next(s, DeleteStart(call, rawName, requester, storeUp));
    if DeleteUser(s.users, rawName, requester, storeUp).1 && Owns(s, Normalize(rawName), row) {
      GoneRowsStayGone(s', after, row);
    }
  }

  /** The step ends the row: it removes it, or deletes the account that owns it. */
  predicate Kills(s: State, op: Op, row: string) {
    match op
    case RemoveApi(r) => r == row
    case DeleteStart(_, name, _, _) => Deletes(s, op, Normalize(name)) && Owns(s, Normalize(name), row)
    case _ => false
  }

  /** Only a hand-over changes an owner, from any spelling of the old name to the new name. */
  function OwnerAfter(s: State, op: Op, owner: Option<string>): Option<string> {
    if op.MoveOwners? && op.committed && op.call in s.pending && s.pending[op.call].Move?
       && owner.Some? && Lower(owner.value) == s.pending[op.call].oldName
    then Some(s.pending[op.call].newName)
    else owner
  }

  /** What becomes of an API token row in a step, whoever owns it. */
  lemma FateOfARow(s: State, op: Op, row: string)
    requires s.apiTokens.Keys <= s.rows && row in s.apiTokens
    ensures var e := Next(s, op);
      && (row in e.apiTokens <==> !Kills(s, op, row))
      && (row in e.apiTokens ==> e.apiTokens[row] == OwnerAfter(s, op, s.apiTokens[row]))
  {
    hide Normalize, Lower;
    if op.DeleteStart? { DeletionRemovesExactlyOne(s.users, op.name, op.requester, op.tokenStoreUp); }
  }

  /** The step makes `name` the owner of the row: by minting it, or by the hand-over of a rename to `name`. */
  predicate Gives(s: State, op: Op, name: string, row: string) {
    match op
    case MintApi(r, owner) => r == row && row !in s.rows && owner == Some(name)
    case MoveOwners(call, committed) =>
      && committed && call in s.pending && s.pending[call].Move? && s.pending[call].newName == name
      && row in s.apiTokens && s.apiTokens[row].Some? && Lower(s.apiTokens[row].value) == s.pending[call].oldName
    case _ => false
  }

  /** The step ends that: the row is removed or handed over to another name, or `name` is deleted. */
  predicate Takes(s: State, op: Op, name: string, row: string) {
    match op
    case RemoveApi(r) => r == row
    case MoveOwners(call, committed) =>
      && committed && call in s.pending && s.pending[call].Move?
      && s.pending[call].oldName == Lower(name) && s.pending[call].newName != name
    case DeleteStart(call, rawName, requester, storeUp) =>
      && call !in s.pending && DeleteUser(s.users, rawName, requester, storeUp).1 && Normalize(rawName) == name
    case _ => false
  }

  lemma OwnershipInAStep(s: State, op: Op, name: string, row: string)
    requires s.apiTokens.Keys <= s.rows
    ensures Next(s, op).apiTokens.Keys <= Next(s, op).rows
    ensures Owns(Next(s, op), name, row) <==>
      Gives(s, op, name, row) || (Owns(s, name, row) && !Takes(s, op, name, row))
  {
    hide Normalize, Lower, DeleteUser;
  }

  lemma {:induction false} RunSnoc(s: State, ops: seq<Op>, op: Op)
    ensures Run(s, ops + [op]) == Next(Run(s, ops), op)
    decreases |ops|
  {
    hide Next;
    if ops == [] {
      assert ops + [op] == [op] && [op][1..] == [];
    } else {
      assert (ops + [op])[1..] == ops[1..] + [op];
      RunSnoc(Next(s, ops[0]), ops[1..], op);
    }
  }

  /** The k-th step of the run gives the row to `name`, and no later one takes it. */
  ghost predicate GivesForGood(s: State, ops: seq<Op>, name: string, row: string, k: nat)
    requires k < |ops|
  {
    && Gives(Run(s, ops[..k]), ops[k], name, row)
    && forall j :: k < j < |ops| ==> !Takes(Run(s, ops[..j]), ops[j], name, row)
  }

  /** Some step of the run gives the row to `name` for good. */
  ghost predicate IsGiven(s: State, ops: seq<Op>, name: string, row: string) {
    exists k :: 0 <= k < |ops| && GivesForGood(s, ops, name, row, k)
  }

  lemma GivesForGoodOneMore(s: State, ops: seq<Op>, name: string, row: string, k: nat)
    requires k < |ops| - 1
    ensures var n := |ops| - 1;
      GivesForGood(s, ops, name, row, k) <==>
        GivesForGood(s, ops[..n], name, row, k) && !Takes(Run(s, ops[..n]), ops[n], name, row)
  {
    hide Gives, Takes, Run;
    var n := |ops| - 1;
    assert forall j :: 0 <= j < n ==> ops[..n][..j] == ops[..j] && ops[..n][j] == ops[j];
  }

  lemma IsGivenOneMore(s: State, ops: seq<Op>, name: string, row: string)
    requires |ops| > 0
    ensures var n := |ops| - 1;
      var before := Run(s, ops[..n]);
      IsGiven(s, ops, name, row) <==>
        Gives(before, ops[n], name, row) || (IsGiven(s, ops[..n], name, row) && !Takes(before, ops[n], name, row))
  {
    var n := |ops| - 1;
    forall k | 0 <= k < n
      ensures GivesForGood(s, ops, name, row, k) <==>
        GivesForGood(s, ops[..n], name, row, k) && !Takes(Run(s, ops[..n]), ops[n], name, row)
    {
      GivesForGoodOneMore(s, ops, name, row, k);
    }
    assert GivesForGood(s, ops, name, row, n) <==> Gives(Run(s, ops[..n]), ops[n], name, row);
    hide GivesForGood, Gives, Takes, Run;
    if k :| 0 <= k < n && GivesForGood(s, ops[..n], name, row, k) {
      assert !Takes(Run(s, ops[..n]), ops[n], name, row) ==> GivesForGood(s, ops, name, row, k);
    }
  }

  /** Who owns a row that `name` does not own at the start of a run: `name`, exactly by such a step. */
  lemma {:induction false} OwnershipIsGivenForGood(s: State, ops: seq<Op>, name: string, row: string)
    requires s.apiTokens.Keys <= s.rows && !Owns(s, name, row)
    ensures Run(s, ops).apiTokens.Keys <= Run(s, ops).rows
    ensures Owns(Run(s, ops), name, row) <==> IsGiven(s, ops, name, row)
    decreases |ops|
  {
    if |ops| > 0 {
      hide *;
      var n := |ops| - 1;
      OwnershipIsGivenForGood(s, ops[..n], name, row);
      RunSnoc(s, ops[..n], ops[n]);
      assert ops[..n] + [ops[n]] == ops;
      OwnershipInAStep(Run(s, ops[..n]), ops[n], name, row);
      IsGivenOneMore(s, ops, name, row);
    }
  }

  /**
   * After a deletion the user's name owns an API token row exactly if some later step minted it for that name or
   * handed it over to it, and none after that took it away again.
   */
  lemma DeletedNameOwnsExactlyWhatIsGivenLater(
      s: State, call: nat, rawName: string, requester: string, after: seq<Op>, row: string)
    requires s.apiTokens.Keys <= s.rows && call !in s.pending && DeleteUser(s.users, rawName, requester, true).1
    ensures var s' := Next(s, DeleteStart(call, rawName, requester, true));
      Owns(Run(s', after), Normalize(rawName), row) <==> IsGiven(s', after, Normalize(rawName), row)
  {
    var s' := Next(s, DeleteStart(call, rawName, requester, true));
    assert s'.apiTokens.Keys <= s'.rows && !Owns(s', Normalize(rawName), row);
    hide *;
    OwnershipIsGivenForGood(s', after, Normalize(rawName), row);
  }

  /**
   * Such a run: a rename from `w` into `u` has still to hand its rows over when `u` is deleted. The row of `w` ends
   * up owned by `u`, and `u` is an account again once it is re-created.
   */
  lemma OverlappingRenameHandsOverAToken(
      s: State, rename: nat, delete: nat, w: string, u: string, requester: string, row: string)
    requires WellNamed(w) && WellNamed(u)
    requires rename in s.pending && s.pending[rename] == Move(w, u) && Owns(s, w, row) && w != u
    requires delete !in s.pending && DeleteUser(s.users, u, requester, true).1
    ensures var start, create := DeleteStart(delete, u, requester, true), CreateAccount(u, "", false);
      var e := Run(s, [start, MoveOwners(rename, true), create]);
      Owns(e, u, row) && u in e.users
  {
    WellNamedIsLower(w);
    hide Lower;
    var start := DeleteStart(delete, u, requester, true);
    var a := Next(s, start);
    assert Normalize(u) == u;
    assert rename in a.pending && a.pending[rename] == Move(w, u) && Owns(a, w, row);
    HandOverAndRecreate(a, rename, w, u, row);
    var rest := [MoveOwners(rename, true), CreateAccount(u, "", false)];
    assert [start, MoveOwners(rename, true), CreateAccount(u, "", false)][1..] == rest;
    hide Next, Normalize, WellNamed;
  }

  lemma HandOverAndRecreate(s: State, rename: nat, w: string, u: string, row: string)
    requires WellNamed(u) && Lower(w) == w
    requires rename in s.pending && s.pending[rename] == Move(w, u) && Owns(s, w, row)
    ensures var e := Run(s, [MoveOwners(rename, true), CreateAccount(u, "", false)]); Owns(e, u, row) && u in e.users
  {
    hide Lower;
    var a := Next(s, MoveOwners(rename, true));
    var b := Next(a, CreateAccount(u, "", false));
    assert Owns(a, u, row) && Owns(b, u, row) && u in b.users;
    var ops := [MoveOwners(rename, true), CreateAccount(u, "", false)];
    assert ops[1..] == [CreateAccount(u, "", false)] && ops[1..][1..] == [];
    assert Run(s, ops) == Run(a, ops[1..]) == Run(b, ops[1..][1..]) == b;
  }

  lemma WellNamedIsLower(name: string)
    requires WellNamed(name)
    ensures Lower(name) == name
  {
    var t := Strip(name);
    assert name == Lower(t);
    forall i | 0 <= i < |name| ensures LowerChar(name[i]) == name[i] { assert name[i] == LowerChar(t[i]); }
  }

  // ---- What becomes of a session --------------------------------------------------------------

  /** The step ends the session `t`, which now is `session`. */
  predicate Drops(s: State, op: Op, t: string, session: Session) {
    match op
    case Validate(token, now) => token == t && (now > session.expiry || session.username !in s.users)
    case Revoke(token) => token == t
    case RevokeUser(name, except) => Normalize(name) == session.username && except != Some(t)
    case Finish(call) => call in s.pending && s.pending[call] == Purge(session.username)
    case _ => false
  }

  /** The session after a step that does not end it: only the second half of a rename changes its label. */
  function Labelled(s: State, op: Op, session: Session): Session {
    if op.Finish? && op.call in s.pending && s.pending[op.call].Relabel?
       && s.pending[op.call].oldName == Normalize(session.username)
    then session.(username := s.pending[op.call].newName)
    else session
  }

  function LabelledAll(s: State, ops: seq<Op>, session: Session): Session
    decreases |ops|
  {
    if ops == [] then session else LabelledAll(Next(s, ops[0]), ops[1..], Labelled(s, ops[0], session))
  }

  ghost predicate Spares(s: State, ops: seq<Op>, t: string, session: Session)
    decreases |ops|
  {
    ops != [] ==>
      !Drops(s, ops[0], t, session) && Spares(Next(s, ops[0]), ops[1..], t, Labelled(s, ops[0], session))
  }

  lemma FateInAStep(s: State, op: Op, t: string)
    requires t in s.sessions && t in s.issued
    ensures t in Next(s, op).issued
    ensures t in Next(s, op).sessions <==> !Drops(s, op, t, s.sessions[t])
    ensures t in Next(s, op).sessions ==> Next(s, op).sessions[t] == Labelled(s, op, s.sessions[t])
  {
    hide Normalize;
  }

  /** In every run a session lives exactly until a step that drops it, under the label its renames gave it. */
  lemma {:induction false} FateOfASession(s: State, ops: seq<Op>, t: string)
    requires t in s.sessions && t in s.issued
    ensures t in Run(s, ops).sessions <==> Spares(s, ops, t, s.sessions[t])
    ensures t in Run(s, ops).sessions ==> Run(s, ops).sessions[t] == LabelledAll(s, ops, s.sessions[t])
    decreases |ops|
  {
    if ops != [] {
      FateInAStep(s, ops[0], t);
      hide Next, Drops, Labelled;
      if t in Next(s, ops[0]).sessions {
        FateOfASession(Next(s, ops[0]), ops[1..], t);
      } else {
        DeadTokensStayDead(Next(s, ops[0]), ops[1..], t);
      }
    }
  }

  lemma {:induction false} WithoutRelabelTheLabelStays(s: State, ops: seq<Op>, session: Session)
    requires NoRelabelFrom(Normalize(session.username), s, ops)
    ensures LabelledAll(s, ops, session) == session
    decreases |ops|
  {
    if ops != [] {
      hide Next, Normalize;
      WithoutRelabelTheLabelStays(Next(s, ops[0]), ops[1..], session);
    }
  }

  lemma RelabelIsExact(s: State, call: nat, t: string)
    requires call in s.pending && s.pending[call].Relabel?
    ensures var s', r := Next(s, Finish(call)), s.pending[call];
      && (t in s'.sessions <==> t in s.sessions)
      && (t in s.sessions ==>
            s'.sessions[t] == if Normalize(s.sessions[t].username) == r.oldName
                              then s.sessions[t].(username := r.newName) else s.sessions[t])
  {
    hide Normalize;
  }

  /**
   * Which sessions a rename takes to the new name, whatever runs between its two halves: exactly those of the old
   * name that no step in between drops (an expiry or a validation while the old name is unknown, a revocation, a
   * purge) and that other renames leave with the old name, or give the same new one. Without another rename from
   * the old name these are exactly those that are not dropped. The expiry stays.
   */
  lemma RenameMovesExactlyTheSpared(
      s0: State, call: nat, rawOld: string, rawNew: string, requester: string, between: seq<Op>, t: string)
    requires call !in s0.pending && RenameUser(s0.users, rawOld, rawNew, requester).1 && Finish(call) !in between
    requires t in s0.sessions && t in s0.issued && s0.sessions[t].username == Normalize(rawOld)
    ensures var s1 := Next(s0, RenameStart(call, rawOld, rawNew, requester));
      var s2 := Next(Run(s1, between), Finish(call));
      var before, oldName, newName := s0.sessions[t], Normalize(rawOld), Normalize(rawNew);
      var last := LabelledAll(s1, between, before).username;
      && (t in s2.sessions && s2.sessions[t] == Session(newName, before.expiry) <==>
            Spares(s1, between, t, before) && (Normalize(last) == oldName || last == newName))
      && (NoRelabelFrom(oldName, s1, between) ==>
            (t in s2.sessions <==> Spares(s1, between, t, before))
            && (t in s2.sessions ==> s2.sessions[t] == Session(newName, before.expiry)))
  {
    NormalizeIsIdempotent(rawOld);
    var s1 := Next(s0, RenameStart(call, rawOld, rawNew, requester));
    var before := s0.sessions[t];
    assert s1.sessions == s0.sessions && s1.issued == s0.issued;
    assert call in s1.pending && s1.pending[call] == Relabel(Normalize(rawOld), Normalize(rawNew));
    PendingStays(s1, between, call);
    FateOfASession(s1, between, t);
    RelabelIsExact(Run(s1, between), call, t);
    LabellingKeepsExpiry(s1, between, before);
    if NoRelabelFrom(Normalize(rawOld), s1, between) { WithoutRelabelTheLabelStays(s1, between, before); }
    hide Next, Normalize, RenameUser;
  }

  lemma {:induction false} LabellingKeepsExpiry(s: State, ops: seq<Op>, session: Session)
    ensures LabelledAll(s, ops, session).expiry == session.expiry
    decreases |ops|
  {
    if ops != [] { LabellingKeepsExpiry(Next(s, ops[0]), ops[1..], Labelled(s, ops[0], session)); }
  }

  /** A rename with nothing between its critical sections changes no session of another name. */
  lemma RenameLeavesOthersAlone(s: State, call: nat, rawOld: string, rawNew: string, requester: string, t: string)
    requires call !in s.pending && RenameUser(s.users, rawOld, rawNew, requester).1
    requires t in s.sessions && Normalize(s.sessions[t].username) != Normalize(rawOld)
    ensures var s' := Next(Next(s, RenameStart(call, rawOld, rawNew, requester)), Finish(call));
      t in s'.sessions && s'.sessions[t] == s.sessions[t]
  {
  }

  /** The same rename overlapped by a validation loses the session: the old label is unknown for a moment. */
  lemma ValidationDuringRenameDropsSession(
      s: State, call: nat, rawOld: string, rawNew: string, requester: string, t: string, now: int)
    requires call !in s.pending && RenameUser(s.users, rawOld, rawNew, requester).1
    requires t in s.sessions && s.sessions[t].username == Normalize(rawOld)
    ensures Authenticates(s, t, now) <==> now <= s.sessions[t].expiry
    ensures var s1 := Next(s, RenameStart(call, rawOld, rawNew, requester));
      t !in Next(Next(s1, Validate(t, now)), Finish(call)).sessions
  {
  }
}
