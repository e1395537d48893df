/**
 * `AuthManager` as it is written: dictionaries updated in place, loops that collect and pop. Each method is one
 * call that nothing overlaps; its contract gives every field it may change as the function the state machine
 * of `AuthMachine` uses for the same step.
 */
module AuthService {
  import opened Prelude
  import opened Usernames
  import opened Accounts
  import opened AuthMachine

  class AuthManager {
    var users: Users
    var apiTokens: map<string, Option<string>>
    var sessions: map<string, Session>
    var authJson: Users  // what auth.json holds; every write is taken to succeed

    /** What `ConfigFile` proves of the file: with the config lock free it is the user table in memory. */
    ghost predicate Saved()
      reads this
    {
      authJson == users
    }

    method Save()
      modifies this`authJson
      ensures Saved()
    {
      authJson := users;
    }

    method Create(rawName: string, hash: string, isAdmin: bool) returns (ok: bool)
      requires Saved()
      modifies this`users, this`authJson
      ensures Saved() && (users, ok) == CreateUser(old(users), rawName, hash, isAdmin)
      ensures SoundUsers(old(users)) ==> SoundUsers(users)
      ensures !ok ==> users == old(users)
      ensures ok ==>
        && Normalize(rawName) !in old(users) && users.Keys == old(users).Keys + {Normalize(rawName)}
        && IsNew(users[Normalize(rawName)], hash, isAdmin) && forall u :: u in old(users) ==> users[u] == old(users)[u]
    {
      hide Normalize, SoundUsers, IsNew;
      CreationAddsExactlyOne(users, rawName, hash, isAdmin);
      if SoundUsers(users) { CreateKeepsSound(users, rawName, hash, isAdmin); }
      var name := Normalize(rawName);
      if name == "" || name in RESERVED_USERNAMES || name in users { return false; }
      users := users[name := User(hash, isAdmin, Some(if isAdmin then ADMIN_PRIVILEGES else DEFAULT_PRIVILEGES), None)];
      Save();
      return true;
    }

    /** Pops the collected tokens one by one. */
    method Drop(tokens: set<string>)
      modifies this`sessions
      ensures sessions == old(sessions) - tokens
    {
      var todo := tokens;
      while todo != {}
        invariant todo <= tokens && sessions == old(sessions) - (tokens - todo)
      {
        var t :| t in todo;
        sessions := sessions - {t};
        todo := todo - {t};
      }
      assert tokens - {} == tokens;
    }

    method PurgeSessions(name: string)
      modifies this`sessions
      ensures sessions == Purged(old(sessions), name)
    {
      Drop(set t | t in sessions && sessions[t].username == name);
    }

    method Delete(rawName: string, requester: string, tokenStoreUp: bool) returns (ok: bool)
      requires Saved()
      modifies this
      ensures Saved() && (users, ok) == DeleteUser(old(users), rawName, requester, tokenStoreUp)
      ensures sessions == if ok then Purged(old(sessions), Normalize(rawName)) else old(sessions)
      ensures apiTokens == if ok then OwnedByOthers(old(apiTokens), Normalize(rawName)) else old(apiTokens)
    {
      hide Normalize;
      var name := Normalize(rawName);
      if name !in users || name == requester || !IsAdmin(users, requester) || !tokenStoreUp { return false; }
      apiTokens := OwnedByOthers(apiTokens, name);
      users := users - {name};
      Save();
      PurgeSessions(name);
      return true;
    }

    method RelabelSessions(oldName: string, newName: string)
      modifies this`sessions
      ensures sessions == Relabelled(old(sessions), oldName, newName)
    {
      hide Normalize;
      ghost var target := Relabelled(sessions, oldName, newName);
      var todo := sessions.Keys;
      while todo != {}
        invariant todo <= old(sessions).Keys == sessions.Keys == target.Keys
        invariant forall t :: t in sessions ==> sessions[t] == if t in todo then old(sessions)[t] else target[t]
      {
        var t :| t in todo;
        if Normalize(sessions[t].username) == oldName {
          sessions := sessions[t := sessions[t].(username := newName)];
        }
        todo := todo - {t};
      }
    }

    method Rename(rawOld: string, rawNew: string, rawRequester: string) returns (ok: bool)
      requires Saved()
      modifies this
      ensures Saved() && (users, ok) == RenameUser(old(users), rawOld, rawNew, rawRequester)
      ensures sessions == if ok then Relabelled(old(sessions), Normalize(rawOld), Normalize(rawNew)) else old(sessions)
      ensures apiTokens == old(apiTokens)
    {
      hide Normalize;
      var oldName, newName, requester := Normalize(rawOld), Normalize(rawNew), Normalize(rawRequester);
      if oldName == "" || newName == "" || newName in RESERVED_USERNAMES { return false; }
      if oldName !in users || newName in users || !IsAdmin(users, requester) { return false; }
      users := (users - {oldName})[newName := users[oldName]];
      Save();
      RelabelSessions(oldName, newName);
      return true;
    }

    method CountAdmins() returns (count: nat)
      ensures count == |Admins(users)|
    {
      var todo := users.Keys;
      count := 0;
      while todo != {}
        invariant todo <= users.Keys
        invariant count + |set u | u in todo && users[u].isAdmin| == |Admins(users)|
      {
        var u :| u in todo;
        var rest := todo - {u};
        ghost var before, after := set v | v in todo && users[v].isAdmin, set v | v in rest && users[v].isAdmin;
        assert before == if users[u].isAdmin then after + {u} else after;
        if users[u].isAdmin { count := count + 1; }
        todo := rest;
      }
    }

    /** The three writes of a promotion, in the order lock-free readers depend on. */
    method Promote(name: string)
      requires name in users
      modifies this`users
      ensures users == old(users)[name := Promoted(old(users)[name])]
    {
      users := users[name := users[name].(isAdmin := true)];
      users := users[name := users[name].(stash := Some(OrDefault(users[name].privileges)))];
      users := users[name := users[name].(privileges := Some(ADMIN_PRIVILEGES))];
    }

    method Demote(name: string)
      requires name in users
      modifies this`users
      ensures users == old(users)[name := Demoted(old(users)[name])]
    {
      var restored := OrDefault(users[name].stash);
      users := users[name := users[name].(stash := None)];
      users := users[name := users[name].(privileges := Some(restored))];
      users := users[name := users[name].(isAdmin := false)];
    }

    method SetAdminFlag(rawName: string, flag: bool, rawRequester: string) returns (result: SetAdminResult)
      requires Saved()
      modifies this`users, this`authJson
      ensures Saved() && (users, result) == SetAdmin(old(users), rawName, flag, rawRequester)
      ensures result != Ok ==> users == old(users)
      ensures result == Ok ==>
        && OnlyTouches(old(users), users, Normalize(rawName))
        && IsFlagChange(old(users)[Normalize(rawName)], flag, users[Normalize(rawName)])
    {
      FlagChangeIsExact(users, rawName, flag, rawRequester);
      hide IsFlagChange;
      var name, requester := Normalize(rawName), Normalize(rawRequester);
      if name !in users { return UserNotFound; }
      if !IsAdmin(users, requester) { return NotAuthorized; }
      if users[name].isAdmin == flag { return Ok; }
      if flag {
        Promote(name);
      } else {
        var adminCount := CountAdmins();
        if adminCount <= 1 { return LastAdmin; }
        Demote(name);
      }
      Save();
      return Ok;
    }

    method ApplyEdits(current: Privileges, changes: Privileges, known: set<Key>) returns (edited: Privileges)
      ensures edited == Edited(current, changes, known)
      ensures edited.Keys == current.Keys + (changes.Keys * known)
      ensures forall k :: k in changes && k in known ==> edited[k] == changes[k]
      ensures forall k :: k in current && !(k in changes && k in known) ==> edited[k] == current[k]
    {
      edited := current;
      var todo := changes.Keys;
      while todo != {}
        invariant todo <= changes.Keys
        invariant edited == Edited(current, changes - todo, known)
      {
        var k :| k in todo;
        if k in known { edited := edited[k := changes[k]]; }
        todo := todo - {k};
      }
      assert changes - todo == changes;
      EditedIsExact(current, changes, known);
    }

    method SetUserPrivileges(rawName: string, changes: Privileges) returns (ok: bool)
      requires Saved()
      modifies this`users, this`authJson
      ensures Saved() && (users, ok) == SetPrivileges(old(users), rawName, changes)
      ensures ok <==> Normalize(rawName) in old(users) && !IsAdmin(old(users), Normalize(rawName))
      ensures !ok ==> users == old(users)
      ensures ok ==>
        && OnlyTouches(old(users), users, Normalize(rawName))
        && IsEdit(old(users)[Normalize(rawName)], changes, users[Normalize(rawName)])
    {
      hide Normalize, IsEdit;
      EditSetsExactlyTheKnownKeys(users, rawName, changes);
      var name := Normalize(rawName);
      if name !in users || users[name].isAdmin { return false; }
      var current := ApplyEdits(Effective(users[name]), changes, DEFAULT_PRIVILEGES.Keys);
      users := users[name := users[name].(privileges := Some(current))];
      Save();
      return true;
    }

    /** `token` is the random token the call draws. */
    method CreateSessionTrusted(rawName: string, token: string, expiry: int) returns (ok: bool)
      modifies this`sessions
      ensures ok == (Normalize(rawName) in users)
      ensures sessions == if ok then old(sessions)[token := Session(Normalize(rawName), expiry)] else old(sessions)
      ensures forall s: State :: s.users == users && s.sessions == old(sessions) && token !in s.issued ==>
        Next(s, Issue(rawName, token, expiry)).sessions == sessions
    {
      var name := Normalize(rawName);
      if name !in users { return false; }
      sessions := sessions[token := Session(name, expiry)];
      return true;
    }

    method ValidateToken(token: string, now: int) returns (ok: bool)
      modifies this`sessions
      ensures sessions == Validated(users, old(sessions), token, now)
      ensures ok == (token in sessions)
    {
      if token !in sessions { return false; }
      if now > sessions[token].expiry {
        sessions := sessions - {token};
        return false;
      }
      if sessions[token].username !in users {
        sessions := sessions - {token};
        return false;
      }
      return true;
    }

    method RevokeUserSessions(rawName: string, except: Option<string>) returns (revoked: nat)
      modifies this`sessions
      ensures sessions == RevokedExcept(old(sessions), Normalize(rawName), except)
      ensures revoked == |old(sessions).Keys - sessions.Keys|
    {
      hide Normalize;
      var name := Normalize(rawName);
      ghost var before := sessions;
      var toDrop := set t | t in sessions && except != Some(t) && sessions[t].username == name;
      Drop(toDrop);
      assert sessions == RevokedExcept(before, name, except);
      assert before.Keys - sessions.Keys == toDrop;
      revoked := |toDrop|;
    }
  }
}
