/**
 * `get_privileges` reads a user record without the config lock, in two separate reads, while a lock holder may
 * be in the middle of a promotion, a demotion or a privilege edit. Here every single write is a step.
 */
module PrivilegeReads {
  import opened Prelude
  import opened Accounts

  /** How far the current holder of the config lock has got on this record. */
  datatype Writer =
    | Idle
    | Flagged                         // promotion: the admin flag is set
    | Stashed                         // promotion: and the old map is stashed
    | Popped(restored: Privileges)    // demotion: the stash is taken out
    | Restored                        // demotion: and written back

  datatype Record = Record(user: User, writer: Writer)

  datatype Write =
    | SetFlag | WriteStash | WriteAdminMap
    | PopStash | WriteRestored | ClearFlag
    | Edit(changes: Privileges)

  predicate Enabled(r: Record, w: Write) {
    match w
    case SetFlag => r.writer.Idle? && !r.user.isAdmin
    case WriteStash => r.writer.Flagged?
    case WriteAdminMap => r.writer.Stashed?
    case PopStash => r.writer.Idle? && r.user.isAdmin
    case WriteRestored => r.writer.Popped?
    case ClearFlag => r.writer.Restored?
    case Edit(_) => r.writer.Idle? && !r.user.isAdmin
  }

  function Apply(r: Record, w: Write): Record
    requires Enabled(r, w)
  {
    var u := r.user;
    match w
    case SetFlag => Record(u.(isAdmin := true), Flagged)
    case WriteStash => Record(u.(stash := Some(OrDefault(u.privileges))), Stashed)
    case WriteAdminMap => Record(u.(privileges := Some(ADMIN_PRIVILEGES)), Idle)
    case PopStash => Record(u.(stash := None), Popped(OrDefault(u.stash)))
    case WriteRestored => Record(u.(privileges := Some(r.writer.restored)), Restored)
    case ClearFlag => Record(u.(isAdmin := false), Idle)
    case Edit(changes) => Record(u.(privileges := Some(Edited(Effective(u), changes, DEFAULT_PRIVILEGES.Keys))), Idle)
  }

  /** The writes of an operation, run to its end, do exactly what the operation does under the lock. */
  lemma WritesComposeToOperations(u: User)
    ensures !u.isAdmin ==>
      Apply(Apply(Apply(Record(u, Idle), SetFlag), WriteStash), WriteAdminMap) == Record(Promoted(u), Idle)
    ensures u.isAdmin ==>
      Apply(Apply(Apply(Record(u, Idle), PopStash), WriteRestored), ClearFlag) == Record(Demoted(u), Idle)
  {
  }

  /** The one write of an edit gives the known keys their new values in the map in force, and nothing else. */
  lemma OneWriteIsAnEdit(u: User, changes: Privileges)
    requires !u.isAdmin
    ensures var r := Apply(Record(u, Idle), Edit(changes)); r.writer.Idle? && IsEdit(u, changes, r.user)
  {
    EditedIsExact(Effective(u), changes, DEFAULT_PRIVILEGES.Keys);
    hide DEFAULT_PRIVILEGES, Edited;
  }

  ghost predicate Step(a: Record, b: Record) {
    a == b || exists w: Write :: Enabled(a, w) && b == Apply(a, w)
  }

  /** Between two lock holders nothing is half done; inside an operation the flag is set. */
  ghost predicate Consistent(r: Record) {
    r.writer.Idle? || r.user.isAdmin
  }

  /** One record over time: any number of operations, one write per step, with any pauses. */
  ghost predicate IsHistory(h: seq<Record>) {
    && (h != [] ==> Consistent(h[0]))
    && forall i :: 0 <= i < |h| - 1 ==> Step(h[i], h[i + 1])
  }

  lemma {:induction false} HistoryIsConsistent(h: seq<Record>, i: nat)
    requires IsHistory(h) && i < |h|
    ensures Consistent(h[i])
  {
    if i > 0 {
      HistoryIsConsistent(h, i - 1);
      assert Step(h[i - 1], h[i - 1 + 1]);
    }
  }

  function Merged(p: Option<Privileges>): Privileges {
    DEFAULT_PRIVILEGES + p.GetOr(map[])
  }

  /** What a call returns that reads the flag at instant `i` and the stored map at instant `j`. */
  function ReaderResult(h: seq<Record>, i: nat, j: nat): Privileges
    requires i <= j < |h|
  {
    if h[i].user.isAdmin then ADMIN_PRIVILEGES else Merged(h[j].user.privileges)
  }

  ghost predicate WasEffective(h: seq<Record>, i: nat, j: nat, p: Privileges)
    requires i <= j < |h|
  {
    exists k: nat :: i <= k <= j && Effective(h[k].user) == p
  }

  lemma AdminMapAbsorbsDefaults()
    ensures DEFAULT_PRIVILEGES + ADMIN_PRIVILEGES == ADMIN_PRIVILEGES
  {
  }

  lemma MergedOrDefault(p: Option<Privileges>)
    ensures Merged(Some(OrDefault(p))) == Merged(p)
  {
  }

  /**
   * What a reader that saw the flag unset at `i` can rely on at `j`: every map now stored, or about to be
   * stored by a demotion under way, was effective at some instant since `i`.
   */
  ghost predicate ReadsAreExplained(h: seq<Record>, i: nat, j: nat)
    requires i <= j < |h|
  {
    var u, w := h[j].user, h[j].writer;
    && WasEffective(h, i, j, Merged(u.privileges))
    && (u.isAdmin && (w.Idle? || w.Stashed?) ==> WasEffective(h, i, j, Merged(Some(OrDefault(u.stash)))))
    && (w.Popped? ==> WasEffective(h, i, j, Merged(Some(w.restored))))
  }

  lemma ExplanationSurvivesStep(h: seq<Record>, i: nat, j: nat, w: Write)
    requires IsHistory(h) && i <= j < j + 1 < |h|
    requires Consistent(h[j]) && ReadsAreExplained(h, i, j)
    requires Enabled(h[j], w) && h[j + 1] == Apply(h[j], w)
    ensures ReadsAreExplained(h, i, j + 1)
  {
    forall p | WasEffective(h, i, j, p) ensures WasEffective(h, i, j + 1, p) {
    }
    var u := h[j].user;
    assert WasEffective(h, i, j + 1, Effective(h[j + 1].user));
    match w {
      case WriteStash => MergedOrDefault(u.privileges);
      case WriteAdminMap => AdminMapAbsorbsDefaults();
      case _ =>
    }
  }

  lemma ExplanationSurvivesPause(h: seq<Record>, i: nat, j: nat)
    requires i <= j < j + 1 < |h| && h[j + 1] == h[j] && ReadsAreExplained(h, i, j)
    ensures ReadsAreExplained(h, i, j + 1)
  {
  }

  lemma ExplanationSurvives(h: seq<Record>, i: nat, j: nat)
    requires IsHistory(h) && i <= j < j + 1 < |h| && Consistent(h[j]) && ReadsAreExplained(h, i, j)
    ensures ReadsAreExplained(h, i, j + 1)
  {
    assert Step(h[j], h[j + 1]);
    if h[j + 1] == h[j] {
      ExplanationSurvivesPause(h, i, j);
    } else {
      var w :| Enabled(h[j], w) && h[j + 1] == Apply(h[j], w);
      ExplanationSurvivesStep(h, i, j, w);
    }
  }

  lemma ExplanationStarts(h: seq<Record>, i: nat)
    requires i < |h| && Consistent(h[i]) && !h[i].user.isAdmin
    ensures ReadsAreExplained(h, i, i)
  {
  }

  lemma {:induction false} ReadsStayExplained(h: seq<Record>, i: nat, j: nat)
    requires IsHistory(h) && i <= j < |h| && !h[i].user.isAdmin
    ensures ReadsAreExplained(h, i, j)
    decreases j
  {
    if i == j {
      HistoryIsConsistent(h, i);
      ExplanationStarts(h, i);
    } else {
      ReadsStayExplained(h, i, j - 1);
      HistoryIsConsistent(h, j - 1);
      ExplanationSurvives(h, i, j - 1);
    }
  }

  /**
   * The lock-free reader is linearisable: whatever promotions, demotions and edits run between its two reads,
   * it returns the map that was in force at some instant of the call.
   */
  lemma LockFreeReadIsLinearizable(h: seq<Record>, i: nat, j: nat)
    requires IsHistory(h) && i <= j < |h|
    ensures WasEffective(h, i, j, ReaderResult(h, i, j))
  {
    if h[i].user.isAdmin {
      assert Effective(h[i].user) == ADMIN_PRIVILEGES;
    } else {
      ReadsStayExplained(h, i, j);
    }
  }

  /**
   * Because of the write order each operation changes the map in force in one write: a promotion when it sets
   * the flag, a demotion when it clears it, an edit when it stores. No other write changes what a reader sees.
   */
  lemma OneWriteDecides(r: Record, w: Write)
    requires Consistent(r) && Enabled(r, w)
    ensures Consistent(Apply(r, w))
    ensures !(w.SetFlag? || w.ClearFlag? || w.Edit?) ==> Effective(Apply(r, w).user) == Effective(r.user)
    ensures w.SetFlag? ==> Effective(Apply(r, w).user) == Effective(Promoted(r.user))
    ensures w.ClearFlag? ==> Effective(Apply(r, w).user) == Merged(r.user.privileges)
  {
  }
}
