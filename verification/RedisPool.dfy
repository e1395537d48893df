/**
 * The shared Redis pool of the backend: a failure cooldown checked outside an asyncio lock, a ping of the
 * published pool outside that lock, and creation inside it. A step is what one coroutine does between two
 * suspensions; any number of calls may be under way. Taking a free lock that nobody waits for does not suspend.
 * Times are in milliseconds of a monotonic clock.
 */
module RedisPool {
  import opened Prelude

  const COOLDOWN := 30_000

  /** What a call is waiting for. `Shutdown` is `close_redis_pool` waiting for the pool to close. */
  datatype Pc = FastPing | FastClosing | WantLock | LockedPing | LockedClosing | FirstPing | Shutdown

  /** `entered` and `seen` are history: the time of entry and the failure recorded then. */
  datatype Call = Call(pc: Pc, entered: int, seen: int)

  /** `lastFailure` is 0 when no failure is recorded. `answers` holds what finished calls returned. */
  datatype State = State(
    pool: Option<nat>, lastFailure: int, lock: Option<nat>, calls: map<nat, Call>,
    answers: map<nat, Option<nat>>, clock: int)

  /** What the coroutine resumes from. */
  datatype Event = Enter | Acquire | Pinged(ok: bool) | Closed | EnterShutdown | Cancel

  /** `made` is the client that building one in this step would give, or None if building one raises. */
  datatype Op = Op(c: nat, now: int, event: Event, made: Option<nat>)

  predicate InLock(pc: Pc) {
    pc.LockedPing? || pc.LockedClosing? || pc.FirstPing?
  }

  predicate Admits(s: State, now: int) {
    s.lastFailure == 0 || now - s.lastFailure >= COOLDOWN
  }

  predicate Enabled(s: State, op: Op) {
    && s.clock <= op.now
    && match op.event
       case Enter => op.c !in s.calls
       case EnterShutdown => op.c !in s.calls
       case Acquire => op.c in s.calls && s.calls[op.c].pc.WantLock? && s.lock.None?
       case Pinged(_) => op.c in s.calls && s.calls[op.c].pc in {FastPing, LockedPing, FirstPing}
       case Closed => op.c in s.calls && s.calls[op.c].pc in {FastClosing, LockedClosing, Shutdown}
       case Cancel => op.c in s.calls
  }

  function Wait(s: State, c: nat, pc: Pc): State
    requires c in s.calls
  {
    s.(calls := s.calls[c := s.calls[c].(pc := pc)])
  }

  /** Leaving the call, and with it the lock if it was held. */
  function Return(s: State, c: nat, answer: Option<nat>): State {
    s.(calls := s.calls - {c}, answers := s.answers[c := answer], lock := if s.lock == Some(c) then None else s.lock)
  }

  function Failed(s: State, c: nat): State {
    Return(s.(pool := None, lastFailure := s.clock), c, None)
  }

  /** The pool is published before it has answered its first ping. */
  function Make(s: State, c: nat, made: Option<nat>): State
    requires c in s.calls
  {
    if made.Some? then Wait(s.(pool := made), c, FirstPing) else Failed(s, c)
  }

  /** The start of the locked section. */
  function Locked(s: State, c: nat, made: Option<nat>): State
    requires c in s.calls
  {
    var held := s.(lock := Some(c));
    if s.pool.Some? then Wait(held, c, LockedPing) else Make(held, c, made)
  }

  /** The lock is free and nobody else waits for it. */
  predicate Free(lock: Option<nat>, calls: map<nat, Call>, c: nat) {
    lock.None? && forall d :: d in calls && d != c ==> !calls[d].pc.WantLock?
  }

  /** Reaching the lock: through it at once if it is free, else into its queue. */
  function Arrive(s: State, c: nat, made: Option<nat>, free: bool): State
    requires c in s.calls
  {
    if free then Locked(s, c, made) else Wait(s, c, WantLock)
  }

  function AfterEnter(s: State, c: nat, made: Option<nat>): State {
    if !Admits(s, s.clock) then Return(s, c, None)
    else
      var entered := s.(calls := s.calls[c := Call(FastPing, s.clock, s.lastFailure)]);
      if s.pool.Some? then entered else Arrive(entered, c, made, Free(s.lock, s.calls, c))
  }

  /** Closing a pool that somebody else has unpublished raises, which is ignored, without a suspension. */
  function AfterPing(s: State, c: nat, ok: bool, made: Option<nat>): State
    requires c in s.calls
  {
    var pc := s.calls[c].pc;
    if ok then
      // Whatever is published by now is returned, which need not be what was pinged.
      Return(if pc.FirstPing? then s.(lastFailure := 0) else s, c, s.pool)
    else
      match pc
      case FastPing => if s.pool.Some? then Wait(s, c, FastClosing) else Arrive(s, c, made, Free(s.lock, s.calls, c))
      case LockedPing => if s.pool.Some? then Wait(s, c, LockedClosing) else Make(s, c, made)
      case _ => Failed(s, c)
  }

  function AfterClose(s: State, c: nat, made: Option<nat>): State
    requires c in s.calls
  {
    var unpublished := s.(pool := None);
    match s.calls[c].pc
    case FastClosing => Arrive(unpublished, c, made, Free(s.lock, s.calls, c))
    case LockedClosing => Make(unpublished, c, made)
    case _ => Return(unpublished, c, None)
  }

  function Step(s: State, op: Op): State
    requires Enabled(s, op)
  {
    match op.event
    case Enter => AfterEnter(s, op.c, op.made)
    case EnterShutdown =>
      if s.pool.None? then Return(s, op.c, None)
      else s.(calls := s.calls[op.c := Call(Shutdown, s.clock, s.lastFailure)])
    case Acquire => Locked(s, op.c, op.made)
    case Pinged(ok) => AfterPing(s, op.c, ok, op.made)
    case Closed => AfterClose(s, op.c, op.made)
    case Cancel => Return(s, op.c, None)
  }

  function Next(s: State, op: Op): State {
    if Enabled(s, op) then var timed := s.(clock := op.now); Step(timed, op) else s
  }

  function Run(s: State, ops: seq<Op>): State
    decreases |ops|
  {
    if ops == [] then s else Run(Next(s, ops[0]), ops[1..])
  }

  const IDLE := State(None, 0, None, map[], map[], 1)

  // ---- What every step keeps ------------------------------------------------------------------

  ghost predicate Inv(s: State) {
    && 0 <= s.lastFailure <= s.clock && 0 < s.clock
    && (s.lock.Some? ==> s.lock.value in s.calls)
    && (forall c :: c in s.calls ==>
          && (InLock(s.calls[c].pc) <==> s.lock == Some(c))
          && s.calls[c].entered <= s.clock
          && (!s.calls[c].pc.Shutdown? ==> s.calls[c].seen == 0 || s.calls[c].entered - s.calls[c].seen >= COOLDOWN))
  }

  lemma LeavingKeepsInv(s: State, c: nat, answer: Option<nat>)
    requires Inv(s)
    ensures Inv(Return(s, c, answer)) && Inv(Failed(s, c))
  {
  }

  lemma WaitingKeepsInv(s: State, c: nat, pc: Pc)
    requires Inv(s) && c in s.calls && !s.calls[c].pc.Shutdown? && !pc.Shutdown?
    requires InLock(pc) <==> s.lock == Some(c)
    ensures Inv(Wait(s, c, pc))
  {
  }

  lemma LockingKeepsInv(s: State, c: nat, made: Option<nat>)
    requires Inv(s) && c in s.calls && !s.calls[c].pc.Shutdown? && s.lock.None?
    ensures Inv(Locked(s, c, made))
  {
  }

  lemma MakingKeepsInv(s: State, c: nat, made: Option<nat>)
    requires Inv(s) && c in s.calls && InLock(s.calls[c].pc)
    ensures Inv(Make(s, c, made)) && s.lock == Some(c)
  {
    LeavingKeepsInv(s, c, None);
    WaitingKeepsInv(s.(pool := made), c, FirstPing);
    hide Failed, Wait;
  }

  lemma ArrivingKeepsInv(s: State, c: nat, made: Option<nat>, free: bool)
    requires Inv(s) && c in s.calls && !s.calls[c].pc.Shutdown? && s.lock != Some(c) && (free ==> s.lock.None?)
    ensures Inv(Arrive(s, c, made, free))
  {
    if free { LockingKeepsInv(s, c, made); } else { WaitingKeepsInv(s, c, WantLock); }
    hide Inv, Locked, Wait;
  }

  lemma CallingKeepsInv(s: State, c: nat, pc: Pc)
    requires Inv(s) && c !in s.calls && !InLock(pc) && (pc.Shutdown? || Admits(s, s.clock))
    ensures s.lock != Some(c) && Inv(s.(calls := s.calls[c := Call(pc, s.clock, s.lastFailure)]))
  {
  }

  lemma EnterKeepsInv(s: State, c: nat, made: Option<nat>)
    requires Inv(s) && c !in s.calls
    ensures Inv(AfterEnter(s, c, made))
  {
    hide Inv, Return, Arrive;
    LeavingKeepsInv(s, c, None);
    if Admits(s, s.clock) {
      CallingKeepsInv(s, c, FastPing);
      var entered := s.(calls := s.calls[c := Call(FastPing, s.clock, s.lastFailure)]);
      ArrivingKeepsInv(entered, c, made, Free(s.lock, s.calls, c));
    }
  }

  lemma FailedFastPingKeepsInv(s: State, c: nat, made: Option<nat>)
    requires Inv(s) && c in s.calls && s.calls[c].pc.FastPing?
    ensures Inv(AfterPing(s, c, false, made))
  {
    assert s.lock != Some(c);
    hide Inv, Wait, Arrive;
    WaitingKeepsInv(s, c, FastClosing);
    ArrivingKeepsInv(s, c, made, Free(s.lock, s.calls, c));
  }

  lemma FailedLockedPingKeepsInv(s: State, c: nat, made: Option<nat>)
    requires Inv(s) && c in s.calls && s.calls[c].pc.LockedPing?
    ensures Inv(AfterPing(s, c, false, made))
  {
    assert s.lock == Some(c);
    hide Inv, Wait, Make;
    WaitingKeepsInv(s, c, LockedClosing);
    MakingKeepsInv(s, c, made);
  }

  lemma PingKeepsInv(s: State, c: nat, ok: bool, made: Option<nat>)
    requires Inv(s) && c in s.calls && s.calls[c].pc in {FastPing, LockedPing, FirstPing}
    ensures Inv(AfterPing(s, c, ok, made))
  {
    assert Inv(s.(lastFailure := 0));
    hide Inv, Return, Failed;
    LeavingKeepsInv(s, c, s.pool);
    LeavingKeepsInv(s.(lastFailure := 0), c, s.pool);
    if !ok && s.calls[c].pc.FastPing? { FailedFastPingKeepsInv(s, c, made); }
    if !ok && s.calls[c].pc.LockedPing? { FailedLockedPingKeepsInv(s, c, made); }
    hide Wait, Arrive, Make;
  }

  lemma CloseKeepsInv(s: State, c: nat, made: Option<nat>)
    requires Inv(s) && c in s.calls && s.calls[c].pc in {FastClosing, LockedClosing, Shutdown}
    ensures Inv(AfterClose(s, c, made))
  {
    var u := s.(pool := None);
    assert Inv(u) && (InLock(s.calls[c].pc) <==> s.lock == Some(c));
    hide Inv, Return, Arrive, Make;
    LeavingKeepsInv(u, c, None);
    match s.calls[c].pc
    case FastClosing => ArrivingKeepsInv(u, c, made, Free(s.lock, s.calls, c));
    case LockedClosing => MakingKeepsInv(u, c, made);
    case _ =>
  }

  lemma StepKeepsInv(s: State, op: Op)
    requires Inv(s)
    ensures Inv(Next(s, op)) && s.clock <= Next(s, op).clock
  {
    if Enabled(s, op) {
      var t := s.(clock := op.now);
      assert Inv(t) && t.clock <= Step(t, op).clock;
      hide Inv, Arrive, Locked, AfterEnter, AfterPing, AfterClose;
      LeavingKeepsInv(t, op.c, None);
      match op.event
      case Enter => EnterKeepsInv(t, op.c, op.made);
      case EnterShutdown => CallingKeepsInv(t, op.c, Shutdown);
      case Cancel =>
      case Acquire => LockingKeepsInv(t, op.c, op.made);
      case Pinged(ok) => PingKeepsInv(t, op.c, ok, op.made);
      case Closed => CloseKeepsInv(t, op.c, op.made);
    }
  }

  lemma {:induction false} RunKeepsInv(s: State, ops: seq<Op>)
    requires Inv(s)
    ensures Inv(Run(s, ops)) && s.clock <= Run(s, ops).clock
    decreases |ops|
  {
    if ops != [] {
      StepKeepsInv(s, ops[0]);
      RunKeepsInv(Next(s, ops[0]), ops[1..]);
    }
  }

  /** The call is between building a client and learning whether it answers. */
  predicate Creating(s: State, c: nat) {
    c in s.calls && s.calls[c].pc.FirstPing?
  }

  /** The step comes to the lock with no pool published and finds the lock free, or holds it already. */
  predicate Attempts(s: State, op: Op) {
    && Enabled(s, op)
    && match op.event
       case Enter => Admits(s, op.now) && s.pool.None? && Free(s.lock, s.calls, op.c)
       case Acquire => s.pool.None?
       case Pinged(ok) =>
         var pc := s.calls[op.c].pc;
         !ok && s.pool.None? && (pc.LockedPing? || (pc.FastPing? && Free(s.lock, s.calls, op.c)))
       case Closed => s.calls[op.c].pc.LockedClosing? || (s.calls[op.c].pc.FastClosing? && Free(s.lock, s.calls, op.c))
       case _ => false
  }

  /** Such a step is what publishes a new client, and nothing else does; without one it records a failure. */
  lemma AttemptsAreWhatPublishes(s: State, op: Op)
    requires Inv(s)
    ensures var e := Next(s, op);
      if Attempts(s, op) then
        if op.made.Some? then Creating(e, op.c) && e.pool == op.made else e.pool.None? && e.lastFailure == op.now
      else e.pool.None? || e.pool == s.pool
  {
  }

  /** The failure on record when the call of this step entered. */
  function SeenBy(s: State, op: Op): int {
    if op.c in s.calls then s.calls[op.c].seen else s.lastFailure
  }

  /**
   * In every run, calls create pools one at a time, and one that tries to connect found no failure on record when
   * it entered, or one at least the cooldown old.
   */
  lemma AttemptsAreAdmittedAndExclusive(ops: seq<Op>, op: Op)
    requires Attempts(Run(IDLE, ops), op)
    ensures var s := Run(IDLE, ops);
      && (forall c :: Creating(s, c) ==> c == op.c)
      && (forall c, d :: Creating(s, c) && Creating(s, d) ==> c == d)
      && (SeenBy(s, op) == 0 || op.now - SeenBy(s, op) >= COOLDOWN)
  {
    RunKeepsInv(IDLE, ops);
  }

  // ---- A recorded failure means no pool -------------------------------------------------------

  ghost predicate NoStalePool(s: State) {
    s.lastFailure != 0 && s.lock.None? ==> s.pool.None?
  }

  /** Inside the lock, only a pool waiting for its first ping may stand beside a recorded failure. */
  ghost predicate PoolOnTrial(s: State) {
    s.lastFailure != 0 && s.pool.Some? ==> s.lock.Some? && Creating(s, s.lock.value)
  }

  /** Cancelling a creator in its first ping leaves its pool published: the handler catches only `Exception`. */
  predicate AbandonsTrial(s: State, op: Op) {
    Enabled(s, op) && op.event.Cancel? && Creating(s, op.c) && s.pool.Some? && s.lastFailure != 0
  }

  lemma TrialStep(s: State, op: Op)
    requires Inv(s) && PoolOnTrial(s)
    ensures AbandonsTrial(s, op) ==> !NoStalePool(Next(s, op))
    ensures !AbandonsTrial(s, op) ==> PoolOnTrial(Next(s, op))
  {
  }

  ghost predicate NeverAbandons(s: State, ops: seq<Op>)
    decreases |ops|
  {
    ops != [] ==> !AbandonsTrial(s, ops[0]) && NeverAbandons(Next(s, ops[0]), ops[1..])
  }

  ghost predicate NeverStale(s: State, ops: seq<Op>)
    decreases |ops|
  {
    NoStalePool(s) && (ops != [] ==> NeverStale(Next(s, ops[0]), ops[1..]))
  }

  /**
   * Throughout a run a recorded failure with the lock free means that no pool is published, exactly if no creator
   * is cancelled in its first ping while a failure is on record.
   */
  lemma {:induction false} FailureMeansNoPoolExactlyWithoutCancellation(s: State, ops: seq<Op>)
    requires Inv(s) && PoolOnTrial(s)
    ensures NeverStale(s, ops) <==> NeverAbandons(s, ops)
    decreases |ops|
  {
    if ops != [] {
      StepKeepsInv(s, ops[0]);
      TrialStep(s, ops[0]);
      if !AbandonsTrial(s, ops[0]) { FailureMeansNoPoolExactlyWithoutCancellation(Next(s, ops[0]), ops[1..]); }
    }
  }

  // ---- How far apart failures are -------------------------------------------------------------

  /** A new client does not answer, or building one raises. */
  predicate Fails(s: State, op: Op) {
    || (Enabled(s, op) && op.event == Pinged(false) && Creating(s, op.c))
    || (Attempts(s, op) && op.made.None?)
  }

  predicate Succeeds(s: State, op: Op) {
    Enabled(s, op) && op.event == Pinged(true) && Creating(s, op.c)
  }

  ghost predicate NeverSucceeds(s: State, ops: seq<Op>)
    decreases |ops|
  {
    ops != [] ==> !Succeeds(s, ops[0]) && NeverSucceeds(Next(s, ops[0]), ops[1..])
  }

  /** Only a success forgets a failure, and only a failure replaces it, by a later one. */
  lemma RecordMoves(s: State, op: Op)
    requires Inv(s)
    ensures var e := Next(s, op);
      if Fails(s, op) then e.lastFailure == op.now
      else if Succeeds(s, op) then e.lastFailure == 0
      else e.lastFailure == s.lastFailure
  {
  }

  lemma {:induction false} FailureIsRemembered(s: State, ops: seq<Op>)
    requires Inv(s) && s.lastFailure != 0 && NeverSucceeds(s, ops)
    ensures s.lastFailure <= Run(s, ops).lastFailure
    decreases |ops|
  {
    if ops != [] {
      StepKeepsInv(s, ops[0]);
      RecordMoves(s, ops[0]);
      FailureIsRemembered(Next(s, ops[0]), ops[1..]);
    }
  }

  /**
   * Two failed attempts are at least the cooldown apart when the second call entered after the first failure and
   * nobody connected in between, whatever else ran. The second may fail in the step in which it enters; in fact
   * every step from there on comes that late.
   */
  lemma FailedAttemptsAreApart(s: State, first: Op, between: seq<Op>, enter: Op, during: seq<Op>, second: Op)
    requires Inv(s) && Fails(s, first) && NeverSucceeds(Next(s, first), between)
    requires enter.event.Enter? && Enabled(Run(Next(s, first), between), enter)
    requires Admits(Run(Next(s, first), between), enter.now)
    requires second == enter || Enabled(Run(Next(Run(Next(s, first), between), enter), during), second)
    ensures second.now - first.now >= COOLDOWN
  {
    var s1 := Next(s, first);
    StepKeepsInv(s, first);
    RecordMoves(s, first);
    FailureIsRemembered(s1, between);
    RunKeepsInv(s1, between);
    var s2 := Run(s1, between);
    StepKeepsInv(s2, enter);
    RunKeepsInv(Next(s2, enter), during);
  }

  /**
   * From any later state, every call that will be admitted comes at least the cooldown after a failure recorded at
   * time t, exactly if a failure is still on record or the cooldown is already over.
   */
  lemma CooldownHoldsExactlyWhileRemembered(s: State, ops: seq<Op>)
    requires Inv(s) && s.lastFailure != 0
    ensures var e, t := Run(s, ops), s.lastFailure;
      (forall now :: e.clock <= now && Admits(e, now) ==> now - t >= COOLDOWN)
      <==> e.lastFailure >= t || e.clock - t >= COOLDOWN
  {
    RunKeepsInv(s, ops);
    LaterFailuresAreLater(s, ops, s.lastFailure);
    var e := Run(s, ops);
    assert e.lastFailure == 0 ==> Admits(e, e.clock);
  }

  lemma {:induction false} LaterFailuresAreLater(s: State, ops: seq<Op>, t: int)
    requires Inv(s) && t <= s.clock && (s.lastFailure != 0 ==> t <= s.lastFailure)
    ensures Run(s, ops).lastFailure != 0 ==> t <= Run(s, ops).lastFailure
    decreases |ops|
  {
    if ops != [] {
      StepKeepsInv(s, ops[0]);
      RecordMoves(s, ops[0]);
      LaterFailuresAreLater(Next(s, ops[0]), ops[1..], t);
    }
  }

  // ---- What a call that connects returns ------------------------------------------------------

  /** Somebody's close of a pool finishes; it unpublishes whatever is published by then. */
  predicate Unpublishes(s: State, op: Op) {
    Enabled(s, op) && op.event.Closed?
  }

  ghost predicate NeverUnpublishes(s: State, ops: seq<Op>)
    decreases |ops|
  {
    ops != [] ==> !Unpublishes(s, ops[0]) && NeverUnpublishes(Next(s, ops[0]), ops[1..])
  }

  lemma OthersDuringATrial(s: State, op: Op, c: nat)
    requires Inv(s) && Creating(s, c) && op.c != c
    ensures var e := Next(s, op); Creating(e, c) && e.pool == if Unpublishes(s, op) then None else s.pool
  {
  }

  lemma {:induction false} PoolDuringATrial(s: State, ops: seq<Op>, c: nat)
    requires Inv(s) && Creating(s, c) && forall i :: 0 <= i < |ops| ==> ops[i].c != c
    ensures var e := Run(s, ops); Creating(e, c) && e.pool == if NeverUnpublishes(s, ops) then s.pool else None
    decreases |ops|
  {
    if ops != [] {
      StepKeepsInv(s, ops[0]);
      OthersDuringATrial(s, ops[0], c);
      PoolDuringATrial(Next(s, ops[0]), ops[1..], c);
    }
  }

  /**
   * A call whose new client answers its first ping returns that client exactly if no slow close of an older pool
   * finished in the meantime; otherwise it returns nothing, and no failure is on record.
   */
  lemma ConnectedCallReturnsItsPoolExactly(s: State, during: seq<Op>, c: nat, p: nat, now: int)
    requires Inv(s) && Creating(s, c) && s.pool == Some(p)
    requires (forall i :: 0 <= i < |during| ==> during[i].c != c) && Run(s, during).clock <= now
    ensures var e := Next(Run(s, during), Op(c, now, Pinged(true), None));
      && c in e.answers && e.lastFailure == 0 && e.lock.None?
      && e.answers[c] == (if NeverUnpublishes(s, during) then Some(p) else None)
      && e.pool == e.answers[c]
  {
    PoolDuringATrial(s, during, c);
    RunKeepsInv(s, during);
  }

  // ---- What every other call returns ----------------------------------------------------------

  /** A call comes to ping a pool that is published: on entering, or when it gets the lock. */
  predicate Asks(s: State, op: Op) {
    && Enabled(s, op) && s.pool.Some?
    && ((op.event.Enter? && Admits(s, op.now)) || op.event.Acquire?)
  }

  predicate Pinging(s: State, c: nat) {
    c in s.calls && (s.calls[c].pc.FastPing? || s.calls[c].pc.LockedPing?)
  }

  lemma AskingIsPinging(s: State, op: Op)
    requires Inv(s) && Asks(s, op)
    ensures var e := Next(s, op);
      Pinging(e, op.c) && e.pool == s.pool && e.lastFailure == s.lastFailure && e.answers == s.answers
  {
  }

  /** A step takes the published pool away: a close that finishes, or a client on trial that does not answer. */
  predicate Withdraws(s: State, op: Op) {
    Unpublishes(s, op) || Fails(s, op)
  }

  ghost predicate NeverWithdraws(s: State, ops: seq<Op>)
    decreases |ops|
  {
    ops != [] ==> !Withdraws(s, ops[0]) && NeverWithdraws(Next(s, ops[0]), ops[1..])
  }

  lemma OthersLeaveAPing(s: State, op: Op, c: nat)
    requires Inv(s) && Pinging(s, c) && op.c != c
    ensures Pinging(Next(s, op), c)
  {
    hide Inv;
  }

  lemma WithdrawnIsGone(s: State, op: Op, p: nat)
    requires Inv(s) && op.made != Some(p) && Withdraws(s, op)
    ensures Next(s, op).pool != Some(p)
  {
    AttemptsAreWhatPublishes(s, op);
    hide Inv;
  }

  lemma WithoutWithdrawingItStays(s: State, op: Op, p: nat)
    requires Inv(s) && op.made != Some(p) && !Withdraws(s, op)
    ensures Next(s, op).pool == Some(p) <==> s.pool == Some(p)
  {
    AttemptsAreWhatPublishes(s, op);
    hide Inv;
  }

  lemma OthersDuringAPing(s: State, op: Op, c: nat, p: nat)
    requires Inv(s) && Pinging(s, c) && op.c != c && op.made != Some(p)
    ensures var e := Next(s, op);
      && Pinging(e, c)
      && (e.pool == Some(p) <==> s.pool == Some(p) && !Withdraws(s, op))
  {
    hide *;
    OthersLeaveAPing(s, op, c);
    if Withdraws(s, op) { WithdrawnIsGone(s, op, p); } else { WithoutWithdrawingItStays(s, op, p); }
  }

  lemma {:induction false} PoolDuringAPing(s: State, ops: seq<Op>, c: nat, p: nat)
    requires Inv(s) && Pinging(s, c) && forall i :: 0 <= i < |ops| ==> ops[i].c != c && ops[i].made != Some(p)
    ensures var e := Run(s, ops);
      Inv(e) && Pinging(e, c) && (e.pool == Some(p) <==> s.pool == Some(p) && NeverWithdraws(s, ops))
    decreases |ops|
  {
    if ops != [] {
      StepKeepsInv(s, ops[0]);
      OthersDuringAPing(s, ops[0], c, p);
      hide Inv, Next, Withdraws, Pinging;
      PoolDuringAPing(Next(s, ops[0]), ops[1..], c, p);
    }
  }

  /**
   * A call that finds a pool published and whose ping of it succeeds answers what is published at that moment, and
   * leaves that and the failure on record as they are. It is the pool that was pinged exactly if none of the steps
   * in between took it away. Clients built in between are other ones.
   */
  lemma PingedCallReturnsThePublishedPool(s: State, asks: Op, during: seq<Op>, p: nat, now: int, made: Option<nat>)
    requires Inv(s) && Asks(s, asks) && s.pool == Some(p)
    requires forall i :: 0 <= i < |during| ==> during[i].c != asks.c && during[i].made != Some(p)
    requires Run(Next(s, asks), during).clock <= now
    ensures var m := Run(Next(s, asks), during);
      var e := Next(m, Op(asks.c, now, Pinged(true), made));
      && e.answers == m.answers[asks.c := m.pool]
      && (m.pool == Some(p) <==> NeverWithdraws(Next(s, asks), during))
      && e.pool == m.pool && e.lastFailure == m.lastFailure
      && e.lock != Some(asks.c) && e.calls == m.calls - {asks.c}
  {
    StepKeepsInv(s, asks);
    AskingIsPinging(s, asks);
    PoolDuringAPing(Next(s, asks), during, asks.c, p);
    PingOfAPublishedPool(Run(Next(s, asks), during), asks.c, now, made);
    hide *;
  }

  lemma PingOfAPublishedPool(s: State, c: nat, now: int, made: Option<nat>)
    requires Inv(s) && Pinging(s, c) && s.clock <= now
    ensures var e := Next(s, Op(c, now, Pinged(true), made));
      && e.answers == s.answers[c := s.pool] && e.pool == s.pool && e.lastFailure == s.lastFailure
      && e.lock != Some(c) && e.calls == s.calls - {c}
  {
  }

  /** During the cooldown a call answers nothing at once and changes nothing else. */
  lemma RefusedCallAnswersNothing(s: State, op: Op)
    requires Inv(s) && Enabled(s, op) && op.event.Enter? && s.lastFailure != 0 && op.now - s.lastFailure < COOLDOWN
    ensures Next(s, op) == s.(answers := s.answers[op.c := None], clock := op.now)
  {
  }

  /** A call whose client cannot be built or does not answer returns nothing and leaves a failure and no pool. */
  lemma FailedCallAnswersNothing(s: State, op: Op)
    requires Inv(s) && Fails(s, op)
    ensures var e := Next(s, op);
      && e.answers == s.answers[op.c := None] && op.c !in e.calls && e.pool.None? && e.lastFailure == op.now
      && e.lock.None? && forall c :: c in s.calls && c != op.c ==> c in e.calls && e.calls[c] == s.calls[c]
  {
  }

  /**
   * A ping of a published pool that fails starts closing what is published; with nothing published any more, or
   * once the close is over, the call comes to the lock with no pool, or makes a client if it is inside.
   */
  lemma DeadPoolIsClosedAndReplaced(s: State, op: Op)
    requires Inv(s) && Enabled(s, op)
    requires op.event == Pinged(false) || op.event.Closed?
    requires s.calls[op.c].pc in {FastPing, FastClosing, LockedPing, LockedClosing}
    ensures var e, inside := Next(s, op), InLock(s.calls[op.c].pc);
      if op.event.Pinged? && s.pool.Some? then
        && op.c in e.calls && e.calls[op.c].pc == (if inside then LockedClosing else FastClosing)
        && e == s.(calls := e.calls, clock := op.now) && e.calls == s.calls[op.c := e.calls[op.c]]
      else if inside || Free(s.lock, s.calls, op.c) then Attempts(s, op)
      else op.c in e.calls && e.calls[op.c].pc.WantLock? && e.pool.None? && e.lastFailure == s.lastFailure
  {
  }

  /** A call that comes to the lock does not overtake another that waits for it. */
  lemma WaitingCallIsNotOvertaken(s: State, op: Op, d: nat)
    requires Inv(s) && Enabled(s, op) && !op.event.Acquire?
    requires d in s.calls && d != op.c && s.calls[d].pc.WantLock?
    ensures var e := Next(s, op);
      && (s.lock != Some(op.c) ==> e.lock == s.lock && !Creating(e, op.c))
      && d in e.calls && e.calls[d] == s.calls[d]
  {
  }

  /** A cancelled call gives up its lock and changes neither what is published nor the failure on record. */
  lemma CancelledCallOnlyLeaves(s: State, op: Op)
    requires Inv(s) && Enabled(s, op) && op.event.Cancel?
    ensures var e := Next(s, op);
      && op.c !in e.calls && e.lock != Some(op.c) && e.pool == s.pool && e.lastFailure == s.lastFailure
      && (s.lock != Some(op.c) ==> e.lock == s.lock) && e.calls == s.calls - {op.c}
  {
  }

  /** Shutting down changes nothing until it is through; then no pool is published. */
  lemma ShutdownUnpublishes(s: State, op: Op)
    requires Inv(s) && Enabled(s, op)
    requires op.event.EnterShutdown? || (op.event.Closed? && s.calls[op.c].pc.Shutdown?)
    ensures var e := Next(s, op);
      && e.lastFailure == s.lastFailure && e.lock == s.lock
      && (op.c in e.calls ==> e.calls[op.c].pc.Shutdown? && e.pool == s.pool && s.pool.Some?)
      && (op.c !in e.calls ==> e.pool.None? && e.answers == s.answers[op.c := None])
  {
  }

  // ---- Runs that go wrong ---------------------------------------------------------------------

  lemma {:induction false} RunSnoc(s: State, ops: seq<Op>, op: Op)
    ensures Run(s, ops + [op]) == Next(Run(s, ops), op)
    decreases |ops|
  {
    if ops == [] {
      assert ops + [op] == [op] && [op][1..] == [];
    } else {
      assert (ops + [op])[1..] == ops[1..] + [op];
      RunSnoc(Next(s, ops[0]), ops[1..], op);
    }
  }

  /** One more step of a run whose state is known. */
  lemma Then(start: State, ops: seq<Op>, s: State, op: Op, e: State)
    requires Run(start, ops) == s && Next(s, op) == e
    ensures Run(start, ops + [op]) == e
  {
    RunSnoc(start, ops, op);
  }

  /**
   * A connection made by an overlapping call forgets the failure: call 2 finds the client that call 1 is trying,
   * call 1 fails, call 2 connects with a client of its own, and call 3, which enters after that, fails one
   * millisecond after call 1.
   */
  lemma SuccessBetweenForgetsTheFailure(p: nat, q: nat, r: nat)
    returns (before: seq<Op>, first: Op, between: seq<Op>, second: Op)
    ensures Fails(Run(IDLE, before), first)
    ensures var failed := Next(Run(IDLE, before), first);
      && first.c !in failed.calls && second.c !in failed.calls
      && Fails(Run(failed, between), second) && second.now - first.now == 1
  {
    first, second := Op(1, 1, Pinged(false), None), Op(3, 2, Pinged(false), None);
    var s2 := State(
      Some(p), 0, Some(1), map[1 := Call(FirstPing, 1, 0), 2 := Call(FastPing, 1, 0)], map[], 1);
    before := TwoEnter(p, s2);
    var s3 := State(None, 1, None, map[2 := Call(FastPing, 1, 0)], map[1 := None], 1);
    assert Next(s2, first).calls == map[2 := Call(FastPing, 1, 0)];
    assert Next(s2, first) == s3;
    var s5 := State(Some(q), 0, None, map[], map[1 := None, 2 := Some(q)], 1);
    var connected := SecondConnects(s3, q, s5);
    var s8 := State(Some(r), 0, Some(3), map[3 := Call(FirstPing, 2, 0)], map[1 := None, 2 := Some(q)], 2);
    between := ThirdReplaces(s3, connected, s5, r, s8);
  }

  lemma TwoEnter(p: nat, e: State) returns (ops: seq<Op>)
    requires e == State(
      Some(p), 0, Some(1), map[1 := Call(FirstPing, 1, 0), 2 := Call(FastPing, 1, 0)], map[], 1)
    ensures Run(IDLE, ops) == e
  {
    var s1 := State(Some(p), 0, Some(1), map[1 := Call(FirstPing, 1, 0)], map[], 1);
    Then(IDLE, [], IDLE, Op(1, 1, Enter, Some(p)), s1);
    ops := [] + [Op(1, 1, Enter, Some(p))];
    Then(IDLE, ops, s1, Op(2, 1, Enter, None), e);
    ops := ops + [Op(2, 1, Enter, None)];
  }

  /** Its own ping fails, nothing is published any more, and the lock is free. */
  lemma SecondConnects(s: State, q: nat, e: State) returns (ops: seq<Op>)
    requires s == State(None, 1, None, map[2 := Call(FastPing, 1, 0)], map[1 := None], 1)
    requires e == State(Some(q), 0, None, map[], map[1 := None, 2 := Some(q)], 1)
    ensures Run(s, ops) == e
  {
    var s1 := State(Some(q), 1, Some(2), map[2 := Call(FirstPing, 1, 0)], map[1 := None], 1);
    Then(s, [], s, Op(2, 1, Pinged(false), Some(q)), s1);
    ops := [] + [Op(2, 1, Pinged(false), Some(q))];
    assert Next(s1, Op(2, 1, Pinged(true), None)).calls == map[];
    Then(s, ops, s1, Op(2, 1, Pinged(true), None), e);
    ops := ops + [Op(2, 1, Pinged(true), None)];
  }

  /** The published client no longer answers; it is closed and replaced by `r`, which is on trial. */
  lemma ThirdReplaces(start: State, before: seq<Op>, s: State, r: nat, e: State) returns (ops: seq<Op>)
    requires Run(start, before) == s && s.calls == map[] && s.clock == 1
    requires s.pool.Some? && s.lastFailure == 0 && s.lock.None?
    requires e == s.(pool := Some(r), lock := Some(3), calls := map[3 := Call(FirstPing, 2, 0)], clock := 2)
    ensures Run(start, ops) == e
  {
    var s1 := s.(calls := map[3 := Call(FastPing, 2, 0)], clock := 2);
    Then(start, before, s, Op(3, 2, Enter, None), s1);
    ops := before + [Op(3, 2, Enter, None)];
    var s2 := s1.(calls := map[3 := Call(FastClosing, 2, 0)]);
    Then(start, ops, s1, Op(3, 2, Pinged(false), None), s2);
    ops := ops + [Op(3, 2, Pinged(false), None)];
    Then(start, ops, s2, Op(3, 2, Closed, Some(r)), e);
    ops := ops + [Op(3, 2, Closed, Some(r))];
  }

  /**
   * A run in which a call connects and returns nothing: call 2 is still closing the old client when call 3, done
   * with closing it, publishes a new one; the end of call 2's close unpublishes that.
   */
  lemma SlowCloseLosesTheNewPool(p: nat, q: nat) returns (ops: seq<Op>)
    ensures var e := Run(IDLE, ops);
      3 in e.answers && e.answers[3] == None && e.lastFailure == 0 && e.pool.None? && e.lock.None?
  {
    var s3 := State(Some(p), 0, None, map[2 := Call(FastClosing, 1, 0)], map[1 := Some(p)], 1);
    ops := OneClosing(p, s3);
    var s4 := s3.(calls := map[2 := Call(FastClosing, 1, 0), 3 := Call(FastPing, 1, 0)]);
    Then(IDLE, ops, s3, Op(3, 1, Enter, None), s4);
    ops := ops + [Op(3, 1, Enter, None)];
    var s5 := s3.(calls := map[2 := Call(FastClosing, 1, 0), 3 := Call(FastClosing, 1, 0)]);
    Then(IDLE, ops, s4, Op(3, 1, Pinged(false), None), s5);
    ops := ops + [Op(3, 1, Pinged(false), None)];
    ops := OvertakenClose(ops, s5, q);
  }

  lemma OneClosing(p: nat, e: State) returns (ops: seq<Op>)
    requires e == State(Some(p), 0, None, map[2 := Call(FastClosing, 1, 0)], map[1 := Some(p)], 1)
    ensures Run(IDLE, ops) == e
  {
    var s1 := State(Some(p), 0, Some(1), map[1 := Call(FirstPing, 1, 0)], map[], 1);
    Then(IDLE, [], IDLE, Op(1, 1, Enter, Some(p)), s1);
    ops := [] + [Op(1, 1, Enter, Some(p))];
    var s2 := State(Some(p), 0, None, map[], map[1 := Some(p)], 1);
    assert Next(s1, Op(1, 1, Pinged(true), None)).calls == map[];
    Then(IDLE, ops, s1, Op(1, 1, Pinged(true), None), s2);
    ops := ops + [Op(1, 1, Pinged(true), None)];
    var s3 := s2.(calls := map[2 := Call(FastPing, 1, 0)]);
    Then(IDLE, ops, s2, Op(2, 1, Enter, None), s3);
    ops := ops + [Op(2, 1, Enter, None)];
    Then(IDLE, ops, s3, Op(2, 1, Pinged(false), None), e);
    ops := ops + [Op(2, 1, Pinged(false), None)];
  }

  lemma OvertakenClose(before: seq<Op>, s: State, q: nat) returns (ops: seq<Op>)
    requires Run(IDLE, before) == s && s.lastFailure == 0 && s.lock.None? && s.clock == 1
    requires s.calls == map[2 := Call(FastClosing, 1, 0), 3 := Call(FastClosing, 1, 0)]
    ensures var e := Run(IDLE, ops);
      3 in e.answers && e.answers[3] == None && e.lastFailure == 0 && e.pool.None? && e.lock.None?
  {
    var s1 := s.(pool := Some(q), lock := Some(3), calls := s.calls[3 := Call(FirstPing, 1, 0)]);
    Then(IDLE, before, s, Op(3, 1, Closed, Some(q)), s1);
    ops := before + [Op(3, 1, Closed, Some(q))];
    var s2 := s1.(pool := None, calls := s1.calls[2 := Call(WantLock, 1, 0)]);
    Then(IDLE, ops, s1, Op(2, 1, Closed, None), s2);
    ops := ops + [Op(2, 1, Closed, None)];
    Then(IDLE, ops, s2, Op(3, 1, Pinged(true), None), Next(s2, Op(3, 1, Pinged(true), None)));
    ops := ops + [Op(3, 1, Pinged(true), None)];
  }

  /** A run in which the first ping after a failure is cancelled: the failure stays on record beside a pool. */
  lemma CancelledTrialLeavesAPool(p: nat, q: nat) returns (ops: seq<Op>)
    ensures var e := Run(IDLE, ops); !NoStalePool(e) && e.pool == Some(q) && e.calls == map[]
  {
    var s1 := State(Some(p), 0, Some(1), map[1 := Call(FirstPing, 1, 0)], map[], 1);
    Then(IDLE, [], IDLE, Op(1, 1, Enter, Some(p)), s1);
    ops := [] + [Op(1, 1, Enter, Some(p))];
    var s2 := State(None, 1, None, map[], map[1 := None], 1);
    assert Next(s1, Op(1, 1, Pinged(false), None)).calls == map[];
    Then(IDLE, ops, s1, Op(1, 1, Pinged(false), None), s2);
    ops := ops + [Op(1, 1, Pinged(false), None)];
    var later := 1 + COOLDOWN;
    var s3 := State(Some(q), 1, Some(2), map[2 := Call(FirstPing, later, 1)], map[1 := None], later);
    Then(IDLE, ops, s2, Op(2, later, Enter, Some(q)), s3);
    ops := ops + [Op(2, later, Enter, Some(q))];
    var e := Next(s3, Op(2, later, Cancel, None));
    assert e.calls == map[];
    Then(IDLE, ops, s3, Op(2, later, Cancel, None), e);
    ops := ops + [Op(2, later, Cancel, None)];
  }
}
