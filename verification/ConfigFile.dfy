/**
 * The user table in memory and its file auth.json: one lock, under which the table is changed and then saved by
 * `AtomicIO`, while other writers of other files and the kernel take their steps on the same file system.
 */
module ConfigFile {
  import opened Prelude
  import opened Accounts
  import Disk = AtomicIO

  /**
   * What the holder of the config lock is doing. `renamed` says whether the save under way has published yet.
   * An operation that refuses releases the lock from `Checking`.
   */
  datatype Holder = Free | Checking | Changed | Saving(w: nat, renamed: bool) | Done

  /** `trusted` records that no save has failed, and nothing crashed, since the table was last saved or loaded. */
  datatype State = State(users: Users, holder: Holder, fs: Disk.Fs, trusted: bool)

  /** The path of the file, and the JSON text of a table. */
  datatype File = File(path: string, encode: Users -> string)

  datatype Op =
    | Acquire
    | Change(users: Users)
    | StartSave(w: nat, suffix: string)
    | OnDisk(step: Disk.Op)  // a step of any writer, or of the kernel
    | EndSave                // the write returns, or raises if it did not get to its rename
    | Release
    | Crash
    | Load(users: Users)     // the restart after a crash

  predicate Enabled(s: State, op: Op, file: File) {
    match op
    case Acquire => s.holder.Free?
    case Change(_) => s.holder.Checking? || s.holder.Changed?
    case StartSave(w, suffix) =>
      s.holder.Changed? && Disk.Enabled(s.fs, Disk.Begin(w, file.path, file.encode(s.users), suffix))
    case OnDisk(step) => !step.Crash? && !(step.Begin? && step.path == file.path)
    case EndSave =>
      s.holder.Saving? && s.holder.w in s.fs.writers && s.fs.writers[s.holder.w].phase.Finished?
    case Release => s.holder.Checking? || s.holder.Done?
    case Crash => true
    case Load(users) => s.holder.Free? && Disk.Read(s.fs, file.path) == Some(file.encode(users))
  }

  function Apply(s: State, op: Op, file: File): State
    requires Enabled(s, op, file)
  {
    match op
    case Acquire => s.(holder := Checking)
    case Change(users) => s.(users := users, holder := Changed)
    case StartSave(w, suffix) =>
      s.(fs := Disk.Next(s.fs, Disk.Begin(w, file.path, file.encode(s.users), suffix)), holder := Saving(w, false))
    case OnDisk(step) =>
      var renames := s.holder.Saving? && step == Disk.Rename(s.holder.w) && Disk.Enabled(s.fs, step);
      s.(fs := Disk.Next(s.fs, step), holder := if renames then Saving(s.holder.w, true) else s.holder)
    case EndSave => s.(holder := Done, trusted := s.holder.renamed)
    case Release => s.(holder := Free)
    case Crash => s.(fs := Disk.Next(s.fs, Disk.Crash), holder := Free, trusted := false)
    case Load(users) => s.(users := users, trusted := true)
  }

  function Next(s: State, op: Op, file: File): State {
    if Enabled(s, op, file) then Apply(s, op, file) else s
  }

  function Run(s: State, ops: seq<Op>, file: File): State
    decreases |ops|
  {
    if ops == [] then s else Run(Next(s, ops[0], file), ops[1..], file)
  }

  /** A file system at rest, on which the config file is known as a file to write to. */
  ghost predicate Starts(s0: Disk.Fs, s: State, file: File) {
    && Disk.AtRest(s0) && s.fs == s0.(targets := {file.path})
    && s.holder.Free? && (s.trusted ==> Disk.Read(s.fs, file.path) == Some(file.encode(s.users)))
  }

  // ---- The invariant --------------------------------------------------------------------------

  /** No writer of the config file but the one of the save under way has a rename before it. */
  ghost predicate OthersAreDone(s: State, file: File) {
    forall x :: x in s.fs.writers && s.fs.writers[x].path == file.path && !(s.holder.Saving? && s.holder.w == x) ==>
      s.fs.writers[x].phase.Finished?
  }

  ghost predicate SaveIsRight(s: State, file: File) {
    s.holder.Saving? ==>
      && s.holder.w in s.fs.writers
      && s.fs.writers[s.holder.w].path == file.path && s.fs.writers[s.holder.w].payload == file.encode(s.users)
      && (s.holder.renamed ==>
            Disk.Read(s.fs, file.path) == Some(file.encode(s.users))
            && (s.fs.writers[s.holder.w].phase.Renamed? || s.fs.writers[s.holder.w].phase.Finished?))
  }

  ghost predicate Inv(s0: Disk.Fs, s: State, file: File) {
    && Disk.Inv(s0, s.fs) && file.path in s.fs.targets
    && OthersAreDone(s, file) && SaveIsRight(s, file)
    && (s.trusted && (s.holder.Free? || s.holder.Checking? || s.holder.Done?) ==>
          Disk.Read(s.fs, file.path) == Some(file.encode(s.users)))
  }

  lemma StartsInv(s0: Disk.Fs, s: State, file: File)
    requires Starts(s0, s, file)
    ensures Inv(s0, s, file)
  {
    Disk.StartsInv(s0);
    assert Disk.Inv(s0, s.fs);
  }

  /** What a disk step does to the writers: it only moves its own one on, or makes a new one. */
  lemma DiskStepMovesOneWriter(fs: Disk.Fs, step: Disk.Op)
    requires !step.Crash?
    ensures var e := Disk.Next(fs, step);
      && fs.targets <= e.targets
      && (forall x :: x in fs.writers ==>
            x in e.writers && e.writers[x].path == fs.writers[x].path && e.writers[x].payload == fs.writers[x].payload)
      && (forall x :: x in fs.writers && fs.writers[x].phase.Finished? ==> e.writers[x].phase.Finished?)
      && (forall x :: x in fs.writers && fs.writers[x].phase.Renamed? ==>
            e.writers[x].phase.Renamed? || e.writers[x].phase.Finished?)
      && (forall x :: x in e.writers && x !in fs.writers ==> step.Begin? && e.writers[x].path == step.path)
  {
  }

  /** The only step that changes what the file reads as is the rename of the save under way. */
  lemma OnlyTheSaveChangesTheFile(s0: Disk.Fs, s: State, step: Disk.Op, file: File)
    requires Inv(s0, s, file) && Enabled(s, OnDisk(step), file)
    ensures var e := Next(s, OnDisk(step), file);
      if s.holder.Saving? && step == Disk.Rename(s.holder.w) && Disk.Enabled(s.fs, step)
      then Disk.Read(e.fs, file.path) == Some(file.encode(s.users)) && e.fs.writers[step.w].phase.Renamed?
      else Disk.Read(e.fs, file.path) == Disk.Read(s.fs, file.path)
  {
    if step.Rename? && Disk.Enabled(s.fs, step) && s.fs.writers[step.w].path == file.path {
      assert s.fs.writers[step.w].phase.Synced?;
      Disk.RenamePublishes(s0, s.fs, step.w);
    } else if Disk.Enabled(s.fs, step) {
      Disk.OnlyRenameChangesTarget(s0, s.fs, step, file.path);
    }
    hide Disk.Inv, Disk.Read;
  }

  lemma DiskStepKeepsInv(s0: Disk.Fs, s: State, step: Disk.Op, file: File)
    requires Inv(s0, s, file) && Enabled(s, OnDisk(step), file)
    ensures Inv(s0, Next(s, OnDisk(step), file), file)
  {
    hide Disk.Inv, Disk.Read, Disk.Apply;
    OnlyTheSaveChangesTheFile(s0, s, step, file);
    DiskStepMovesOneWriter(s.fs, step);
    Disk.StepKeepsInv(s0, s.fs, step);
  }

  lemma StepKeepsInv(s0: Disk.Fs, s: State, op: Op, file: File)
    requires Inv(s0, s, file)
    ensures Inv(s0, Next(s, op, file), file)
  {
    if Enabled(s, op, file) {
      match op
      case OnDisk(step) => DiskStepKeepsInv(s0, s, step, file);
      case StartSave(w, suffix) => StartingKeepsInv(s0, s, w, suffix, file);
      case Crash => CrashKeepsInv(s0, s, file);
      case _ =>
    }
  }

  lemma StartingKeepsInv(s0: Disk.Fs, s: State, w: nat, suffix: string, file: File)
    requires Inv(s0, s, file) && Enabled(s, StartSave(w, suffix), file)
    ensures Inv(s0, Next(s, StartSave(w, suffix), file), file)
  {
    var begin := Disk.Begin(w, file.path, file.encode(s.users), suffix);
    DiskStepMovesOneWriter(s.fs, begin);
    Disk.StepKeepsInv(s0, s.fs, begin);
  }

  lemma CrashKeepsInv(s0: Disk.Fs, s: State, file: File)
    requires Inv(s0, s, file)
    ensures Inv(s0, Next(s, Crash, file), file)
  {
    Disk.StepKeepsInv(s0, s.fs, Disk.Crash);
  }

  lemma {:induction false} RunKeepsInv(s0: Disk.Fs, s: State, ops: seq<Op>, file: File)
    requires Inv(s0, s, file)
    ensures Inv(s0, Run(s, ops, file), file)
    decreases |ops|
  {
    if ops != [] {
      StepKeepsInv(s0, s, ops[0], file);
      hide Inv, Next;
      RunKeepsInv(s0, Next(s, ops[0], file), ops[1..], file);
    }
  }

  // ---- What callers rely on -------------------------------------------------------------------

  /** A save that raises, or a crash. */
  predicate Fails(s: State, op: Op, file: File) {
    op.Crash? || (op.EndSave? && Enabled(s, op, file) && !s.holder.renamed)
  }

  ghost predicate NeverFails(s: State, ops: seq<Op>, file: File)
    decreases |ops|
  {
    ops != [] ==> !Fails(s, ops[0], file) && NeverFails(Next(s, ops[0], file), ops[1..], file)
  }

  lemma {:induction false} TrustLasts(s: State, ops: seq<Op>, file: File)
    requires s.trusted && NeverFails(s, ops, file)
    ensures Run(s, ops, file).trusted
    decreases |ops|
  {
    if ops != [] { TrustLasts(Next(s, ops[0], file), ops[1..], file); }
  }

  /**
   * In every run of operations, writers of other files and kernel steps: with the config lock free, and no failed
   * save or crash since the table was last saved or loaded, auth.json reads as the table in memory.
   */
  lemma FileIsTheTableWhenUnlocked(s0: Disk.Fs, s: State, ops: seq<Op>, file: File)
    requires Starts(s0, s, file)
    ensures var e := Run(s, ops, file);
      && (e.holder.Free? && e.trusted ==> Disk.Read(e.fs, file.path) == Some(file.encode(e.users)))
      && (s.trusted && NeverFails(s, ops, file) ==> e.trusted)
  {
    StartsInv(s0, s, file);
    RunKeepsInv(s0, s, ops, file);
    if s.trusted && NeverFails(s, ops, file) { TrustLasts(s, ops, file); }
  }

  /** The next save that succeeds restores the agreement after a failure. */
  lemma SavingRestoresTrust(s0: Disk.Fs, s: State, ops: seq<Op>, file: File)
    requires Starts(s0, s, file)
    requires var e := Run(s, ops, file); Enabled(e, EndSave, file) && e.holder.renamed
    ensures var e := Next(Next(Run(s, ops, file), EndSave, file), Release, file);
      e.holder.Free? && Disk.Read(e.fs, file.path) == Some(file.encode(e.users))
  {
    StartsInv(s0, s, file);
    RunKeepsInv(s0, s, ops, file);
  }

  ghost predicate NeverChanges(ops: seq<Op>) {
    forall i :: 0 <= i < |ops| ==> !ops[i].Change? && !ops[i].Load?
  }

  lemma {:induction false} TableStays(s: State, ops: seq<Op>, file: File)
    requires NeverChanges(ops)
    ensures Run(s, ops, file).users == s.users
    decreases |ops|
  {
    if ops != [] {
      assert !ops[0].Change? && !ops[0].Load?;
      TableStays(Next(s, ops[0], file), ops[1..], file);
    }
  }

  /** So what the last change made of the table is what is read once the lock is free, unless its save failed. */
  lemma LastChangeIsWhatIsRead(s0: Disk.Fs, s: State, before: seq<Op>, users: Users, after: seq<Op>, file: File)
    requires Starts(s0, s, file) && Enabled(Run(s, before, file), Change(users), file) && NeverChanges(after)
    ensures var e := Run(Next(Run(s, before, file), Change(users), file), after, file);
      && e.users == users
      && (e.holder.Free? && e.trusted ==> Disk.Read(e.fs, file.path) == Some(file.encode(users)))
  {
    var m := Run(s, before, file);
    StartsInv(s0, s, file);
    RunKeepsInv(s0, s, before, file);
    StepKeepsInv(s0, m, Change(users), file);
    RunKeepsInv(s0, Next(m, Change(users), file), after, file);
    TableStays(Next(m, Change(users), file), after, file);
  }
}
