/**
 * Crash-safe file replacement: any number of writers, each writing a temporary sibling, syncing it and renaming
 * it over the target, on a file system that may crash at any step and loses whatever was not made durable.
 */
module AtomicIO {
  import opened Prelude

  datatype Phase = Opening | Writing(done: nat) | Synced | Renamed | Failing | Finished

  datatype Writer = Writer(path: string, tmp: string, payload: string, inode: nat, phase: Phase)

  /** A file's contents as programs see them, and as a crash would leave them. */
  datatype File = File(seen: string, durable: string)

  /**
   * Directory entries and file contents, each as running programs see them and as a crash would leave them.
   * The last four fields only record what happened: temporary and target names ever used, payloads handed to a
   * writer, and payloads that were completely synced.
   */
  datatype Fs = Fs(
    names: map<string, nat>, durableNames: map<string, nat>,
    files: map<nat, File>,
    writers: map<nat, Writer>,
    temps: set<string>, targets: set<string>,
    requested: set<(string, string)>, synced: set<(string, string)>)

  datatype Op =
    | Begin(w: nat, path: string, payload: string, suffix: string)
    | Open(w: nat, inode: nat)
    | Write(w: nat, upTo: nat)
    | Sync(w: nat)
    | Rename(w: nat)
    | Fail(w: nat)                             // an exception before or at the rename
    | Unlink(w: nat)
    | UnlinkFails(w: nat)                      // swallowed
    | WriteBack(inode: nat, garbage: string)   // unsynced data reaches the disk in any mangled form
    | SyncName(path: string)                   // one directory entry becomes durable
    | Crash

  function TempName(path: string, suffix: string): string {
    path + ".tmp." + suffix
  }

  predicate InPhase(s: Fs, w: nat, phases: set<Phase>) {
    w in s.writers && s.writers[w].phase in phases
  }

  /** A random suffix never produces a name that is, was or will be in use for something else. */
  predicate Enabled(s: Fs, op: Op) {
    match op
    case Begin(w, path, payload, suffix) =>
      var tmp := TempName(path, suffix);
      && w !in s.writers && path !in s.temps
      && tmp !in s.temps && tmp !in s.targets && tmp !in s.names && tmp !in s.durableNames
    case Open(w, inode) => InPhase(s, w, {Opening}) && inode !in s.files
    case Write(w, upTo) =>
      w in s.writers && (var v := s.writers[w];
        v.inode in s.files && v.phase.Writing? && v.phase.done < upTo <= |v.payload|)
    case Sync(w) =>
      w in s.writers && (var v := s.writers[w]; v.inode in s.files && v.phase == Writing(|v.payload|))
    case Rename(w) => InPhase(s, w, {Synced})
    case Fail(w) => w in s.writers && (var p := s.writers[w].phase; p.Opening? || p.Writing? || p.Synced?)
    case Unlink(w) => InPhase(s, w, {Renamed, Failing})
    case UnlinkFails(w) => InPhase(s, w, {Renamed, Failing})
    case WriteBack(inode, _) => inode in s.files && s.files[inode].seen != s.files[inode].durable
    case SyncName(_) => true
    case Crash => true
  }

  function Advance(s: Fs, w: nat, phase: Phase): Fs
    requires w in s.writers
  {
    s.(writers := s.writers[w := s.writers[w].(phase := phase)])
  }

  function Apply(s: Fs, op: Op): Fs
    requires Enabled(s, op)
  {
    match op
    case Begin(w, path, payload, suffix) =>
      var tmp := TempName(path, suffix);
      s.(writers := s.writers[w := Writer(path, tmp, payload, 0, Opening)],
         temps := s.temps + {tmp}, targets := s.targets + {path}, requested := s.requested + {(path, payload)})
    case Open(w, inode) =>
      s.(names := s.names[s.writers[w].tmp := inode],
         files := s.files[inode := File("", "")],
         writers := s.writers[w := s.writers[w].(inode := inode, phase := Writing(0))])
    case Write(w, upTo) =>
      var v := s.writers[w];
      Advance(s.(files := s.files[v.inode := s.files[v.inode].(seen := v.payload[..upTo])]), w, Writing(upTo))
    case Sync(w) =>
      var v := s.writers[w];
      Advance(s.(files := s.files[v.inode := File(v.payload, v.payload)],
                 synced := s.synced + {(v.path, v.payload)}), w, Synced)
    case Rename(w) =>
      var v := s.writers[w];
      Advance(s.(names := (s.names - {v.tmp})[v.path := v.inode]), w, Renamed)
    case Fail(w) => Advance(s, w, Failing)
    case Unlink(w) => Advance(s.(names := s.names - {s.writers[w].tmp}), w, Finished)
    case UnlinkFails(w) => Advance(s, w, Finished)
    case WriteBack(inode, garbage) => s.(files := s.files[inode := s.files[inode].(durable := garbage)])
    case SyncName(path) =>
      s.(durableNames := if path in s.names then s.durableNames[path := s.names[path]] else s.durableNames - {path})
    case Crash =>
      s.(names := s.durableNames, writers := map[],
         files := map i | i in s.files :: File(s.files[i].durable, s.files[i].durable))
  }

  function Next(s: Fs, op: Op): Fs {
    if Enabled(s, op) then Apply(s, op) else s
  }

  function Run(s: Fs, ops: seq<Op>): Fs
    decreases |ops|
  {
    if ops == [] then s else Run(Next(s, ops[0]), ops[1..])
  }

  function Read(s: Fs, path: string): Option<string> {
    if path in s.names && s.names[path] in s.files then Some(s.files[s.names[path]].seen) else None
  }

  /** A file system at rest, before the first writer starts. */
  ghost predicate AtRest(s: Fs) {
    && s.names == s.durableNames
    && (forall p :: p in s.names ==> s.names[p] in s.files)
    && (forall i :: i in s.files ==> s.files[i].seen == s.files[i].durable)
    && s.writers == map[] && s.temps == {} && s.targets == {} && s.requested == {} && s.synced == {}
  }

  // ---- The invariant --------------------------------------------------------------------------

  ghost predicate Legal(s0: Fs, s: Fs, path: string, content: string) {
    Read(s0, path) == Some(content) || (path, content) in s.synced
  }

  /** An entry of a name that is no temporary file leads to contents that are legal and fully on disk. */
  ghost predicate Settled(s0: Fs, s: Fs, entries: map<string, nat>) {
    forall p :: p in entries && p !in s.temps ==>
      && entries[p] in s.files && s.files[entries[p]].seen == s.files[entries[p]].durable
      && Legal(s0, s, p, s.files[entries[p]].seen)
  }

  /** While a writer's file is unfinished, no entry but its own temporary name leads to it. */
  ghost predicate Private(v: Writer, entries: map<string, nat>) {
    forall p :: p in entries && entries[p] == v.inode ==> p == v.tmp
  }

  ghost predicate WriterOk(s: Fs, v: Writer) {
    && v.tmp in s.temps && v.path in s.targets && (v.path, v.payload) in s.requested
    && (v.phase.Writing? || v.phase.Synced? ==>
          v.inode in s.files && Private(v, s.names) && Private(v, s.durableNames))
    && (v.phase.Writing? ==> v.phase.done <= |v.payload| && s.files[v.inode].seen == v.payload[..v.phase.done])
    && (v.phase.Synced? ==>
          s.files[v.inode] == File(v.payload, v.payload) && (v.path, v.payload) in s.synced)
  }

  predicate HasFile(v: Writer) {
    v.phase.Writing? || v.phase.Synced?
  }

  ghost predicate WritersApart(s: Fs) {
    forall w, x :: w in s.writers && x in s.writers && w != x ==>
      && s.writers[w].tmp != s.writers[x].tmp
      && (HasFile(s.writers[w]) && HasFile(s.writers[x]) ==> s.writers[w].inode != s.writers[x].inode)
  }

  ghost predicate Files(s0: Fs, s: Fs) {
    && (forall p :: p in s.names ==> s.names[p] in s.files)
    && (forall p :: p in s.durableNames ==> s.durableNames[p] in s.files)
    && s0.names.Keys <= s.names.Keys && s0.names.Keys <= s.durableNames.Keys && s0.names.Keys !! s.temps
    && s.temps !! s.targets && s.synced <= s.requested
  }

  ghost predicate Inv(s0: Fs, s: Fs) {
    && Files(s0, s) && Settled(s0, s, s.names) && Settled(s0, s, s.durableNames)
    && (forall w :: w in s.writers ==> WriterOk(s, s.writers[w]))
    && WritersApart(s)
  }

  lemma StartsInv(s: Fs)
    requires AtRest(s)
    ensures Inv(s, s)
  {
  }

  lemma BeginKeepsInv(s0: Fs, s: Fs, op: Op)
    requires Inv(s0, s) && op.Begin? && Enabled(s, op)
    ensures Inv(s0, Apply(s, op))
  {
  }

  lemma OpenKeepsInv(s0: Fs, s: Fs, op: Op)
    requires Inv(s0, s) && op.Open? && Enabled(s, op)
    ensures Inv(s0, Apply(s, op))
  {
    var s' := Apply(s, op);
    var v := s.writers[op.w];
    assert WriterOk(s, v);
    forall w | w in s'.writers ensures WriterOk(s', s'.writers[w]) {
      assert WriterOk(s, s.writers[w]);
    }
  }

  lemma WriteKeepsInv(s0: Fs, s: Fs, op: Op)
    requires Inv(s0, s) && op.Write? && Enabled(s, op)
    ensures Inv(s0, Apply(s, op))
  {
    var s' := Apply(s, op);
    var v := s.writers[op.w];
    assert WriterOk(s, v);
    forall w | w in s'.writers ensures WriterOk(s', s'.writers[w]) {
      assert WriterOk(s, s.writers[w]);
    }
  }

  lemma SyncKeepsEntries(s0: Fs, s: Fs, op: Op)
    requires Inv(s0, s) && op.Sync? && Enabled(s, op)
    ensures var s' := Apply(s, op); Files(s0, s') && Settled(s0, s', s'.names) && Settled(s0, s', s'.durableNames)
  {
    assert WriterOk(s, s.writers[op.w]);
    hide WritersApart;
  }

  lemma SyncKeepsWriters(s0: Fs, s: Fs, op: Op)
    requires Inv(s0, s) && op.Sync? && Enabled(s, op)
    ensures var s' := Apply(s, op); WritersApart(s') && forall w :: w in s'.writers ==> WriterOk(s', s'.writers[w])
  {
    var s' := Apply(s, op);
    assert WriterOk(s, s.writers[op.w]);
    forall w | w in s'.writers ensures WriterOk(s', s'.writers[w]) {
      assert WriterOk(s, s.writers[w]);
    }
    hide Settled;
  }

  lemma SyncKeepsInv(s0: Fs, s: Fs, op: Op)
    requires Inv(s0, s) && op.Sync? && Enabled(s, op)
    ensures Inv(s0, Apply(s, op))
  {
    SyncKeepsEntries(s0, s, op);
    SyncKeepsWriters(s0, s, op);
    hide Files, Settled, WritersApart, WriterOk, Apply;
  }

  lemma RenameKeepsEntries(s0: Fs, s: Fs, op: Op)
    requires Inv(s0, s) && op.Rename? && Enabled(s, op)
    ensures var s' := Apply(s, op); Files(s0, s') && Settled(s0, s', s'.names) && Settled(s0, s', s'.durableNames)
  {
    assert WriterOk(s, s.writers[op.w]);
    hide WritersApart;
  }

  lemma RenameKeepsWriters(s0: Fs, s: Fs, op: Op)
    requires Inv(s0, s) && op.Rename? && Enabled(s, op)
    ensures var s' := Apply(s, op); WritersApart(s') && forall w :: w in s'.writers ==> WriterOk(s', s'.writers[w])
  {
    var s' := Apply(s, op);
    assert WriterOk(s, s.writers[op.w]);
    forall w | w in s'.writers ensures WriterOk(s', s'.writers[w]) {
      assert WriterOk(s, s.writers[w]);
    }
    hide Settled;
  }

  lemma RenameKeepsInv(s0: Fs, s: Fs, op: Op)
    requires Inv(s0, s) && op.Rename? && Enabled(s, op)
    ensures Inv(s0, Apply(s, op))
  {
    RenameKeepsEntries(s0, s, op);
    RenameKeepsWriters(s0, s, op);
    hide Files, Settled, WritersApart, WriterOk, Apply;
  }

  lemma FailKeepsInv(s0: Fs, s: Fs, op: Op)
    requires Inv(s0, s) && op.Fail? && Enabled(s, op)
    ensures Inv(s0, Apply(s, op))
  {
    var s' := Apply(s, op);
    forall w | w in s'.writers ensures WriterOk(s', s'.writers[w]) {
      assert WriterOk(s, s.writers[w]);
    }
  }

  lemma UnlinkFailsKeepsInv(s0: Fs, s: Fs, op: Op)
    requires Inv(s0, s) && op.UnlinkFails? && Enabled(s, op)
    ensures Inv(s0, Apply(s, op))
  {
    var s' := Apply(s, op);
    forall w | w in s'.writers ensures WriterOk(s', s'.writers[w]) {
      assert WriterOk(s, s.writers[w]);
    }
  }

  lemma UnlinkKeepsInv(s0: Fs, s: Fs, op: Op)
    requires Inv(s0, s) && op.Unlink? && Enabled(s, op)
    ensures Inv(s0, Apply(s, op))
  {
    var s' := Apply(s, op);
    assert WriterOk(s, s.writers[op.w]);
    forall w | w in s'.writers ensures WriterOk(s', s'.writers[w]) {
      assert WriterOk(s, s.writers[w]);
    }
  }

  lemma WriteBackKeepsInv(s0: Fs, s: Fs, op: Op)
    requires Inv(s0, s) && op.WriteBack? && Enabled(s, op)
    ensures Inv(s0, Apply(s, op))
  {
    var s' := Apply(s, op);
    forall w | w in s'.writers ensures WriterOk(s', s'.writers[w]) {
      assert WriterOk(s, s.writers[w]);
    }
  }

  lemma SyncNameKeepsInv(s0: Fs, s: Fs, op: Op)
    requires Inv(s0, s) && op.SyncName? && Enabled(s, op)
    ensures Inv(s0, Apply(s, op))
  {
    var s' := Apply(s, op);
    forall w | w in s'.writers ensures WriterOk(s', s'.writers[w]) {
      assert WriterOk(s, s.writers[w]);
    }
  }

  lemma CrashKeepsInv(s0: Fs, s: Fs, op: Op)
    requires Inv(s0, s) && op.Crash? && Enabled(s, op)
    ensures Inv(s0, Apply(s, op))
  {
  }

  lemma StepKeepsInv(s0: Fs, s: Fs, op: Op)
    requires Inv(s0, s)
    ensures Inv(s0, Next(s, op))
  {
    if Enabled(s, op) {
      match op {
        case Begin(_, _, _, _) => BeginKeepsInv(s0, s, op);
        case Open(_, _) => OpenKeepsInv(s0, s, op);
        case Write(_, _) => WriteKeepsInv(s0, s, op);
        case Sync(_) => SyncKeepsInv(s0, s, op);
        case Rename(_) => RenameKeepsInv(s0, s, op);
        case Unlink(_) => UnlinkKeepsInv(s0, s, op);
        case Fail(_) => FailKeepsInv(s0, s, op);
        case UnlinkFails(_) => UnlinkFailsKeepsInv(s0, s, op);
        case WriteBack(_, _) => WriteBackKeepsInv(s0, s, op);
        case SyncName(_) => SyncNameKeepsInv(s0, s, op);
        case Crash => CrashKeepsInv(s0, s, op);
      }
    }
  }

  lemma {:induction false} RunKeepsInv(s0: Fs, s: Fs, ops: seq<Op>)
    requires Inv(s0, s)
    ensures Inv(s0, Run(s, ops))
    decreases |ops|
  {
    if ops != [] {
      StepKeepsInv(s0, s, ops[0]);
      RunKeepsInv(s0, Next(s, ops[0]), ops[1..]);
    }
  }

  /**
   * With any number of concurrent writers and crashes at any steps, a path that is no temporary file always
   * reads as it did originally or as the complete, synced payload of one writer to that path.
   */
  lemma TargetIsNeverTorn(s0: Fs, ops: seq<Op>, path: string)
    requires AtRest(s0) && path !in Run(s0, ops).temps
    ensures var s := Run(s0, ops);
      || Read(s, path) == Read(s0, path)
      || (Read(s, path).Some? && (path, Read(s, path).value) in s.synced && (path, Read(s, path).value) in s.requested)
  {
    StartsInv(s0);
    RunKeepsInv(s0, s0, ops);
  }

  /** Cleaning up removes no target and no other writer's temporary file. */
  lemma CleanupRemovesOnlyItsOwnTemp(s0: Fs, ops: seq<Op>, w: nat, x: nat)
    requires AtRest(s0)
    requires var s := Run(s0, ops); w in s.writers && x in s.writers
    ensures var s, s' := Run(s0, ops), Next(Run(s0, ops), Unlink(w));
      && (forall p :: p in s.targets && p in s.names ==> p in s'.names && s'.names[p] == s.names[p])
      && (x != w && s.writers[x].tmp in s.names ==>
            s.writers[x].tmp in s'.names && s'.names[s.writers[x].tmp] == s.names[s.writers[x].tmp])
  {
    StartsInv(s0);
    RunKeepsInv(s0, s0, ops);
    var s := Run(s0, ops);
    assert WriterOk(s, s.writers[w]) && WriterOk(s, s.writers[x]);
  }

  // ---- What running programs read -------------------------------------------------------------

  /** Only a crash or a rename onto the path itself changes what the path reads as. */
  lemma OnlyRenameChangesTarget(s0: Fs, s: Fs, op: Op, path: string)
    requires Inv(s0, s) && path in s.targets
    requires !op.Crash? && !(op.Rename? && op.w in s.writers && s.writers[op.w].path == path)
    ensures Read(Next(s, op), path) == Read(s, path) && path in Next(s, op).targets
  {
    if Enabled(s, op) && !op.WriteBack? && !op.SyncName? && !op.Begin? {
      assert WriterOk(s, s.writers[op.w]);
    }
  }

  lemma RenamePublishes(s0: Fs, s: Fs, w: nat)
    requires Inv(s0, s) && Enabled(s, Rename(w))
    ensures Read(Next(s, Rename(w)), s.writers[w].path) == Some(s.writers[w].payload)
  {
  }

  ghost predicate LeavesAlone(s: Fs, ops: seq<Op>, path: string)
    decreases |ops|
  {
    ops != [] ==>
      && !ops[0].Crash?
      && !(ops[0].Rename? && ops[0].w in s.writers && s.writers[ops[0].w].path == path)
      && LeavesAlone(Next(s, ops[0]), ops[1..], path)
  }

  lemma {:induction false} TargetIsStable(s0: Fs, s: Fs, ops: seq<Op>, path: string)
    requires Inv(s0, s) && path in s.targets && LeavesAlone(s, ops, path)
    ensures Read(Run(s, ops), path) == Read(s, path)
    decreases |ops|
  {
    if ops != [] {
      OnlyRenameChangesTarget(s0, s, ops[0], path);
      StepKeepsInv(s0, s, ops[0]);
      TargetIsStable(s0, Next(s, ops[0]), ops[1..], path);
    }
  }

  /**
   * Until the next rename onto the same path, and short of a crash, the path reads as what was last written.
   * A config file saved under one lock therefore equals the value in memory whenever the lock is free.
   */
  lemma LastSaveIsWhatIsRead(s0: Fs, before: seq<Op>, w: nat, after: seq<Op>)
    requires AtRest(s0) && Enabled(Run(s0, before), Rename(w))
    requires LeavesAlone(Next(Run(s0, before), Rename(w)), after, Run(s0, before).writers[w].path)
    ensures var s := Run(s0, before);
      Read(Run(Next(s, Rename(w)), after), s.writers[w].path) == Some(s.writers[w].payload)
  {
    StartsInv(s0);
    RunKeepsInv(s0, s0, before);
    var s := Run(s0, before);
    assert WriterOk(s, s.writers[w]);
    RenamePublishes(s0, s, w);
    RenameKeepsInv(s0, s, Rename(w));
    TargetIsStable(s0, Next(s, Rename(w)), after, s.writers[w].path);
  }

  /** Why the file is synced first: what is only written is gone after a crash, unless the kernel got to it. */
  lemma UnsyncedWriteIsLost(s: Fs, w: nat, upTo: nat)
    requires Enabled(s, Write(w, upTo))
    ensures var inode, e := s.writers[w].inode, Next(Next(s, Write(w, upTo)), Crash);
      inode in e.files && e.files[inode].seen == s.files[inode].durable
  {
  }

  /**
   * What a crash after the rename leaves: the new contents if the directory entry was made durable in between,
   * else what a crash before the rename would have left. The function does not sync the directory.
   */
  lemma RenameSurvivesACrashOnceTheEntryIsDurable(s0: Fs, s: Fs, w: nat)
    requires Inv(s0, s) && Enabled(s, Rename(w))
    ensures var path, renamed := s.writers[w].path, Next(s, Rename(w));
      && Read(Next(renamed, Crash), path) == Read(Next(s, Crash), path)
      && Read(Next(Next(renamed, SyncName(path)), Crash), path) == Some(s.writers[w].payload)
  {
    assert WriterOk(s, s.writers[w]);
  }

  // ---- The function itself --------------------------------------------------------------------

  ghost predicate TargetsReadAlike(a: Fs, b: Fs) {
    a.targets <= b.targets && forall q :: q in a.targets ==> Read(b, q) == Read(a, q)
  }

  lemma QuietStep(s0: Fs, s: Fs, op: Op)
    requires Inv(s0, s) && !op.Crash? && !op.Rename?
    ensures Inv(s0, Next(s, op)) && TargetsReadAlike(s, Next(s, op))
  {
    StepKeepsInv(s0, s, op);
    forall q | q in s.targets ensures Read(Next(s, op), q) == Read(s, q) {
      OnlyRenameChangesTarget(s0, s, op, q);
    }
  }

  lemma RenameStep(s0: Fs, s: Fs, w: nat)
    requires Inv(s0, s) && Enabled(s, Rename(w))
    ensures var s', v := Next(s, Rename(w)), s.writers[w];
      && Inv(s0, s') && Read(s', v.path) == Some(v.payload) && s'.targets == s.targets && v.tmp !in s'.names
      && forall q :: q in s.targets && q != v.path ==> Read(s', q) == Read(s, q)
  {
    StepKeepsInv(s0, s, Rename(w));
    RenamePublishes(s0, s, w);
    assert WriterOk(s, s.writers[w]);
    forall q | q in s.targets && q != s.writers[w].path ensures Read(Next(s, Rename(w)), q) == Read(s, q) {
      OnlyRenameChangesTarget(s0, s, Rename(w), q);
    }
  }

  /** Opening, writing in pieces of any size, and syncing. Any of them may raise. */
  method Fill(before: Fs, w: nat, inode: nat, ghost s0: Fs) returns (fs: Fs, ok: bool)
    requires Inv(s0, before) && Enabled(before, Open(w, inode))
    ensures Inv(s0, fs) && TargetsReadAlike(before, fs) && fs.targets == before.targets && w in fs.writers
    ensures fs.writers[w] == before.writers[w].(inode := fs.writers[w].inode, phase := if ok then Synced else Failing)
  {
    hide Inv;
    fs, ok := before, false;
    var payload := fs.writers[w].payload;
    QuietStep(s0, fs, Open(w, inode));
    QuietStep(s0, fs, Fail(w));
    if * { fs := Next(fs, Fail(w)); return; }
    fs := Next(fs, Open(w, inode));
    var done := 0;
    while done < |payload|
      invariant done <= |payload| && inode in fs.files
      invariant Inv(s0, fs) && TargetsReadAlike(before, fs) && fs.targets == before.targets
      invariant w in fs.writers && fs.writers[w] == before.writers[w].(inode := inode, phase := Writing(done))
    {
      QuietStep(s0, fs, Fail(w));
      if * { fs := Next(fs, Fail(w)); return; }
      var upTo :| done < upTo <= |payload|;
      QuietStep(s0, fs, Write(w, upTo));
      fs := Next(fs, Write(w, upTo));
      done := upTo;
    }
    QuietStep(s0, fs, Fail(w));
    if * { fs := Next(fs, Fail(w)); return; }
    QuietStep(s0, fs, Sync(w));
    fs, ok := Next(fs, Sync(w)), true;
  }

  /** The final unlink; whatever it raises is ignored. */
  method CleanUp(before: Fs, w: nat, ghost s0: Fs) returns (fs: Fs, unlinked: bool)
    requires Inv(s0, before) && InPhase(before, w, {Renamed, Failing})
    ensures Inv(s0, fs) && TargetsReadAlike(before, fs)
    ensures fs.names == if unlinked then before.names - {before.writers[w].tmp} else before.names
  {
    hide Inv;
    unlinked := *;
    var op := if unlinked then Unlink(w) else UnlinkFails(w);
    QuietStep(s0, before, op);
    fs := Next(before, op);
  }

  /**
   * One undisturbed call, on the file system it finds. It either publishes the whole payload or raises and
   * leaves the target as it was, and touches no other target. It leaves a temporary file behind only if it raises
   * and the final unlink fails as well. `w`, `suffix` and `inode` are fresh.
   */
  method AtomicWrite(before: Fs, w: nat, path: string, payload: string, suffix: string, inode: nat, ghost s0: Fs)
    returns (fs: Fs, ok: bool, unlinked: bool)
    requires Inv(s0, before) && Enabled(before, Begin(w, path, payload, suffix)) && inode !in before.files
    ensures Inv(s0, fs)
    ensures Read(fs, path) == if ok then Some(payload) else Read(before, path)
    ensures forall q :: q in before.targets && q != path ==> Read(fs, q) == Read(before, q)
    ensures ok || unlinked ==> TempName(path, suffix) !in fs.names
  {
    hide Inv;
    QuietStep(s0, before, Begin(w, path, payload, suffix));
    fs := Next(before, Begin(w, path, payload, suffix));
    fs, ok := Fill(fs, w, inode, s0);
    if ok {
      if * {
        RenameStep(s0, fs, w);
        fs := Next(fs, Rename(w));
      } else {
        QuietStep(s0, fs, Fail(w));
        fs, ok := Next(fs, Fail(w)), false;
      }
    }
    fs, unlinked := CleanUp(fs, w, s0);
  }
}
