/**
  The transactional settings service of the LED matrix. An update passes through a cached
  copy, the shared stores (configuration record and icon cache), the configuration file and
  the runtime; every lock, allocation, save and handler on the way can fail.
*/
module MatrixSettings {
  import opened Options
  import opened MatrixIcons
  import opened ConfigPersistence
  import opened Transactions
  import MC = MatrixConfig

  datatype State = State(config: MC.Config, icons: Icons)

  type Updater = State -> (UpdateResult, State)

  // ---- What the environment lets each step do; true is success ----

  datatype SyncEnv = SyncEnv(allocation: bool, configLock: bool, hasLocks: Locks, copyLocks: Locks)

  datatype WriteEnv = WriteEnv(configLock: bool, iconLocks: Locks)

  datatype PersistEnv = PersistEnv(configLock: bool, iconLocks: Locks, disk: DiskEnv)

  datatype ApplyEnv = ApplyEnv(allocation: bool, lock: bool, sync: SyncEnv, persist: PersistEnv)

  datatype UndoEnv = UndoEnv(lock: bool, write: WriteEnv, persist: PersistEnv)

  datatype UpdateEnv = UpdateEnv(
    allocation: bool,
    lock: bool,
    sync: SyncEnv,
    write: WriteEnv,
    apply: ApplyEnv,
    handlerLock: bool,
    handlers: seq<Option<string>>,  // the error of each registered handler, if it fails
    undo: UndoEnv)

  // ---- The device as a value ----

  /** The shared stores, the configuration file and the last state handed to the runtime. */
  datatype Device = Device(store: State, files: Files<State>, runtime: State)

  /** The state a reader gets: configuration repaired, icon colours normalised. */
  function Healed(s: State): State {
    State(MC.Healed(s.config), Masked(s.icons))
  }

  lemma HealedTwice(s: State)
    ensures Healed(Healed(s)) == Healed(s)
  {
    MC.HealedIsSane(s.config);
    MaskedTwice(s.icons);
  }

  /** The configuration file is there and whole. */
  predicate OnFlash(files: Files<State>) {
    files.config.Some? && files.config.value.Whole?
  }

  /** Store, flash and runtime agree. */
  ghost predicate Coherent(d: Device) {
    && Masked(d.store.icons) == d.store.icons
    && OnFlash(d.files)
    && Healed(d.store) == Healed(d.files.config.value.document) == d.runtime
  }

  // ---- What each step does to the device ----

  predicate SyncSucceeds(store: State, env: SyncEnv) {
    env.allocation && env.configLock && CaptureSucceeds(store.icons, env.hasLocks, env.copyLocks)
  }

  function Synced(store: State, env: SyncEnv): State {
    State(MC.Healed(store.config), Captured(store.icons, env.hasLocks))
  }

  predicate WriteSucceeds(env: WriteEnv) {
    env.configLock && RestoreSucceeds(env.iconLocks)
  }

  /** A write can tear: configuration new, icons partly new. */
  function Written(store: State, s: State, env: WriteEnv): State {
    if !env.configLock then store else State(s.config, Restored(store.icons, s.icons, env.iconLocks))
  }

  /** The document a save builds; a lock that times out silently contributes a default. */
  function Document(store: State, defaults: MC.Config, env: PersistEnv): State {
    State(if env.configLock then store.config else defaults, Captured(store.icons, env.iconLocks))
  }

  function Persisted(d: Device, defaults: MC.Config, env: PersistEnv): Device {
    d.(files := AfterSave(d.files, Document(d.store, defaults, env), env.disk))
  }

  /** Bringing the shared stores back to a previous state, and if asked the file and the runtime. */
  function Undone(d: Device, previous: State, persistAndApply: bool, defaults: MC.Config,
      env: UndoEnv): (r: (Device, bool))
  {
    if !env.lock then (d, false)
    else
      var written := d.(store := Written(d.store, previous, env.write));
      if !WriteSucceeds(env.write) then (written, false)
      else if !persistAndApply then (written, true)
      else
        var saved := Persisted(written, defaults, env.persist);
        if !Saves(d.files, env.persist.disk) then (saved, false)
        else (saved.(runtime := previous), true)
  }

  /** Saving the stores and handing a fresh snapshot to the runtime. */
  function Applied(d: Device, defaults: MC.Config, env: ApplyEnv): (r: (Device, Option<ErrorCode>)) {
    if !env.allocation || !env.lock || !SyncSucceeds(d.store, env.sync) then (d, Some(UpdateFailed))
    else
      var saved := Persisted(d, defaults, env.persist);
      if !Saves(d.files, env.persist.disk) then (saved, Some(SaveFailed))
      else (saved.(runtime := Synced(d.store, env.sync)), None)
  }

  function HandlersVerdict(env: UpdateEnv): Option<ErrorCode> {
    if !env.handlerLock then Some(UpdateFailed)
    else match FirstFailure(env.handlers)
      case None => None
      case Some(code) => Some(HandlerFailed(code))
  }

  /** A rejected update: the code of the failure, unless undoing it failed too. */
  function Rejected(undone: (Device, bool), code: ErrorCode): (Device, Outcome) {
    (undone.0, Failed(if undone.1 then code else RestoreFailed))
  }

  /** Saving, applying and announcing a state that is already in the stores. */
  function Propagated(d: Device, previous: State, defaults: MC.Config, env: UpdateEnv): (r: (Device, Outcome)) {
    var (applied, failure) := Applied(d, defaults, env.apply);
    if failure.Some? then
      Rejected(Undone(applied, previous, false, defaults, env.undo), failure.value)
    else
      var verdict := HandlersVerdict(env);
      if verdict.None? then (applied, Done(Changed))
      else Rejected(Undone(applied, previous, true, defaults, env.undo), verdict.value)
  }

  /** Writing a changed state to the stores and, if asked, propagating it. */
  function Committed(d: Device, previous: State, next: State, propagate: bool, defaults: MC.Config, env: UpdateEnv)
    : (r: (Device, Outcome))
  {
    var written := d.(store := Written(d.store, next, env.write));
    if !WriteSucceeds(env.write) then
      Rejected(Undone(written, previous, false, defaults, env.undo), UpdateFailed)
    else if !propagate then (written, Done(Changed))
    else Propagated(written, previous, defaults, env)
  }

  function Transacted(d: Device, updater: Updater, propagate: bool, defaults: MC.Config, env: UpdateEnv)
    : (r: (Device, Outcome))
  {
    if !env.allocation || !env.lock || !SyncSucceeds(d.store, env.sync) then (d, Failed(UpdateFailed))
    else
      var previous := Synced(d.store, env.sync);
      var (result, next) := updater(previous);
      if result == Error then (d, Failed(UpdateFailed))
      else if result == Unchanged then (d, Done(Unchanged))
      else Committed(d, previous, next, propagate, defaults, env)
  }

  // ---- Which outcome an update reports ----

  /** The locks and allocations a read of the stores needs; an icon is only copied if it is seen to be there. */
  predicate Reads(icons: Icons, env: SyncEnv) {
    && env.allocation && env.configLock
    && forall i :: 0 <= i < ICON_COUNT && env.hasLocks[i] && icons[i].Some? ==> env.copyLocks[i]
  }

  ghost predicate Writes(env: WriteEnv) {
    env.configLock && All(env.iconLocks)
  }

  /** The update reads the stores and its updater reports a change. */
  predicate Changes(d: Device, updater: Updater, env: UpdateEnv) {
    && env.allocation && env.lock && Reads(d.store.icons, env.sync)
    && updater(Synced(d.store, env.sync)).0 == Changed
  }

  /** The changed state gets into the stores and is read back from them. */
  ghost predicate ReadsBack(d: Device, updater: Updater, env: UpdateEnv) {
    && Changes(d, updater, env) && Writes(env.write)
    && env.apply.allocation && env.apply.lock
    && Reads(updater(Synced(d.store, env.sync)).1.icons, env.apply.sync)
  }

  ghost predicate SavesChange(d: Device, updater: Updater, env: UpdateEnv) {
    ReadsBack(d, updater, env) && Saves(d.files, env.apply.persist.disk)
  }

  /** An undo gets everything it needs; after a save it has the new file to replace. */
  ghost predicate Undoes(d: Device, updater: Updater, env: UpdateEnv) {
    && env.undo.lock && Writes(env.undo.write)
    && (SavesChange(d, updater, env) ==>
          env.undo.persist.disk.ReachesRenames() && env.undo.persist.disk.backUp && env.undo.persist.disk.promote)
  }

  lemma ReadsIff(store: State, env: SyncEnv)
    ensures SyncSucceeds(store, env) <==> Reads(store.icons, env)
  {
  }

  lemma WritesIff(env: WriteEnv)
    ensures WriteSucceeds(env) <==> Writes(env)
  {
  }

  lemma MaskedPresence(icons: Icons, env: SyncEnv)
    ensures Reads(Masked(icons), env) <==> Reads(icons, env)
  {
    assert forall i :: 0 <= i < ICON_COUNT ==> (Masked(icons)[i].Some? <==> icons[i].Some?);
  }

  /** A propagating update: which steps must work for each outcome. */
  lemma OutcomeIs(d: Device, updater: Updater, defaults: MC.Config, env: UpdateEnv)
    ensures var outcome := Transacted(d, updater, true, defaults, env).1;
            var announces := env.handlerLock && forall i :: 0 <= i < |env.handlers| ==> env.handlers[i] == None;
            var saved, undoes := SavesChange(d, updater, env), Undoes(d, updater, env);
            && (outcome == Done(Unchanged) <==>
                  && env.allocation && env.lock && Reads(d.store.icons, env.sync)
                  && updater(Synced(d.store, env.sync)).0 == Unchanged)
            && (outcome == Done(Changed) <==> saved && announces)
            && (outcome == Failed(SaveFailed) <==> ReadsBack(d, updater, env) && !saved && undoes)
            && (forall code :: outcome == Failed(HandlerFailed(code)) <==>
                  saved && env.handlerLock && undoes && exists i :: FailsFirst(env.handlers, i, code))
            && (outcome == Failed(RestoreFailed) <==> Changes(d, updater, env) && !(saved && announces) && !undoes)
            && outcome != Failed(ApplyFailed) && outcome != Done(Error)
  {
    ReadsIff(d.store, env.sync);
    WritesIff(env.write);
    WritesIff(env.undo.write);
    hide Reads, Writes, SyncSucceeds, WriteSucceeds, Synced;
    if Changes(d, updater, env) {
      ChangeOutcomeIs(d, updater, defaults, env);
    }
  }

  lemma ChangeOutcomeIs(d: Device, updater: Updater, defaults: MC.Config, env: UpdateEnv)
    requires Changes(d, updater, env)
    ensures var outcome := Transacted(d, updater, true, defaults, env).1;
            var announces := env.handlerLock && forall i :: 0 <= i < |env.handlers| ==> env.handlers[i] == None;
            var saved, undoes := SavesChange(d, updater, env), Undoes(d, updater, env);
            && outcome != Done(Unchanged)
            && (outcome == Done(Changed) <==> saved && announces)
            && (outcome == Failed(SaveFailed) <==> ReadsBack(d, updater, env) && !saved && undoes)
            && (forall code :: outcome == Failed(HandlerFailed(code)) <==>
                  saved && env.handlerLock && undoes && exists i :: FailsFirst(env.handlers, i, code))
            && (outcome == Failed(RestoreFailed) <==> !(saved && announces) && !undoes)
            && outcome != Failed(ApplyFailed) && outcome != Done(Error)
  {
    ReadsIff(d.store, env.sync);
    WritesIff(env.write);
    WritesIff(env.undo.write);
    var next := updater(Synced(d.store, env.sync)).1;
    var written := Written(d.store, next, env.write);
    if Writes(env.write) {
      RestoresAll(d.store.icons, next.icons, env.write.iconLocks);
      MaskedPresence(next.icons, env.apply.sync);
      ReadsIff(written, env.apply.sync);
    }
    OneFirstFailure(env.handlers);
    hide Reads, Writes, SyncSucceeds, WriteSucceeds, Synced, Written, Document, FirstFailure, FailsFirst;
  }

  /** What an update that does not propagate reports, and the new state it leaves in the stores. */
  lemma QuietOutcomeIs(d: Device, updater: Updater, defaults: MC.Config, env: UpdateEnv)
    ensures var (after, outcome) := Transacted(d, updater, false, defaults, env);
            var undoes := env.undo.lock && Writes(env.undo.write);
            && (outcome == Done(Unchanged) <==>
                  && env.allocation && env.lock && Reads(d.store.icons, env.sync)
                  && updater(Synced(d.store, env.sync)).0 == Unchanged)
            && (outcome == Done(Changed) <==> Changes(d, updater, env) && Writes(env.write))
            && (outcome == Failed(RestoreFailed) <==> Changes(d, updater, env) && !Writes(env.write) && !undoes)
            && (outcome.Failed? && outcome != Failed(RestoreFailed) ==> outcome == Failed(UpdateFailed))
            && outcome != Done(Error)
            && after.files == d.files && after.runtime == d.runtime
            && (outcome == Done(Unchanged) || !Changes(d, updater, env) ==> after == d)
            && (outcome == Done(Changed) ==>
                  var next := updater(Synced(d.store, env.sync)).1;
                  after.store.config == next.config && after.store.icons == Masked(next.icons))
  {
    ReadsIff(d.store, env.sync);
    WritesIff(env.write);
    WritesIff(env.undo.write);
    if Writes(env.write) {
      RestoresAll(d.store.icons, updater(Synced(d.store, env.sync)).1.icons, env.write.iconLocks);
    }
    hide Reads, Writes, SyncSucceeds, WriteSucceeds, Synced, Restored, Masked;
  }

  // ---- All or nothing ----

  ghost predicate All(locks: Locks) {
    forall i :: 0 <= i < ICON_COUNT ==> locks[i]
  }

  /** The save reads everything, does not lose the old file and does not cut the new one. */
  ghost predicate QuietPersist(env: PersistEnv) {
    env.configLock && All(env.iconLocks) && (env.disk.promote || env.disk.putBack) && env.disk.WritesAll()
  }

  /** No step fails without saying so: the locks whose timeouts go unnoticed are all acquired. */
  ghost predicate Quiet(env: UpdateEnv) {
    && All(env.sync.hasLocks)
    && All(env.apply.sync.hasLocks)
    && QuietPersist(env.apply.persist)
    && QuietPersist(env.undo.persist)
  }

  lemma CapturesAll(icons: Icons, locks: Locks)
    requires All(locks)
    ensures Captured(icons, locks) == icons
  {
  }

  lemma RestoresAll(cache: Icons, snapshot: Icons, locks: Locks)
    requires RestoreSucceeds(locks)
    ensures Restored(cache, snapshot, locks) == Masked(snapshot)
  {
  }

  /** Whatever was torn before, an undo that succeeds leaves the previous state in the stores. */
  lemma UndoneRestores(d: Device, previous: State, full: bool, defaults: MC.Config, env: UndoEnv)
    requires Undone(d, previous, full, defaults, env).1
    requires Healed(previous) == previous
    ensures Undone(d, previous, full, defaults, env).0.store == previous
    ensures !full ==> Undone(d, previous, full, defaults, env).0 == d.(store := previous)
    ensures full && QuietPersist(env.persist) ==>
              var after := Undone(d, previous, full, defaults, env).0;
              after.files.config == Some(Whole(previous)) && after.runtime == previous
  {
    RestoresAll(d.store.icons, previous.icons, env.write.iconLocks);
    if full && QuietPersist(env.persist) {
      CapturesAll(previous.icons, env.persist.iconLocks);
    }
  }

  lemma AppliedCoherent(d: Device, defaults: MC.Config, env: ApplyEnv)
    requires Masked(d.store.icons) == d.store.icons && OnFlash(d.files)
    requires All(env.sync.hasLocks) && QuietPersist(env.persist)
    ensures Applied(d, defaults, env).1.None? ==>
              var after := Applied(d, defaults, env).0;
              Coherent(after) && after.store == d.store && after.runtime == Healed(d.store)
    ensures Applied(d, defaults, env).1.Some? ==>
              var after := Applied(d, defaults, env).0;
              after.store == d.store && after.files.config == d.files.config && after.runtime == d.runtime
  {
    CapturesAll(d.store.icons, env.sync.hasLocks);
    CapturesAll(d.store.icons, env.persist.iconLocks);
  }

  /** What a coherent device looks like after a propagating update that reported this outcome. */
  ghost predicate AllOrNothing(before: Device, updater: Updater, after: Device, outcome: Outcome) {
    match outcome
    case Done(Changed) =>
      updater(before.runtime).0 == Changed && Coherent(after) && after.runtime == Healed(updater(before.runtime).1)
    case Done(Unchanged) => updater(before.runtime).0 == Unchanged && after == before
    case Done(Error) => false
    case Failed(RestoreFailed) => true
    case Failed(_) => Coherent(after) && after.runtime == before.runtime
  }

  lemma PropagationIsAtomic(d: Device, previous: State, defaults: MC.Config, env: UpdateEnv)
    requires Masked(d.store.icons) == d.store.icons
    requires Healed(previous) == previous == d.runtime
    requires OnFlash(d.files) && Healed(d.files.config.value.document) == previous
    requires Quiet(env)
    ensures var (after, outcome) := Propagated(d, previous, defaults, env);
            match outcome
            case Done(result) => result == Changed && Coherent(after) && after.runtime == Healed(d.store)
            case Failed(RestoreFailed) => true
            case Failed(_) => Coherent(after) && after.runtime == previous
  {
    AppliedCoherent(d, defaults, env.apply);
    var (applied, failure) := Applied(d, defaults, env.apply);
    var full := failure.None?;
    if Undone(applied, previous, full, defaults, env.undo).1 {
      UndoneRestores(applied, previous, full, defaults, env.undo);
    }
  }

  /** Every propagating update on a coherent device is all or nothing, whichever steps fail. */
  lemma UpdateIsAtomic(d: Device, updater: Updater, defaults: MC.Config, env: UpdateEnv)
    requires Coherent(d) && Quiet(env)
    ensures AllOrNothing(d, updater, Transacted(d, updater, true, defaults, env).0,
              Transacted(d, updater, true, defaults, env).1)
  {
    CapturesAll(d.store.icons, env.sync.hasLocks);
    HealedTwice(d.store);
    var previous := d.runtime;
    var (result, next) := updater(previous);
    var written := d.(store := Written(d.store, next, env.write));
    if WriteSucceeds(env.write) {
      RestoresAll(d.store.icons, next.icons, env.write.iconLocks);
      MaskedTwice(next.icons);
      assert Healed(written.store) == Healed(next);
      PropagationIsAtomic(written, previous, defaults, env);
    } else if Undone(written, previous, false, defaults, env.undo).1 {
      UndoneRestores(written, previous, false, defaults, env.undo);
    }
  }

  /**
    With quiet locks while saving, an update that reports a change leaves the three in agreement exactly
    when its save was whole, even if they disagreed before.
  */
  lemma ChangeIsCoherentIff(d: Device, updater: Updater, defaults: MC.Config, env: UpdateEnv)
    requires All(env.apply.sync.hasLocks)
    requires env.apply.persist.configLock && All(env.apply.persist.iconLocks)
    requires Transacted(d, updater, true, defaults, env).1 == Done(Changed)
    ensures Coherent(Transacted(d, updater, true, defaults, env).0) <==> env.apply.persist.disk.WritesAll()
  {
    var next := updater(Synced(d.store, env.sync)).1;
    var written := d.(store := Written(d.store, next, env.write));
    RestoresAll(d.store.icons, next.icons, env.write.iconLocks);
    MaskedTwice(next.icons);
    CapturesAll(written.store.icons, env.apply.sync.hasLocks);
    CapturesAll(written.store.icons, env.apply.persist.iconLocks);
  }

  // ---- Whole runs ----

  datatype Operation =
    | Update(updater: Updater, env: UpdateEnv)
    | ForceUpdate(applyEnv: ApplyEnv)
    | OtherSave(persistEnv: PersistEnv)  // by another service, which saves the same document

  ghost predicate QuietOperation(op: Operation) {
    match op
    case Update(_, env) => Quiet(env)
    case ForceUpdate(env) => All(env.sync.hasLocks) && QuietPersist(env.persist)
    case OtherSave(env) => QuietPersist(env)
  }

  function Performed(d: Device, op: Operation, defaults: MC.Config): (r: (Device, Outcome)) {
    match op
    case Update(updater, env) => Transacted(d, updater, true, defaults, env)
    case ForceUpdate(env) =>
      var (after, failure) := Applied(d, defaults, env);
      (after, if failure.None? then Done(Unchanged) else Failed(failure.value))
    case OtherSave(env) =>
      (Persisted(d, defaults, env), if Saves(d.files, env.disk) then Done(Unchanged) else Failed(SaveFailed))
  }

  function Run(d: Device, ops: seq<Operation>, defaults: MC.Config): Device
    decreases |ops|
  {
    if |ops| == 0 then d else Run(Performed(d, ops[0], defaults).0, ops[1..], defaults)
  }

  ghost predicate NoRestoreFails(d: Device, ops: seq<Operation>, defaults: MC.Config)
    decreases |ops|
  {
    |ops| > 0 ==>
      && Performed(d, ops[0], defaults).1 != Failed(RestoreFailed)
      && NoRestoreFails(Performed(d, ops[0], defaults).0, ops[1..], defaults)
  }

  /** The faultless register the run stands for: only updates that report a change have an effect. */
  ghost function Ideal(s: State, d: Device, ops: seq<Operation>, defaults: MC.Config): State
    decreases |ops|
  {
    if |ops| == 0 then s
    else
      var (after, outcome) := Performed(d, ops[0], defaults);
      var next := if outcome == Done(Changed) && ops[0].Update? then Healed(ops[0].updater(s).1) else s;
      Ideal(next, after, ops[1..], defaults)
  }

  /** Another service's save keeps the three in agreement exactly when it does not lose, cut or skip the section. */
  lemma OtherSaveIsCoherentIff(d: Device, defaults: MC.Config, env: PersistEnv)
    requires Coherent(d)
    ensures var (after, outcome) := Performed(d, OtherSave(env), defaults);
            && after == Persisted(d, defaults, env)
            && (outcome == Done(Unchanged) || outcome == Failed(SaveFailed))
            && (Coherent(after) <==>
                  if outcome.Done? then
                    && env.disk.WritesAll()
                    && (env.configLock || MC.Healed(defaults) == MC.Healed(d.store.config))
                    && SeesAllIcons(d.store, env.iconLocks)
                  else !LosesConfig(d.files, env.disk))
  {
    hide MC.Healed;
    var icons := Captured(d.store.icons, env.iconLocks);
    assert Masked(icons) == icons;
    assert icons == d.store.icons <==> forall i :: 0 <= i < ICON_COUNT ==> icons[i] == d.store.icons[i];
  }

  lemma OperationKeepsCoherent(d: Device, op: Operation, defaults: MC.Config)
    requires Coherent(d) && QuietOperation(op) && Performed(d, op, defaults).1 != Failed(RestoreFailed)
    ensures var (after, outcome) := Performed(d, op, defaults);
            && Coherent(after)
            && after.runtime ==
               if outcome == Done(Changed) && op.Update? then Healed(op.updater(d.runtime).1) else d.runtime
  {
    hide Transacted, Healed;
    match op
    case Update(updater, env) => UpdateIsAtomic(d, updater, defaults, env);
    case ForceUpdate(env) => AppliedCoherent(d, defaults, env);
    case OtherSave(env) => OtherSaveIsCoherentIff(d, defaults, env);
  }

  /**
    Any run of updates, forced saves and saves by other services in which no restore fails keeps store,
    flash and runtime in agreement, on the state an always-working register would hold.
  */
  lemma {:induction false} RunIsCoherent(d: Device, ops: seq<Operation>, defaults: MC.Config)
    requires Coherent(d)
    requires forall i :: 0 <= i < |ops| ==> QuietOperation(ops[i])
    requires NoRestoreFails(d, ops, defaults)
    ensures Coherent(Run(d, ops, defaults))
    ensures Run(d, ops, defaults).runtime == Ideal(d.runtime, d, ops, defaults)
    decreases |ops|
  {
    hide Coherent, QuietOperation, Performed;
    if |ops| > 0 {
      OperationKeepsCoherent(d, ops[0], defaults);
      RunIsCoherent(Performed(d, ops[0], defaults).0, ops[1..], defaults);
    }
  }

  /** One reported change repairs whatever a failed restore has taken apart, for good up to the next one. */
  lemma RunRecovers(d: Device, ops: seq<Operation>, defaults: MC.Config)
    requires |ops| > 0 && ops[0].Update? && Performed(d, ops[0], defaults).1 == Done(Changed)
    requires forall i :: 0 <= i < |ops| ==> QuietOperation(ops[i])
    requires NoRestoreFails(d, ops, defaults)
    ensures Coherent(Run(d, ops, defaults))
  {
    assert Coherent(Performed(d, ops[0], defaults).0) by {
      hide Transacted, Coherent;
      ChangeIsCoherentIff(d, ops[0].updater, defaults, ops[0].env);
    }
    hide Coherent, QuietOperation, Performed;
    RunIsCoherent(Performed(d, ops[0], defaults).0, ops[1..], defaults);
  }

  /**
    A state that was rejected without being undone is not on flash and does not run, until the next save
    by another service puts it on flash.
  */
  lemma RejectedStateReachesFlash(d: Device, next: State, defaults: MC.Config)
      returns (env: UpdateEnv, persist: PersistEnv)
    requires Coherent(d) && Healed(next) == next
    ensures var rejected := d.(store := next);
            && Transacted(d, _ => (Changed, next), true, defaults, env) == (rejected, Failed(RestoreFailed))
            && var saved := Persisted(rejected, defaults, persist);
               saved.files.config == Some(Whole(next)) && saved.runtime == d.runtime
  {
    hide MC.Healed;
    persist := PersistEnv(true, ALL_LOCKS, GOOD_DISK);
    var write, sync := WriteEnv(true, ALL_LOCKS), SyncEnv(true, true, ALL_LOCKS, ALL_LOCKS);
    env := UpdateEnv(true, true, sync, write, ApplyEnv(true, false, sync, persist), true, [],
        UndoEnv(false, write, persist));
    RestoresAll(d.store.icons, next.icons, ALL_LOCKS);
    CapturesAll(next.icons, ALL_LOCKS);
  }

  // ---- Where the silent timeouts matter ----

  /** An update got as far as changing the stores, was rejected, and its undo reported success. */
  ghost predicate RolledBack(d: Device, updater: Updater, defaults: MC.Config, env: UpdateEnv) {
    && env.allocation && env.lock && SyncSucceeds(d.store, env.sync)
    && updater(Synced(d.store, env.sync)).0 == Changed
    && var outcome := Transacted(d, updater, true, defaults, env).1; outcome.Failed? && outcome != Failed(RestoreFailed)
  }

  lemma SyncedIsHealed(store: State, env: SyncEnv)
    requires Masked(store.icons) == store.icons
    ensures Healed(Synced(store, env)) == Synced(store, env)
  {
    HealedTwice(store);
    assert Masked(Captured(store.icons, env.hasLocks)) == Captured(store.icons, env.hasLocks);
  }

  /** Such an undo leaves what the update saw at its start. */
  lemma RolledBackToSynced(d: Device, updater: Updater, defaults: MC.Config, env: UpdateEnv)
    requires Masked(d.store.icons) == d.store.icons
    requires RolledBack(d, updater, defaults, env)
    ensures Transacted(d, updater, true, defaults, env).0.store == Synced(d.store, env.sync)
  {
    var previous := Synced(d.store, env.sync);
    SyncedIsHealed(d.store, env.sync);
    var written := d.(store := Written(d.store, updater(previous).1, env.write));
    hide Healed, Synced, Undone, Applied, Written, Masked;
    if WriteSucceeds(env.write) {
      var (applied, failure) := Applied(written, defaults, env.apply);
      UndoneRestores(applied, previous, failure.None?, defaults, env.undo);
    } else {
      UndoneRestores(written, previous, false, defaults, env.undo);
    }
  }

  /**
    A rollback that reports success restores what readers saw exactly when no icon that was
    present had its presence check time out at the start: that timeout reads as "no icon".
  */
  lemma RollbackRestoresIff(d: Device, updater: Updater, defaults: MC.Config, env: UpdateEnv)
    requires Masked(d.store.icons) == d.store.icons
    requires RolledBack(d, updater, defaults, env)
    ensures Healed(Transacted(d, updater, true, defaults, env).0.store) == Healed(d.store)
        <==> SeesAllIcons(d.store, env.sync.hasLocks)
  {
    RolledBackToSynced(d, updater, defaults, env);
    SyncedIsHealed(d.store, env.sync);
    hide Transacted, MC.Healed, Masked;
    var captured := Captured(d.store.icons, env.sync.hasLocks);
    assert captured == d.store.icons <==> forall i :: 0 <= i < ICON_COUNT ==> captured[i] == d.store.icons[i];
  }

  ghost predicate SeesAllIcons(store: State, locks: Locks) {
    forall i :: 0 <= i < ICON_COUNT && store.icons[i].Some? ==> locks[i]
  }

  /**
    A save that reports success wrote the stores' contents exactly when no lock silently timed out and
    the write was whole.
  */
  lemma SavedFaithfullyIff(d: Device, defaults: MC.Config, env: PersistEnv)
    requires Saves(d.files, env.disk)
    ensures Persisted(d, defaults, env).files.config == Some(Whole(d.store)) <==>
            && env.disk.WritesAll()
            && (env.configLock || d.store.config == defaults)
            && SeesAllIcons(d.store, env.iconLocks)
  {
    var captured := Captured(d.store.icons, env.iconLocks);
    assert captured == d.store.icons <==> forall i :: 0 <= i < ICON_COUNT ==> captured[i] == d.store.icons[i];
  }

  /** The update got as far as saving the new state. */
  predicate ReachesSave(d: Device, next: State, env: UpdateEnv) {
    && WriteSucceeds(env.write) && env.apply.allocation && env.apply.lock
    && SyncSucceeds(Written(d.store, next, env.write), env.apply.sync)
  }

  /**
    With quiet locks, an update that reports a rollback leaves the three in agreement on the previous state
    exactly when the save it made was undone by a whole one, or failed without losing the file.
  */
  lemma RollbackIsCoherentIff(d: Device, updater: Updater, defaults: MC.Config, env: UpdateEnv)
    requires Coherent(d) && All(env.sync.hasLocks) && RolledBack(d, updater, defaults, env)
    requires env.undo.persist.configLock && All(env.undo.persist.iconLocks)
    ensures var after, disk := Transacted(d, updater, true, defaults, env).0, env.apply.persist.disk;
            Coherent(after) && after.runtime == d.runtime <==>
              (ReachesSave(d, updater(d.runtime).1, env) ==>
                 if Saves(d.files, disk) then env.undo.persist.disk.WritesAll() else !LosesConfig(d.files, disk))
  {
    CapturesAll(d.store.icons, env.sync.hasLocks);
    HealedTwice(d.store);
    var previous := d.runtime;
    var written := d.(store := Written(d.store, updater(previous).1, env.write));
    var (applied, failure) := Applied(written, defaults, env.apply);
    CapturesAll(previous.icons, env.undo.persist.iconLocks);
    hide Healed, Synced, Captured, Masked, SyncSucceeds;
    if !WriteSucceeds(env.write) {
      UndoneRestores(written, previous, false, defaults, env.undo);
    } else {
      UndoneRestores(applied, previous, failure.None?, defaults, env.undo);
    }
  }

  const ALL_LOCKS: Locks := [true, true, true]
  const FIRST_TIMES_OUT: Locks := [false, true, true]
  const GOOD_DISK := DiskEnv(true, true, true, 2, 2, false, true, true, true, true, true, true)

  /** A coherent device with any configuration and one icon. */
  function WithOneIcon(c: MC.Config): Device {
    var s := Healed(State(c, [Some(seq(ICON_PIXELS, _ => 0)), None, None]));
    Device(s, Files(Some(Whole(s)), None, None), s)
  }

  lemma OneIconIsCoherent(c: MC.Config)
    ensures Coherent(WithOneIcon(c)) && WithOneIcon(c).store.icons[0].Some?
  {
    HealedTwice(State(c, [Some(seq(ICON_PIXELS, _ => 0)), None, None]));
    MaskedTwice([Some(seq(ICON_PIXELS, _ => 0)), None, None]);
  }

  /** The first presence check and then a later lock time out: the update is undone, and the icon is gone. */
  lemma RollbackLosesIcon(c: MC.Config) returns (updater: Updater, env: UpdateEnv)
    ensures Coherent(WithOneIcon(c)) && RolledBack(WithOneIcon(c), updater, c, env)
    ensures Healed(Transacted(WithOneIcon(c), updater, true, c, env).0.store) != Healed(WithOneIcon(c).store)
  {
    OneIconIsCoherent(c);
    var d := WithOneIcon(c);
    updater := s => (Changed, s);
    var write, persist := WriteEnv(true, ALL_LOCKS), PersistEnv(true, ALL_LOCKS, GOOD_DISK);
    var apply := ApplyEnv(true, false, SyncEnv(true, true, ALL_LOCKS, ALL_LOCKS), persist);
    env := UpdateEnv(true, true, SyncEnv(true, true, FIRST_TIMES_OUT, ALL_LOCKS), write, apply, true, [],
        UndoEnv(true, write, persist));
    assert !SeesAllIcons(d.store, env.sync.hasLocks);
    RollbackRestoresIff(d, updater, c, env);
  }

  /** A save whose first icon times out reports success, and the file has lost the icon. */
  lemma SaveLosesIcon(c: MC.Config) returns (env: PersistEnv)
    ensures Coherent(WithOneIcon(c)) && Saves(WithOneIcon(c).files, env.disk) && env.disk.WritesAll()
    ensures Persisted(WithOneIcon(c), c, env).files.config != Some(Whole(WithOneIcon(c).store))
  {
    OneIconIsCoherent(c);
    env := PersistEnv(true, FIRST_TIMES_OUT, GOOD_DISK);
    assert !SeesAllIcons(WithOneIcon(c).store, env.iconLocks);
    SavedFaithfullyIff(WithOneIcon(c), c, env);
  }

  // ---- The service ----

  class MatrixSettingsStore {
    const defaults: MC.Config
    const icons: IconStore
    const file: ConfigFile<State>
    var config: MC.Config

    ghost predicate Valid()
      reads this, icons.has, icons.pixels
    {
      icons.Valid()
    }

    ghost function Contents(): State
      requires Valid()
      reads this, icons.has, icons.pixels
    {
      State(config, icons.Contents())
    }

    constructor (defaults: MC.Config, config: MC.Config, files: Files<State>)
      ensures Valid() && fresh(icons.has) && fresh(icons.pixels) && fresh(file)
      ensures Contents() == State(config, [None, None, None]) && file.files == files && this.defaults == defaults
    {
      this.defaults := defaults;
      this.config := config;
      var iconStore := new IconStore();
      icons := iconStore;
      file := new ConfigFile(files);
    }

    method Sync(env: SyncEnv) returns (ok: bool, s: State)
      requires Valid()
      ensures ok <==> env.configLock && CaptureSucceeds(Contents().icons, env.hasLocks, env.copyLocks)
      ensures ok ==> s == State(Contents().config, Captured(Contents().icons, env.hasLocks))
    {
      s := State(defaults, [None, None, None]);
      if env.configLock {
        s := s.(config := config);
      }
      var captured, snapshot := icons.Capture(env.hasLocks, env.copyLocks);
      ok := env.configLock && captured;
      if ok {
        s := s.(icons := snapshot);
      }
    }

    method Write(s: State, env: WriteEnv) returns (ok: bool)
      requires Valid()
      modifies this, icons.has, icons.pixels
      ensures Valid() && ok == WriteSucceeds(env)
      ensures Contents() == Written(old(Contents()), s, env)
    {
      if !env.configLock {
        return false;
      }
      config := s.config;
      ok := icons.Restore(s.icons, env.iconLocks);
    }

    method BuildDocument(env: PersistEnv) returns (document: State)
      requires Valid()
      ensures document == Document(Contents(), defaults, env)
    {
      var documented: Icons := [None, None, None];
      for i := 0 to ICON_COUNT
        invariant forall j :: 0 <= j < i ==> documented[j] == Captured(icons.Contents(), env.iconLocks)[j]
        invariant forall j :: i <= j < ICON_COUNT ==> documented[j] == None
      {
        assert icons.Contents()[i] == icons.Icon(i);
        var copied, bitmap := icons.CopyCustomIcon(i, ICON_PIXELS, env.iconLocks[i]);
        if copied {
          var image: Bitmap := bitmap;
          documented := documented[i := Some(image)];
        }
      }
      assert documented == Captured(icons.Contents(), env.iconLocks);
      document := State(if env.configLock then config else defaults, documented);
    }

    method Persist(env: PersistEnv) returns (ok: bool)
      requires Valid()
      modifies file
      ensures Valid() && ok == Saves(old(file.files), env.disk)
      ensures file.files == AfterSave(old(file.files), Document(Contents(), defaults, env), env.disk)
    {
      var document := BuildDocument(env);
      ghost var trail;
      ok, trail := file.Save(document, env.disk);
    }
  }

  class MatrixSettingsService {
    const store: MatrixSettingsStore
    /** Overwritten from the stores at the start of every read and update. */
    var state: State
    var runtime: State

    ghost predicate Valid()
      reads this, store, store.icons.has, store.icons.pixels
    {
      store.Valid()
    }

    ghost function View(): Device
      requires Valid()
      reads this, store, store.file, store.icons.has, store.icons.pixels
    {
      Device(store.Contents(), store.file.files, runtime)
    }

    constructor (store: MatrixSettingsStore)
      requires store.Valid()
      ensures Valid() && this.store == store
      ensures View() == Device(store.Contents(), store.file.files, state)
    {
      this.store := store;
      state := State(store.defaults, [None, None, None]);
      runtime := State(store.defaults, [None, None, None]);
    }

    method SyncCachedState(env: SyncEnv) returns (ok: bool)
      requires Valid()
      modifies this
      ensures Valid() && View() == old(View())
      ensures ok <==> SyncSucceeds(store.Contents(), env)
      ensures ok ==> state == Synced(store.Contents(), env)
      ensures !ok ==> state == old(state)
    {
      if !env.allocation {
        return false;
      }
      var synced, snapshot := store.Sync(env);
      if !synced {
        return false;
      }
      var healed := MC.Heal(snapshot.config);
      state := snapshot.(config := healed);
      return true;
    }

    method WriteStateToStores(s: State, env: WriteEnv) returns (ok: bool)
      requires Valid()
      modifies this, store, store.icons.has, store.icons.pixels
      ensures Valid() && ok == WriteSucceeds(env)
      ensures View() == old(View()).(store := Written(old(View()).store, s, env))
      ensures state == if ok then s else old(state)
    {
      ok := store.Write(s, env);
      if ok {
        state := s;
      }
    }

    method PersistAndApplyCurrentState(env: ApplyEnv) returns (failure: Option<ErrorCode>)
      requires Valid()
      modifies this, store.file
      ensures Valid()
      ensures (View(), failure) == Applied(old(View()), store.defaults, env)
    {
      if !env.allocation || !env.lock {
        return Some(UpdateFailed);
      }
      var synced := SyncCachedState(env.sync);
      if !synced {
        return Some(UpdateFailed);
      }
      var snapshot := state;
      var saved := store.Persist(env.persist);
      if !saved {
        return Some(SaveFailed);
      }
      runtime := snapshot;
      return None;
    }

    method RollbackToState(previous: State, persistAndApply: bool, env: UndoEnv) returns (ok: bool)
      requires Valid()
      modifies this, store, store.file, store.icons.has, store.icons.pixels
      ensures Valid()
      ensures (View(), ok) == Undone(old(View()), previous, persistAndApply, store.defaults, env)
      ensures ok ==> state == previous
    {
      hide Written, WriteSucceeds, AfterSave, Document;
      if !env.lock {
        return false;
      }
      var written := WriteStateToStores(previous, env.write);
      if !written {
        return false;
      }
      if !persistAndApply {
        return true;
      }
      var saved := store.Persist(env.persist);
      if !saved {
        return false;
      }
      runtime := previous;
      return true;
    }

    method CallUpdateHandlers(env: UpdateEnv) returns (failure: Option<ErrorCode>)
      ensures failure == HandlersVerdict(env)
    {
      if !env.handlerLock {
        return Some(UpdateFailed);
      }
      var code := InvokeUpdateHandlers(env.handlers);
      return match code case None => None case Some(c) => Some(HandlerFailed(c));
    }

    /** The second half of an update: save, apply, announce, and undo if one of them fails. */
    method PropagateState(previous: State, env: UpdateEnv) returns (outcome: Outcome)
      requires Valid()
      modifies this, store, store.file, store.icons.has, store.icons.pixels
      ensures Valid()
      ensures (View(), outcome) == Propagated(old(View()), previous, store.defaults, env)
      ensures outcome.Failed? && outcome != Failed(RestoreFailed) ==> state == previous
    {
      hide Applied, Undone, HandlersVerdict;
      var failure := PersistAndApplyCurrentState(env.apply);
      if failure.Some? {
        var undone := RollbackToState(previous, false, env.undo);
        return Failed(if undone then failure.value else RestoreFailed);
      }
      failure := CallUpdateHandlers(env);
      if failure.None? {
        return Done(Changed);
      }
      var undone := RollbackToState(previous, true, env.undo);
      return Failed(if undone then failure.value else RestoreFailed);
    }

    /** An update whose updater has changed the cached state. */
    method CommitState(previous: State, propagate: bool, env: UpdateEnv) returns (outcome: Outcome)
      requires Valid()
      modifies this, store, store.file, store.icons.has, store.icons.pixels
      ensures Valid()
      ensures (View(), outcome) == Committed(old(View()), previous, old(state), propagate, store.defaults, env)
      ensures outcome.Failed? && outcome != Failed(RestoreFailed) ==> state == previous
    {
      hide Written, WriteSucceeds, Undone, Propagated;
      var committed := WriteStateToStores(state, env.write);
      if !committed {
        state := previous;
        var undone := RollbackToState(previous, false, env.undo);
        return Failed(if undone then UpdateFailed else RestoreFailed);
      }
      if !propagate {
        return Done(Changed);
      }
      outcome := PropagateState(previous, env);
    }

    method RunStateUpdate(updater: Updater, propagate: bool, env: UpdateEnv) returns (outcome: Outcome)
      requires Valid()
      modifies this, store, store.file, store.icons.has, store.icons.pixels
      ensures Valid()
      ensures (View(), outcome) == Transacted(old(View()), updater, propagate, store.defaults, env)
      ensures env.allocation && env.lock && SyncSucceeds(old(View()).store, env.sync) ==>
                outcome.Done? || outcome == Failed(RestoreFailed) || state == Synced(old(View()).store, env.sync)
    {
      if !env.allocation || !env.lock {
        return Failed(UpdateFailed);
      }
      var synced := SyncCachedState(env.sync);
      if !synced {
        return Failed(UpdateFailed);
      }
      var previous := state;
      var (result, next) := updater(state);
      state := next;
      if result == Error {
        state := previous;
        return Failed(UpdateFailed);
      }
      if result == Unchanged {
        return Done(result);
      }
      outcome := CommitState(previous, propagate, env);
    }
  }
}
