/**
  The transactional settings service of the alarm rules. Unlike the matrix service it writes the
  rules it was given to flash, and its rollback always rewrites flash and runtime, so that no
  assumption is needed about what a failed save or a failed apply leaves behind. A save that reports
  success over a cut file is a different matter: it goes unnoticed.
*/
module AlarmSettings {
  import opened Options
  import opened ConfigPersistence
  import opened Transactions

  /** Handing rules to the alarm engine works, or fails and leaves it with arbitrary ones. */
  datatype Attempt<R> = Works | Breaks(debris: R) {
    function After(intended: R): R {
      if Works? then intended else debris
    }
  }

  datatype UndoEnv<R> = UndoEnv(lock: bool, commit: bool, disk: DiskEnv, apply: Attempt<R>)

  datatype UpdateEnv<R> = UpdateEnv(
    allocation: bool,
    lock: bool,
    read: bool,
    commit: bool,
    handlerLock: bool,
    disk: DiskEnv,
    apply: Attempt<R>,
    handlers: seq<Option<string>>,  // the handlers registered after the service's own
    undo: UndoEnv<R>)
  {
    /** Neither the save nor the one that undoes it is cut short. */
    predicate WritesAll() {
      disk.WritesAll() && undo.disk.WritesAll()
    }
  }

  /** The live rule store, the rules' part of the files on flash and the rules the alarm engine runs. */
  datatype Rules<R> = Rules(store: R, files: Files<R>, applied: R)

  /** Store, flash and alarm engine all have these rules. */
  ghost predicate Everywhere<R>(d: Rules<R>, rules: R) {
    d.store == rules && d.files.config == Some(Whole(rules)) && d.applied == rules
  }

  ghost predicate Coherent<R>(d: Rules<R>) {
    Everywhere(d, d.store)
  }

  /** Saving rules and, if that worked, applying them. */
  function SavedAndApplied<R>(d: Rules<R>, rules: R, disk: DiskEnv, apply: Attempt<R>)
    : (r: (Rules<R>, Option<ErrorCode>))
  {
    var saved := d.(files := AfterSave(d.files, rules, disk));
    if !Saves(d.files, disk) then (saved, Some(SaveFailed))
    else (saved.(applied := apply.After(rules)), if apply.Works? then None else Some(ApplyFailed))
  }

  /** The service's own handler saves and applies; the others follow. */
  function Announced<R>(d: Rules<R>, rules: R, env: UpdateEnv<R>): (r: (Rules<R>, Option<ErrorCode>)) {
    if !env.handlerLock then (d, Some(UpdateFailed))
    else
      var (after, failure) := SavedAndApplied(d, rules, env.disk, env.apply);
      if failure.Some? then (after, failure)
      else (after, match FirstFailure(env.handlers) case None => None case Some(code) => Some(HandlerFailed(code)))
  }

  function Undone<R>(d: Rules<R>, previous: R, env: UndoEnv<R>): (r: (Rules<R>, bool)) {
    if !env.lock || !env.commit then (d, false)
    else
      var (after, failure) := SavedAndApplied(d.(store := previous), previous, env.disk, env.apply);
      (after, failure.None?)
  }

  function Transacted<R>(d: Rules<R>, updater: R -> (UpdateResult, R), propagate: bool, env: UpdateEnv<R>)
    : (r: (Rules<R>, Outcome))
  {
    if !env.allocation || !env.lock || !env.read then (d, Failed(UpdateFailed))
    else
      var (result, next) := updater(d.store);
      if result == Error then (d, Failed(UpdateFailed))
      else if result == Unchanged then (d, Done(Unchanged))
      else if !env.commit then (d, Failed(UpdateFailed))
      else
        var committed := d.(store := next);
        if !propagate then (committed, Done(Changed))
        else
          var (announced, failure) := Announced(committed, next, env);
          if failure.None? then (announced, Done(Changed))
          else
            var (undone, ok) := Undone(announced, d.store, env.undo);
            (undone, Failed(if ok then failure.value else RestoreFailed))
  }

  // ---- Which outcome an update reports ----

  /** The update reads the rules, its updater reports a change, and the change is committed. */
  predicate Commits<R>(d: Rules<R>, updater: R -> (UpdateResult, R), env: UpdateEnv<R>) {
    env.allocation && env.lock && env.read && env.commit && updater(d.store).0 == Changed
  }

  predicate SavesChange<R>(d: Rules<R>, updater: R -> (UpdateResult, R), env: UpdateEnv<R>) {
    Commits(d, updater, env) && env.handlerLock && Saves(d.files, env.disk)
  }

  /** An undo gets everything it needs, given the files it finds. */
  predicate Undoes<R>(files: Files<R>, env: UndoEnv<R>) {
    env.lock && env.commit && Saves(files, env.disk) && env.apply.Works?
  }

  /** A propagating update: which steps must work for each outcome; the code is that of the first step that fails. */
  lemma OutcomeIs<R>(d: Rules<R>, updater: R -> (UpdateResult, R), env: UpdateEnv<R>)
    ensures var outcome := Transacted(d, updater, true, env).1;
            var saved, applied := SavesChange(d, updater, env), SavesChange(d, updater, env) && env.apply.Works?;
            var announced := applied && forall i :: 0 <= i < |env.handlers| ==> env.handlers[i] == None;
            var undoes := Undoes(if env.handlerLock then AfterSave(d.files, updater(d.store).1, env.disk) else d.files,
              env.undo);
            && (outcome == Done(Unchanged) <==>
                  env.allocation && env.lock && env.read && updater(d.store).0 == Unchanged)
            && (outcome == Done(Changed) <==> announced)
            && (outcome == Failed(SaveFailed) <==> Commits(d, updater, env) && env.handlerLock && !saved && undoes)
            && (outcome == Failed(ApplyFailed) <==> saved && !applied && undoes)
            && (forall code :: outcome == Failed(HandlerFailed(code)) <==>
                  applied && undoes && exists i :: FailsFirst(env.handlers, i, code))
            && (outcome == Failed(RestoreFailed) <==> Commits(d, updater, env) && !announced && !undoes)
            && outcome != Done(Error)
  {
    OneFirstFailure(env.handlers);
    hide FirstFailure, FailsFirst, Saves, AfterSave;
  }

  /** An update that does not propagate only touches the store. */
  lemma QuietOutcomeIs<R>(d: Rules<R>, updater: R -> (UpdateResult, R), env: UpdateEnv<R>)
    ensures var (after, outcome) := Transacted(d, updater, false, env);
            && (outcome == Done(Unchanged) <==>
                  env.allocation && env.lock && env.read && updater(d.store).0 == Unchanged)
            && (outcome == Done(Changed) <==> Commits(d, updater, env))
            && (outcome.Failed? ==> outcome == Failed(UpdateFailed)) && outcome != Done(Error)
            && after == if outcome == Done(Changed) then d.(store := updater(d.store).1) else d
  {
  }

  /**
    A propagating update whose writes are whole and that reports success leaves the new rules everywhere;
    one that fails without a restore failure either touched nothing or put the previous rules everywhere,
    whatever the failed steps left behind and even if the three disagreed before.
  */
  lemma UpdateIsAtomic<R>(d: Rules<R>, updater: R -> (UpdateResult, R), env: UpdateEnv<R>)
    requires env.WritesAll()
    ensures var (after, outcome) := Transacted(d, updater, true, env);
            match outcome
            case Done(Changed) => updater(d.store).0 == Changed && Everywhere(after, updater(d.store).1)
            case Done(Unchanged) => updater(d.store).0 == Unchanged && after == d
            case Done(Error) => false
            case Failed(RestoreFailed) =>
              || !env.undo.lock || !env.undo.commit || env.undo.apply.Breaks?
              || !Saves(Announced(d.(store := updater(d.store).1), updater(d.store).1, env).0.files, env.undo.disk)
            case Failed(_) => after == d || Everywhere(after, d.store)
  {
    var (result, next) := updater(d.store);
    if env.allocation && env.lock && env.read && result == Changed && env.commit {
      var (announced, failure) := Announced(d.(store := next), next, env);
      var undone := Undone(announced, d.store, env.undo);
    }
  }

  /** An update got as far as changing the store, was rejected, and its undo reported success. */
  ghost predicate RolledBack<R>(d: Rules<R>, updater: R -> (UpdateResult, R), env: UpdateEnv<R>) {
    && env.allocation && env.lock && env.read && env.commit && updater(d.store).0 == Changed
    && var outcome := Transacted(d, updater, true, env).1; outcome.Failed? && outcome != Failed(RestoreFailed)
  }

  /** What a reported change and a reported rollback are worth: each is true exactly when its save was whole. */
  lemma ReportIsTrueIff<R>(d: Rules<R>, updater: R -> (UpdateResult, R), env: UpdateEnv<R>)
    ensures var (after, outcome) := Transacted(d, updater, true, env);
            && (outcome == Done(Changed) ==> (Everywhere(after, updater(d.store).1) <==> env.disk.WritesAll()))
            && (RolledBack(d, updater, env) ==> (Everywhere(after, d.store) <==> env.undo.disk.WritesAll()))
  {
    var (result, next) := updater(d.store);
    if env.allocation && env.lock && env.read && result == Changed && env.commit {
      var (announced, failure) := Announced(d.(store := next), next, env);
      var undone := Undone(announced, d.store, env.undo);
    }
  }

  const FLASH_WITH_ROOM_FOR_ONE := DiskEnv(true, true, true, 2, 1, false, true, true, true, true, true, true)

  /** On a flash with room for one byte an update is reported as done, and neither rule set can be loaded any more. */
  lemma ReportedChangeLosesRules<R>(rules: R, next: R) returns (updater: R -> (UpdateResult, R), env: UpdateEnv<R>)
    ensures var before := Files(Some(Whole(rules)), None, None);
            Transacted(Rules(rules, before, rules), updater, true, env) ==
                (Rules(next, Files(Some(Cut(next, 1)), None, None), next), Done(Changed))
  {
    updater := r => (Changed, next);
    env := UpdateEnv(true, true, true, true, true, FLASH_WITH_ROOM_FOR_ONE, Works, [],
        UndoEnv(true, true, FLASH_WITH_ROOM_FOR_ONE, Works));
  }

  // ---- Whole runs ----

  /** An update, or a save of the shared document by another service, which reads the rules from their store. */
  datatype Operation<!R> =
    | Update(updater: R -> (UpdateResult, R), env: UpdateEnv<R>)
    | OtherSave(rulesRead: bool, disk: DiskEnv)

  /** When the rules cannot be read, the other service's document is built without any. */
  function OtherSaved<R>(d: Rules<R>, rulesRead: bool, none: R, disk: DiskEnv): Rules<R> {
    d.(files := AfterSave(d.files, if rulesRead then d.store else none, disk))
  }

  /** Another service's save keeps the three in agreement exactly when it does not lose, cut or skip the rules. */
  lemma OtherSaveIsCoherentIff<R>(d: Rules<R>, rulesRead: bool, none: R, disk: DiskEnv)
    requires Coherent(d)
    ensures var (after, outcome) := Performed(d, OtherSave(rulesRead, disk), none);
            && after == OtherSaved(d, rulesRead, none, disk)
            && (outcome == Done(Unchanged) || outcome == Failed(SaveFailed))
            && (Coherent(after) <==>
                  if outcome.Done? then disk.WritesAll() && (rulesRead || d.store == none)
                  else !LosesConfig(d.files, disk))
  {
  }

  /** A save by another service that cannot read the rules reports success and leaves none on flash. */
  lemma OtherSaveLosesRules<R>(rules: R, none: R) returns (disk: DiskEnv)
    ensures var files := Files(Some(Whole(rules)), None, None);
            && Saves(files, disk) && disk.WritesAll()
            && OtherSaved(Rules(rules, files, rules), false, none, disk).files.config == Some(Whole(none))
  {
    disk := DiskEnv(true, true, true, 2, 2, false, true, true, true, true, true, true);
  }

  function Performed<R>(d: Rules<R>, op: Operation<R>, none: R): (r: (Rules<R>, Outcome)) {
    match op
    case Update(updater, env) => Transacted(d, updater, true, env)
    case OtherSave(rulesRead, disk) =>
      (OtherSaved(d, rulesRead, none, disk), if Saves(d.files, disk) then Done(Unchanged) else Failed(SaveFailed))
  }

  function Run<R>(d: Rules<R>, ops: seq<Operation<R>>, none: R): Rules<R>
    decreases |ops|
  {
    if |ops| == 0 then d else Run(Performed(d, ops[0], none).0, ops[1..], none)
  }

  ghost predicate NoRestoreFails<R(!new)>(d: Rules<R>, ops: seq<Operation<R>>, none: R)
    decreases |ops|
  {
    |ops| > 0 ==>
      && Performed(d, ops[0], none).1 != Failed(RestoreFailed)
      && NoRestoreFails(Performed(d, ops[0], none).0, ops[1..], none)
  }

  /** Nothing is lost without a report: writes are whole, and other services read the rules and keep the file. */
  ghost predicate Quiet<R>(op: Operation<R>) {
    match op
    case Update(_, env) => env.WritesAll()
    case OtherSave(rulesRead, disk) => rulesRead && disk.WritesAll() && (disk.promote || disk.putBack)
  }

  lemma OperationKeepsCoherent<R>(d: Rules<R>, op: Operation<R>, none: R)
    requires Coherent(d) && Quiet(op) && Performed(d, op, none).1 != Failed(RestoreFailed)
    ensures Coherent(Performed(d, op, none).0)
  {
    hide Transacted;
    match op
    case Update(updater, env) => UpdateIsAtomic(d, updater, env);
    case OtherSave(rulesRead, disk) => OtherSaveIsCoherentIff(d, rulesRead, none, disk);
  }

  /** No quiet run without a restore failure takes store, flash and runtime apart. */
  lemma {:induction false} RunStaysCoherent<R(!new)>(d: Rules<R>, ops: seq<Operation<R>>, none: R)
    requires Coherent(d) && NoRestoreFails(d, ops, none)
    requires forall i :: 0 <= i < |ops| ==> Quiet(ops[i])
    ensures Coherent(Run(d, ops, none))
    decreases |ops|
  {
    hide Coherent, Quiet, Performed;
    if |ops| > 0 {
      OperationKeepsCoherent(d, ops[0], none);
      RunStaysCoherent(Performed(d, ops[0], none).0, ops[1..], none);
    }
  }

  /** And one reported change repairs any disagreement for good, again up to a restore failure. */
  lemma RunRecovers<R(!new)>(d: Rules<R>, ops: seq<Operation<R>>, none: R)
    requires |ops| > 0 && Performed(d, ops[0], none).1 == Done(Changed)
    requires NoRestoreFails(d, ops, none) && forall i :: 0 <= i < |ops| ==> Quiet(ops[i])
    ensures Coherent(Run(d, ops, none))
  {
    assert Coherent(Performed(d, ops[0], none).0) by {
      UpdateIsAtomic(d, ops[0].updater, ops[0].env);
    }
    hide Coherent, Quiet, Performed;
    RunStaysCoherent(Performed(d, ops[0], none).0, ops[1..], none);
  }

  // ---- The service ----

  class AlarmSettingsService<R(==)> {
    /** Overwritten from the store at the start of every read and update. */
    var state: R
    var store: R
    const file: ConfigFile<R>
    var applied: R

    ghost function View(): Rules<R>
      reads this, file
    {
      Rules(store, file.files, applied)
    }

    constructor (store: R, files: Files<R>, applied: R)
      ensures View() == Rules(store, files, applied) && state == store && fresh(file)
    {
      this.state, this.store, this.applied := store, store, applied;
      file := new ConfigFile(files);
    }

    method PersistStateSnapshot(rules: R, disk: DiskEnv) returns (ok: bool)
      modifies file
      ensures ok == Saves(old(file.files), disk) && file.files == AfterSave(old(file.files), rules, disk)
    {
      ghost var trail;
      ok, trail := file.Save(rules, disk);
    }

    method ApplyStateSnapshot(rules: R, apply: Attempt<R>) returns (ok: bool)
      modifies this`applied
      ensures ok == apply.Works? && applied == apply.After(rules)
    {
      applied := apply.After(rules);
      ok := apply.Works?;
    }

    method CommitCachedState(commit: bool) returns (ok: bool)
      modifies this`store
      ensures ok == commit && store == if commit then state else old(store)
    {
      if commit {
        store := state;
      }
      ok := commit;
    }

    method PersistAndApply(env: UpdateEnv<R>) returns (failure: Option<ErrorCode>)
      modifies file, this`applied
      ensures (View(), failure) == SavedAndApplied(old(View()), state, env.disk, env.apply)
    {
      var saved := PersistStateSnapshot(state, env.disk);
      if !saved {
        return Some(SaveFailed);
      }
      var ok := ApplyStateSnapshot(state, env.apply);
      if !ok {
        return Some(ApplyFailed);
      }
      return None;
    }

    method CallUpdateHandlers(env: UpdateEnv<R>) returns (failure: Option<ErrorCode>)
      modifies file, this`applied
      ensures (View(), failure) == Announced(old(View()), state, env)
    {
      if !env.handlerLock {
        return Some(UpdateFailed);
      }
      failure := PersistAndApply(env);
      if failure.Some? {
        return failure;
      }
      var code := InvokeUpdateHandlers(env.handlers);
      return match code case None => None case Some(c) => Some(HandlerFailed(c));
    }

    method RollbackToState(previous: R, env: UndoEnv<R>) returns (ok: bool)
      modifies this, file
      ensures (View(), ok) == Undone(old(View()), previous, env)
      ensures env.lock ==> state == previous
    {
      if !env.lock {
        return false;
      }
      state := previous;
      ok := CommitCachedState(env.commit);
      if !ok {
        return false;
      }
      ok := PersistStateSnapshot(previous, env.disk);
      if !ok {
        return false;
      }
      ok := ApplyStateSnapshot(previous, env.apply);
    }

    method RunStateUpdate(updater: R -> (UpdateResult, R), propagate: bool, env: UpdateEnv<R>)
        returns (outcome: Outcome)
      modifies this, file
      ensures (View(), outcome) == Transacted(old(View()), updater, propagate, env)
      ensures env.allocation && env.lock && env.read ==>
                outcome == Done(Unchanged) || outcome == Failed(RestoreFailed) || state == store
    {
      if !env.allocation || !env.lock || !env.read {
        return Failed(UpdateFailed);
      }
      state := store;
      var previous := state;
      var (result, next) := updater(state);
      state := next;
      if result == Error {
        state := previous;
        return Failed(UpdateFailed);
      }
      if result == Changed {
        var committed := CommitCachedState(env.commit);
        if !committed {
          state := previous;
          return Failed(UpdateFailed);
        }
      }
      if !propagate || result != Changed {
        return Done(result);
      }
      var failure := CallUpdateHandlers(env);
      if failure.None? {
        return Done(result);
      }
      var undone := RollbackToState(previous, env.undo);
      return Failed(if undone then failure.value else RestoreFailed);
    }
  }
}
