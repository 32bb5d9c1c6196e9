/**
  Replacing the configuration file on flash: the new document goes to a temporary file, the
  current file is renamed to a backup, and the temporary file is renamed into place.
*/
module ConfigPersistence {
  import opened Options

  const CONFIG_FILE_MAX_BYTES := 16384

  /** What a file holds: a document, or the first bytes of one that did not fit on the flash. */
  datatype Stored<T> = Whole(document: T) | Cut(document: T, length: nat)

  /** The three files involved; None is a missing file. */
  datatype Files<T> = Files(config: Option<Stored<T>>, temp: Option<Stored<T>>, backup: Option<Stored<T>>)

  /**
    What the file system lets each step of a save do; size is the document's, written what reached the
    file. Removing a file can fail too, which the save does not look at.
  */
  datatype DiskEnv = DiskEnv(
    mutex: bool,
    directory: bool,
    open: bool,
    size: nat,
    written: nat,
    overflowed: bool,
    backUp: bool,
    promote: bool,
    putBack: bool,
    dropTemp: bool,
    dropStale: bool,
    dropBackup: bool)
  {
    /** All that is checked of the write, which is not whether it was complete. */
    predicate AcceptsWrite() {
      0 < written <= CONFIG_FILE_MAX_BYTES && !overflowed
    }

    predicate ReachesRenames() {
      mutex && directory && open && AcceptsWrite()
    }

    predicate WritesAll() {
      written >= size
    }
  }

  /** What a write of a document leaves in its file. */
  function Landed<T>(document: T, env: DiskEnv): Stored<T> {
    if env.WritesAll() then Whole(document) else Cut(document, env.written)
  }

  /** A save whose last rename failed and whose backup could not be renamed back. */
  predicate LosesConfig<T>(files: Files<T>, env: DiskEnv) {
    env.ReachesRenames() && files.config.Some? && env.backUp && !env.promote && !env.putBack
  }

  /** A failed save that finds no configuration, but a backup from earlier that it can rename and not remove. */
  predicate RevivesStale<T>(files: Files<T>, env: DiskEnv) {
    && env.ReachesRenames() && files.config.None? && files.backup.Some?
    && !env.dropStale && !env.promote && env.putBack
  }

  predicate Saves<T>(files: Files<T>, env: DiskEnv) {
    env.ReachesRenames() && (files.config.None? || env.backUp) && env.promote
  }

  function Unless<T>(removed: bool, file: Option<T>): Option<T> {
    if removed then None else file
  }

  /** The backup once the configuration is moved aside. */
  function BackupOf<T>(files: Files<T>, env: DiskEnv): Option<Stored<T>> {
    if files.config.Some? then files.config else Unless(env.dropStale, files.backup)
  }

  function AfterSave<T>(files: Files<T>, document: T, env: DiskEnv): (after: Files<T>)
    ensures Saves(files, env) ==> after.config == Some(Landed(document, env))
    ensures LosesConfig(files, env) ==> after.config == None && after.backup == files.config
    ensures RevivesStale(files, env) ==> after.config == files.backup
    ensures !Saves(files, env) && !LosesConfig(files, env) && !RevivesStale(files, env) ==>
              after.config == files.config
  {
    if !env.mutex || !env.directory || !env.open then files
    else
      var temp := Unless(env.dropTemp, Some(Landed(document, env)));
      if !env.AcceptsWrite() then files.(temp := temp)
      else if files.config.Some? && !env.backUp then Files(files.config, temp, Unless(env.dropStale, files.backup))
      else
        var backup := BackupOf(files, env);
        if env.promote then Files(Some(Landed(document, env)), None, Unless(env.dropBackup, backup))
        else if backup.Some? && env.putBack then Files(backup, temp, None)
        else Files(None, temp, backup)
  }

  /**
    What is left beside the configuration: the temporary file if the save failed after opening it and could not
    remove it, and as the backup what was moved there or could not be removed, unless it was renamed back.
  */
  lemma LeftBeside<T>(files: Files<T>, document: T, env: DiskEnv)
    ensures var after := AfterSave(files, document, env);
            && (!(env.mutex && env.directory && env.open) ==> after == files)
            && (env.mutex && env.directory && env.open ==>
                  after.temp == if Saves(files, env) || env.dropTemp then None else Some(Landed(document, env)))
            && (!env.ReachesRenames() ==> after.backup == files.backup)
            && (env.ReachesRenames() ==>
                  var moved := files.config.Some? && env.backUp;
                  var backup := if moved then files.config else if env.dropStale then None else files.backup;
                  after.backup ==
                  if files.config.Some? && !env.backUp then backup
                  else if env.promote then (if env.dropBackup then None else backup)
                  else if env.putBack then None
                  else backup)
  {
  }

  /** A restart, which only looks at the configuration file, finds what was there before or the whole new document. */
  predicate Loadable<T(==)>(files: Files<T>, before: Files<T>, document: T) {
    files.config == before.config || files.config == Some(Whole(document))
  }

  /** A restart finds no configuration, although the old document is still there as the backup. */
  predicate Stranded<T(==)>(files: Files<T>, before: Files<T>) {
    before.config.Some? && files.config == None && files.backup == before.config
  }

  /** A restart finds a configuration from before the one that was deleted. */
  predicate Revived<T(==)>(files: Files<T>, before: Files<T>) {
    before.config.None? && before.backup.Some? && files.config == before.backup
  }

  /** A restart finds the first bytes of the new document. */
  predicate Truncated<T(==)>(files: Files<T>, document: T, env: DiskEnv) {
    files.config == Some(Cut(document, env.written)) && env.written < env.size
  }

  /** The save gets as far as moving an existing configuration out of the way. */
  predicate MovesOldAway<T>(files: Files<T>, env: DiskEnv) {
    env.ReachesRenames() && files.config.Some? && env.backUp
  }

  /** A save reports success over a truncated file exactly when it is accepted, renamed and short. */
  lemma ReportsTruncatedIff<T>(files: Files<T>, document: T, env: DiskEnv)
    ensures Saves(files, env) && AfterSave(files, document, env).config != Some(Whole(document)) <==>
            && env.mutex && env.directory && env.open && !env.overflowed
            && 0 < env.written <= 16384 && env.written < env.size
            && (files.config.None? || env.backUp) && env.promote
  {
  }

  /** On a flash with room for one byte a save reports success, and neither the old nor the new document is left. */
  lemma ShortWriteLosesConfig<T>(before: T, document: T) returns (env: DiskEnv)
    ensures var files := Files(Some(Whole(before)), None, None);
            Saves(files, env) && AfterSave(files, document, env) == Files(Some(Cut(document, 1)), None, None)
  {
    env := DiskEnv(true, true, true, 2, 1, false, true, true, true, true, true, true);
  }

  /** When both renames after the backup fail, the configuration is only left as the backup. */
  lemma FailedRenamesStrandConfig<T>(before: T, document: T) returns (env: DiskEnv)
    ensures env.WritesAll()
    ensures var files := Files(Some(Whole(before)), None, None);
            !Saves(files, env) && Stranded(AfterSave(files, document, env), files)
  {
    env := DiskEnv(true, true, true, 2, 2, false, true, false, false, true, true, true);
  }

  /** Without a configuration file, a backup that can be renamed and not removed becomes the configuration again. */
  lemma FailedSaveRevivesBackup<T>(stale: T, document: T) returns (env: DiskEnv)
    ensures env.WritesAll()
    ensures var files := Files(None, None, Some(Whole(stale)));
            !Saves(files, env) && AfterSave(files, document, env).config == Some(Whole(stale))
  {
    env := DiskEnv(true, true, true, 2, 2, false, true, false, true, true, false, true);
  }

  /** What a restart finds at any point of a save. */
  ghost predicate Explained<T>(files: Files<T>, before: Files<T>, document: T, env: DiskEnv) {
    || Loadable(files, before, document)
    || Stranded(files, before)
    || (Revived(files, before) && RevivesStale(before, env))
    || (Truncated(files, document, env) && Saves(before, env))
  }

  /** What one call to the file system can do: write or remove a file, or rename one to a free place. */
  predicate OneStep<T(==)>(a: Files<T>, b: Files<T>) {
    || b == a.(temp := b.temp)
    || b == a.(backup := None)
    || b == a.(config := None, backup := a.config)
    || b == a.(config := a.temp, temp := None)
    || b == a.(config := a.backup, backup := None)
  }

  /**
    Disk contents from before to last, one step after the other, of which each is explained, and which strand
    the configuration at some point or never.
  */
  ghost predicate Traced<T>(trail: seq<Files<T>>, last: Files<T>, before: Files<T>, document: T, env: DiskEnv,
      stranded: bool)
  {
    && |trail| > 0 && trail[0] == before && trail[|trail| - 1] == last
    && (forall i :: 0 < i < |trail| ==> OneStep(trail[i - 1], trail[i]))
    && (forall i :: 0 <= i < |trail| ==> Explained(trail[i], before, document, env))
    && (stranded <==> exists i :: 0 <= i < |trail| && Stranded(trail[i], before))
  }

  lemma TraceStarts<T>(before: Files<T>, document: T, env: DiskEnv)
    ensures Traced([before], before, before, document, env, false)
  {
    assert !Stranded([before][0], before);
  }

  lemma TracedOn<T>(trail: seq<Files<T>>, last: Files<T>, next: Files<T>, before: Files<T>, document: T, env: DiskEnv,
      stranded: bool)
    requires Traced(trail, last, before, document, env, stranded) && OneStep(last, next)
    requires Explained(next, before, document, env)
    ensures Traced(trail + [next], next, before, document, env, stranded || Stranded(next, before))
  {
    hide Explained, Stranded, OneStep;
    var longer := trail + [next];
    assert longer[|trail|] == next && forall i :: 0 <= i < |trail| ==> longer[i] == trail[i];
  }

  /** A step leaves the configuration alone, moves it away, puts the new document in place or revives a backup. */
  lemma StepIsExplained<T>(files: Files<T>, before: Files<T>, document: T, env: DiskEnv)
    requires || files.config == before.config
             || (before.config.Some? && files.config == None && files.backup == before.config)
             || (Saves(before, env) && files.config == Some(Landed(document, env)))
             || (RevivesStale(before, env) && files.config == before.backup)
    ensures Explained(files, before, document, env)
    ensures Stranded(files, before) <==> before.config.Some? && files.config == None
  {
  }

  lemma Recorded<T>(trail: seq<Files<T>>, last: Files<T>, next: Files<T>, before: Files<T>, document: T, env: DiskEnv,
      stranded: bool) returns (longer: seq<Files<T>>)
    requires Traced(trail, last, before, document, env, stranded) && OneStep(last, next)
    requires || next.config == before.config
             || (before.config.Some? && next.config == None && next.backup == before.config)
             || (Saves(before, env) && next.config == Some(Landed(document, env)))
             || (RevivesStale(before, env) && next.config == before.backup)
    ensures longer == trail + [next]
    ensures Traced(longer, next, before, document, env, stranded || (before.config.Some? && next.config == None))
  {
    StepIsExplained(next, before, document, env);
    TracedOn(trail, last, next, before, document, env, stranded);
    longer := trail + [next];
  }

  class ConfigFile<T(==)> {
    var files: Files<T>

    constructor (initial: Files<T>)
      ensures files == initial
    {
      files := initial;
    }

    /** The trail lists the disk contents after every step. */
    method Save(document: T, env: DiskEnv) returns (ok: bool, ghost trail: seq<Files<T>>)
      modifies this
      ensures ok <==> Saves(old(files), env)
      ensures files == AfterSave(old(files), document, env)
      ensures Traced(trail, files, old(files), document, env, MovesOldAway(old(files), env))
      ensures Stranded(files, old(files)) <==> LosesConfig(old(files), env)
      ensures !ok ==> (Revived(files, old(files)) <==> RevivesStale(old(files), env))
      ensures ok ==> (Truncated(files, document, env) <==> !env.WritesAll())
    {
      hide Traced;
      ghost var before := files;
      ghost var last := files;
      TraceStarts(before, document, env);
      trail := [files];
      if !env.mutex || !env.directory || !env.open {
        return false, trail;
      }
      files := files.(temp := Some(Landed(document, env)));
      trail := Recorded(trail, last, files, before, document, env, false);
      last := files;
      if env.written == 0 || env.written > CONFIG_FILE_MAX_BYTES || env.overflowed {
        RemoveTemp(env);
        trail := Recorded(trail, last, files, before, document, env, false);
        return false, trail;
      }
      ok, trail := MoveAside(env, before, document, trail);
      if ok {
        ok, trail := Promote(env, before, document, trail);
      }
    }

    method RemoveTemp(env: DiskEnv)
      modifies this
      ensures files == old(files).(temp := Unless(env.dropTemp, old(files).temp))
    {
      if env.dropTemp {
        files := files.(temp := None);
      }
    }

    /** Drops an older backup and makes the configuration the new one. */
    method MoveAside(env: DiskEnv, ghost before: Files<T>, ghost document: T, ghost soFar: seq<Files<T>>)
        returns (ok: bool, ghost trail: seq<Files<T>>)
      requires env.ReachesRenames() && files == before.(temp := Some(Landed(document, env)))
      requires Traced(soFar, files, before, document, env, false)
      modifies this
      ensures ok <==> before.config.None? || env.backUp
      ensures ok ==> files == Files(None, Some(Landed(document, env)), BackupOf(before, env))
      ensures !ok ==> files == AfterSave(before, document, env)
      ensures Traced(trail, files, before, document, env, MovesOldAway(before, env))
    {
      hide Traced, Landed;
      trail := soFar;
      ghost var last := files;
      if files.backup.Some? {
        files := files.(backup := Unless(env.dropStale, files.backup));
        trail := Recorded(trail, last, files, before, document, env, false);
        last := files;
      }
      if files.config.Some? {
        if !env.backUp {
          RemoveTemp(env);
          trail := Recorded(trail, last, files, before, document, env, false);
          last := files;
          return false, trail;
        }
        files := files.(config := None, backup := files.config);
        trail := Recorded(trail, last, files, before, document, env, false);
        last := files;
      }
      return true, trail;
    }

    /** Renames the temporary file into the free place, or else the backup back. */
    method Promote(env: DiskEnv, ghost before: Files<T>, ghost document: T, ghost soFar: seq<Files<T>>)
        returns (ok: bool, ghost trail: seq<Files<T>>)
      requires env.ReachesRenames() && (before.config.None? || env.backUp)
      requires files == Files(None, Some(Landed(document, env)), BackupOf(before, env))
      requires Traced(soFar, files, before, document, env, before.config.Some?)
      modifies this
      ensures ok == env.promote && files == AfterSave(before, document, env)
      ensures Traced(trail, files, before, document, env, before.config.Some?)
    {
      hide Traced, Landed;
      ghost var moved := before.config.Some?;
      trail := soFar;
      ghost var last := files;
      if !env.promote {
        if files.backup.Some? && env.putBack {
          files := files.(config := files.backup, backup := None);
          trail := Recorded(trail, last, files, before, document, env, moved);
          last := files;
        }
        RemoveTemp(env);
        trail := Recorded(trail, last, files, before, document, env, moved);
        return false, trail;
      }
      files := files.(config := files.temp, temp := None);
      trail := Recorded(trail, last, files, before, document, env, moved);
      last := files;
      if files.backup.Some? {
        files := files.(backup := Unless(env.dropBackup, files.backup));
        trail := Recorded(trail, last, files, before, document, env, moved);
        last := files;
      }
      return true, trail;
    }
  }
}
