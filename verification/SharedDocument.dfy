/**
  The one document that holds the sections of all services. Whichever service saves, the whole
  document is built anew from the live stores and replaces the file.
*/
module SharedDocument {
  import opened Options
  import opened ConfigPersistence
  import MatrixSettings
  import AlarmSettings
  import MatrixConfig

  datatype Document<R> = Document(matrix: MatrixSettings.State, rules: R)

  /** The files, of which a service looks at its own section only. */
  function Section<S, T>(files: Files<S>, part: S -> T): Files<T> {
    Files(SectionOf(files.config, part), SectionOf(files.temp, part), SectionOf(files.backup, part))
  }

  function SectionOf<S, T>(file: Option<Stored<S>>, part: S -> T): Option<Stored<T>> {
    match file
    case None => None
    case Some(Whole(document)) => Some(Whole(part(document)))
    case Some(Cut(document, length)) => Some(Cut(part(document), length))
  }

  /** Saving the document is saving each of its sections. */
  lemma SavesEachSection<S, T>(files: Files<S>, document: S, part: S -> T, env: DiskEnv)
    ensures Saves(Section(files, part), env) == Saves(files, env)
    ensures Section(AfterSave(files, document, env), part) == AfterSave(Section(files, part), part(document), env)
  {
  }

  /** Both services' stores and runtimes around one set of files. */
  datatype System<R> = System(
    files: Files<Document<R>>,
    store: MatrixSettings.State,
    runtime: MatrixSettings.State,
    rules: R,
    applied: R)
  {
    function Matrix(): MatrixSettings.Device {
      MatrixSettings.Device(store, Section(files, (d: Document<R>) => d.matrix), runtime)
    }

    function Alarms(): AlarmSettings.Rules<R> {
      AlarmSettings.Rules(rules, Section(files, (d: Document<R>) => d.rules), applied)
    }
  }

  /** Sections whose locks time out silently become the defaults, missing icons and no rules. */
  datatype BuildEnv<R> = BuildEnv(
    defaults: MatrixConfig.Config,
    none: R,
    rulesRead: bool,
    persist: MatrixSettings.PersistEnv)

  /** The document the matrix service saves. */
  function LiveDocument<R>(sys: System<R>, env: BuildEnv<R>): Document<R> {
    Document(MatrixSettings.Document(sys.store, env.defaults, env.persist),
             if env.rulesRead then sys.rules else env.none)
  }

  function SavedByMatrix<R>(sys: System<R>, env: BuildEnv<R>): System<R> {
    sys.(files := AfterSave(sys.files, LiveDocument(sys, env), env.persist.disk))
  }

  /** The alarm service replaces the rules' section by the rules it was given. */
  function SavedByAlarms<R>(sys: System<R>, given: R, env: BuildEnv<R>): System<R> {
    sys.(files := AfterSave(sys.files, LiveDocument(sys, env).(rules := given), env.persist.disk))
  }

  /** Each service's save is the other's save by another service. */
  lemma SavesAreShared<R>(sys: System<R>, given: R, env: BuildEnv<R>)
    ensures var after := SavedByMatrix(sys, env);
            && after.Matrix() == MatrixSettings.Persisted(sys.Matrix(), env.defaults, env.persist)
            && after.Alarms() == AlarmSettings.OtherSaved(sys.Alarms(), env.rulesRead, env.none, env.persist.disk)
    ensures var after := SavedByAlarms(sys, given, env);
            && after.Matrix() == MatrixSettings.Persisted(sys.Matrix(), env.defaults, env.persist)
            && after.Alarms() ==
               sys.Alarms().(files := AfterSave(sys.Alarms().files, given, env.persist.disk))
  {
    var matrix, rules := (d: Document<R>) => d.matrix, (d: Document<R>) => d.rules;
    var live := LiveDocument(sys, env);
    SavesEachSection(sys.files, live, matrix, env.persist.disk);
    SavesEachSection(sys.files, live, rules, env.persist.disk);
    SavesEachSection(sys.files, live.(rules := given), matrix, env.persist.disk);
    SavesEachSection(sys.files, live.(rules := given), rules, env.persist.disk);
  }

  ghost predicate BothCoherent<R>(sys: System<R>) {
    MatrixSettings.Coherent(sys.Matrix()) && AlarmSettings.Coherent(sys.Alarms())
  }

  /** The document is built from everything that is live. */
  ghost predicate BuildsAll<R>(sys: System<R>, env: BuildEnv<R>) {
    && (env.persist.configLock || MatrixConfig.Healed(env.defaults) == MatrixConfig.Healed(sys.store.config))
    && MatrixSettings.SeesAllIcons(sys.store, env.persist.iconLocks)
    && (env.rulesRead || sys.rules == env.none)
  }

  /** A save keeps both services' agreements exactly when it does not lose the file, cut it or skip a section. */
  lemma SaveKeepsBothIff<R>(sys: System<R>, env: BuildEnv<R>)
    requires BothCoherent(sys)
    ensures BothCoherent(SavedByMatrix(sys, env)) <==>
            && !LosesConfig(sys.files, env.persist.disk)
            && (Saves(sys.files, env.persist.disk) ==> env.persist.disk.WritesAll() && BuildsAll(sys, env))
  {
    hide MatrixSettings.Coherent, AlarmSettings.Coherent, MatrixSettings.SeesAllIcons, MatrixConfig.Healed, AfterSave;
    SavesAreShared(sys, sys.rules, env);
    MatrixSettings.OtherSaveIsCoherentIff(sys.Matrix(), env.defaults, env.persist);
    AlarmSettings.OtherSaveIsCoherentIff(sys.Alarms(), env.rulesRead, env.none, env.persist.disk);
  }
}
