/** The request handlers of Asst3/server/logic.c as sequences of single reads and writes of
    the file system. */
module Handlers {
  import opened CTypes
  import opened ProjectObject

  /** The directory of one version. */
  datatype VersionDir = VersionDir(manifest: Option<Content>, tar: Option<Archive>, commit: Option<Content>)

  /** The directory of the project: the version directories, Curr, the number in the file
      Currentversion, and the .Manifest that creating a project leaves in the project's own
      directory, where a directory for version 0 was meant. */
  datatype FileSystem =
    | Missing
    | Files(versions: map<int, VersionDir>, curr: Archive, current: Option<int>, stray: Option<Content>)

  /** Where a handler is and what it has read so far. */
  datatype Local =
    | Start(req: Request)
    | CreateManifest | CreateStray | CreateCurrent
    | HistoryBegin | HistoryRead(latest: int, i: int, out: Content)
    | CurrentBegin | CurrentRead(latest: int)
    | DestroyAll
    | RollbackBegin(version: nat) | RollbackDelete(version: nat, latest: int)
    | RollbackExtract(version: nat) | RollbackCurrent(version: nat)
    | CheckoutBegin | CheckoutRead(latest: int)
    | UpdateRead
    | UpgradeBegin(wanted: int) | UpgradeManifest(wanted: int) | UpgradeTar(wanted: int, manifest: Content)
    | CommitRead
    | PushBegin(manifest: Content, tar: Archive, junk: int)
    | PushDirectory(manifest: Content, tar: Archive, v: int) | PushManifest(manifest: Content, tar: Archive, v: int)
    | PushTar(tar: Archive, v: int) | PushClear(v: int) | PushExtract(v: int)
    | PushCommit(v: int) | PushCurrManifest(v: int) | PushCurrent(v: int)
    | Done(response: Response)

  predicate IsWriter(req: Request) {
    req.Create? || req.Destroy? || req.Rollback? || req.Push?
  }

  /** Whether a handler is on a path that only reads. */
  predicate ReadsOnly(l: Local) {
    match l
    case Start(req) => !IsWriter(req)
    case HistoryBegin => true
    case HistoryRead(_, _, _) => true
    case CurrentBegin => true
    case CurrentRead(_) => true
    case CheckoutBegin => true
    case CheckoutRead(_) => true
    case UpdateRead => true
    case UpgradeBegin(_) => true
    case UpgradeManifest(_) => true
    case UpgradeTar(_, _) => true
    case CommitRead => true
    case Done(_) => true
    case _ => false
  }

  function FirstStep(req: Request): Local {
    match req
    case Create => CreateManifest
    case History => HistoryBegin
    case CurrentVersion => CurrentBegin
    case Destroy => DestroyAll
    case Rollback(version) => RollbackBegin(version)
    case Checkout => CheckoutBegin
    case Update => UpdateRead
    case Upgrade(wanted) => UpgradeBegin(wanted)
    case Commit => CommitRead
    case Push(manifest, tar, junk) => PushBegin(manifest, tar, junk)
  }

  /** The existence check under the lock. Creating starts with the directories. */
  function Enter(req: Request, fs: FileSystem): (Local, FileSystem) {
    if req.Create? then
      if fs.Files? then (Done(Status(1)), fs) else (CreateManifest, Files(map[], map[], None, None))
    else if fs.Missing? then (Done(Status(999)), fs)
    else (FirstStep(req), fs)
  }

  function Dir(fs: FileSystem, v: int): VersionDir
    requires fs.Files?
  {
    if v in fs.versions then fs.versions[v] else VersionDir(None, None, None)
  }

  /** Writing a file of version directory v fails when there is no such directory. */
  function WriteDir(fs: FileSystem, v: int, dir: VersionDir): FileSystem
    requires fs.Files?
  {
    if v in fs.versions then fs.(versions := fs.versions[v := dir]) else fs
  }

  function ReadStep(l: Local, fs: FileSystem): Local
    requires fs.Files? && ReadsOnly(l) && !l.Start? && !l.Done?
  {
    match l
    case HistoryBegin =>
      if fs.current.None? then Done(Exit)
      else if fs.current.value == 0 then Done(Status(101)) else HistoryRead(fs.current.value, 1, [])
    case HistoryRead(latest, i, out) =>
      if i > latest then Done(Answer(100, out))
      else
        var commit := Dir(fs, i).commit;
        if commit.None? then Done(Exit)
        else HistoryRead(latest, i + 1, out + commit.value + [NEWLINE, NEWLINE])
    case CurrentBegin =>
      if fs.current.None? then Done(Exit)
      else if fs.current.value == 0 then Done(Status(201)) else CurrentRead(fs.current.value)
    case CurrentRead(latest) =>
      var manifest := Dir(fs, latest).manifest;
      Done(if manifest.None? then Exit else Answer(200, manifest.value))
    case CheckoutBegin =>
      if fs.current.None? then Done(Exit)
      else if fs.current.value == 0 then Done(Status(502)) else CheckoutRead(fs.current.value)
    case CheckoutRead(latest) =>
      var tar := Dir(fs, latest).tar;
      Done(if tar.None? then Status(501) else Reply(500, [], tar))
    case UpdateRead =>
      Done(if MANIFEST in fs.curr then Answer(600, fs.curr[MANIFEST]) else Status(601))
    case UpgradeBegin(wanted) =>
      if fs.current.None? then Done(Exit)
      else if wanted > fs.current.value || wanted < 0 then Done(Status(702))
      else if wanted == 0 then Done(Status(701)) else UpgradeManifest(wanted)
    case UpgradeManifest(wanted) =>
      var manifest := Dir(fs, wanted).manifest;
      if manifest.None? then Done(Exit) else UpgradeTar(wanted, manifest.value)
    case UpgradeTar(wanted, manifest) =>
      var tar := Dir(fs, wanted).tar;
      Done(if tar.None? then Exit else Reply(700, manifest, tar))
    case CommitRead =>
      Done(if MANIFEST in fs.curr then Answer(800, fs.curr[MANIFEST]) else Exit)
  }

  function WriteStep(l: Local, fs: FileSystem): (Local, FileSystem)
    requires fs.Files? && !ReadsOnly(l) && !l.Start?
  {
    match l
    case CreateManifest => (CreateStray, fs.(curr := fs.curr[MANIFEST := NEW_MANIFEST]))
    case CreateStray => (CreateCurrent, fs.(stray := Some(NEW_MANIFEST)))
    case CreateCurrent => (Done(Answer(0, CREATED)), fs.(current := Some(0)))
    case DestroyAll => (Done(Status(300)), Missing)
    case RollbackBegin(version) =>
      if fs.current.None? then (Done(Exit), fs)
      else if version > fs.current.value || version == 0 then (Done(Status(401)), fs)
      else if version == fs.current.value then (Done(Status(400)), fs)
      else (RollbackDelete(version, fs.current.value), fs)
    case RollbackDelete(version, latest) =>
      if latest > version then (RollbackDelete(version, latest - 1), fs.(versions := fs.versions - {latest}))
      else (RollbackExtract(version), fs)
    case RollbackExtract(version) =>
      var tar := Dir(fs, version).tar;
      (RollbackCurrent(version), if tar.None? then fs else fs.(curr := fs.curr + tar.value))
    case RollbackCurrent(version) => (Done(Status(400)), fs.(current := Some(version)))
    case PushBegin(manifest, tar, junk) =>
      if |manifest| <= 16 then (Done(Status(901)), fs)
      else if fs.current.None? then (Done(Exit), fs)
      else if Declared(manifest, junk) != fs.current.value + 1 then (Done(Status(902)), fs)
      else (PushDirectory(manifest, tar, fs.current.value + 1), fs)
    case PushDirectory(manifest, tar, v) =>
      (PushManifest(manifest, tar, v), fs.(versions := fs.versions[v := Dir(fs, v)]))
    case PushManifest(manifest, tar, v) =>
      (PushTar(tar, v), WriteDir(fs, v, Dir(fs, v).(manifest := Some(manifest))))
    case PushTar(tar, v) => (PushClear(v), WriteDir(fs, v, Dir(fs, v).(tar := Some(tar))))
    case PushClear(v) => (PushExtract(v), fs.(curr := Cleared(fs.curr)))
    case PushExtract(v) =>
      var tar := Dir(fs, v).tar;
      (PushCommit(v), if tar.None? then fs else fs.(curr := fs.curr + tar.value))
    case PushCommit(v) =>
      var commit := Lookup(fs.curr, COMMIT);
      (PushCurrManifest(v), if commit.None? then fs else WriteDir(fs, v, Dir(fs, v).(commit := commit)))
    case PushCurrManifest(v) =>
      var manifest := Dir(fs, v).manifest;
      (PushCurrent(v), if manifest.None? then fs else fs.(curr := fs.curr[MANIFEST := manifest.value]))
    case PushCurrent(v) => (Done(Status(900)), fs.(current := Some(v)))
  }

  /** One step of a handler that is not done. Inside a handler the project cannot go away,
      since the lock is held. */
  function Step(l: Local, fs: FileSystem): (Local, FileSystem)
    requires !l.Done?
  {
    if l.Start? then Enter(l.req, fs)
    else if fs.Missing? then (Done(Exit), fs)
    else if ReadsOnly(l) then (ReadStep(l, fs), fs)
    else WriteStep(l, fs)
  }

  // ---------- Handlers terminate ----------

  /** How many stages of its handler lie ahead, at least. */
  function Stage(l: Local): nat {
    match l
    case Start(_) => 20
    case CreateManifest => 3
    case CreateStray => 2
    case HistoryBegin => 2
    case CurrentBegin => 2
    case RollbackBegin(_) => 5
    case RollbackDelete(_, _) => 4
    case RollbackExtract(_) => 3
    case RollbackCurrent(_) => 2
    case CheckoutBegin => 2
    case UpgradeBegin(_) => 3
    case UpgradeManifest(_) => 2
    case PushBegin(_, _, _) => 9
    case PushDirectory(_, _, _) => 8
    case PushManifest(_, _, _) => 7
    case PushTar(_, _) => 6
    case PushClear(_) => 5
    case PushExtract(_) => 4
    case PushCommit(_) => 3
    case PushCurrManifest(_) => 2
    case Done(_) => 0
    case _ => 1
  }

  /** The turns left in the loop a handler is in. */
  function Turns(l: Local): nat {
    match l
    case HistoryRead(latest, i, _) => if i > latest then 0 else latest - i + 1
    case RollbackDelete(version, latest) => if latest > version then latest - version else 0
    case _ => 0
  }

  predicate Closer(l': Local, l: Local) {
    Stage(l') < Stage(l) || (Stage(l') == Stage(l) && Turns(l') < Turns(l))
  }

  lemma ReadStepProgress(l: Local, fs: FileSystem)
    requires fs.Files? && ReadsOnly(l) && !l.Start? && !l.Done?
    ensures Closer(ReadStep(l, fs), l)
  {
  }

  lemma WriteStepProgress(l: Local, fs: FileSystem)
    requires fs.Files? && !ReadsOnly(l) && !l.Start?
    ensures Closer(WriteStep(l, fs).0, l)
  {
  }

  lemma StepProgress(l: Local, fs: FileSystem)
    requires !l.Done?
    ensures Closer(Step(l, fs).0, l)
  {
    if l.Start? {
    } else if fs.Files? && ReadsOnly(l) {
      ReadStepProgress(l, fs);
    } else if fs.Files? {
      WriteStepProgress(l, fs);
    }
  }

  /** The response and the files a handler ends with when it runs on alone. */
  function Finish(l: Local, fs: FileSystem): (Response, FileSystem)
    decreases Stage(l), Turns(l)
  {
    if l.Done? then (l.response, fs)
    else
      StepProgress(l, fs);
      var (l', fs') := Step(l, fs);
      Finish(l', fs')
  }

  /** A handler that reads never writes. */
  lemma {:induction false} ReadersKeepFiles(l: Local, fs: FileSystem)
    requires ReadsOnly(l)
    ensures Finish(l, fs).1 == fs
    decreases Stage(l), Turns(l)
  {
    if !l.Done? {
      ReaderSteps(l, fs);
      StepProgress(l, fs);
      ReadersKeepFiles(Step(l, fs).0, fs);
    }
  }

  lemma ReaderSteps(l: Local, fs: FileSystem)
    requires ReadsOnly(l) && !l.Done?
    ensures ReadsOnly(Step(l, fs).0) && Step(l, fs).1 == fs
  {
  }
}
