/** A handler that runs undisturbed does to the files exactly what the request does to the
    project they store. */
module HandlerRefinement {
  import opened CTypes
  import opened ProjectObject
  import opened HistoryText
  import opened Handlers

  function DirOf(v: Version): VersionDir {
    VersionDir(Some(v.manifest), Some(v.tar), v.commit)
  }

  function Directory(history: seq<Version>, k: int): VersionDir
    requires 1 <= k <= |history|
  {
    DirOf(history[k - 1])
  }

  /** Directories 1 to n and no other. */
  function Directories(history: seq<Version>): map<int, VersionDir> {
    map k: int | 1 <= k <= |history| :: Directory(history, k)
  }

  /** How a project is laid out in the file system between requests. */
  function Stored(p: Project): FileSystem {
    match p
    case NoProject => Missing
    case Project(history, work) => Files(Directories(history), work, Some(|history|), Some(NEW_MANIFEST))
  }

  lemma OneStep(l: Local, fs: FileSystem, l': Local, fs': FileSystem)
    requires !l.Done? && Step(l, fs) == (l', fs')
    ensures Finish(l, fs) == Finish(l', fs')
  {
  }

  // ---------- Reading ----------

  lemma {:induction false} CommitsFail(history: seq<Version>, i: nat)
    requires i <= |history| && Commits(history[..i]).None?
    ensures Commits(history).None?
    decreases |history| - i
  {
    if i == |history| {
      assert history[..i] == history;
    } else {
      assert history[..i + 1][..i] == history[..i];
      CommitsFail(history, i + 1);
    }
  }

  lemma {:induction false} CommitsLoop(p: Project, i: nat, out: Content)
    requires p.Project? && i <= |p.history| && Commits(p.history[..i]) == Some(out)
    ensures Finish(HistoryRead(|p.history|, i + 1, out), Stored(p)).0 ==
      if Commits(p.history).None? then Exit else Answer(100, Commits(p.history).value)
    decreases |p.history| - i
  {
    if i == |p.history| {
      assert p.history[..i] == p.history;
    } else {
      assert p.history[..i + 1][..i] == p.history[..i];
      var commit := p.history[i].commit;
      if commit.None? {
        CommitsFail(p.history, i + 1);
      } else {
        var out' := out + commit.value + [NEWLINE, NEWLINE];
        OneStep(HistoryRead(|p.history|, i + 1, out), Stored(p), HistoryRead(|p.history|, i + 2, out'), Stored(p));
        CommitsLoop(p, i + 1, out');
      }
    }
  }

  /** The loop over the versions answers with all their records, each with its empty line, in
      the order of the versions; if one is missing it ends the server. */
  lemma HistoryLoop(p: Project)
    requires p.Project?
    ensures Finish(HistoryRead(|p.history|, 1, []), Stored(p)).0 ==
      if AllRecorded(p.history) then Answer(100, Concat(Records(p.history))) else Exit
  {
    assert p.history[..0] == [];
    CommitsLoop(p, 0, []);
    CommitsAre(p.history);
  }

  lemma HistoryAgrees(p: Project)
    requires p.Project?
    ensures Finish(HistoryBegin, Stored(p)).0 == Read(p, History)
  {
    var n := |p.history|;
    if n > 0 {
      OneStep(HistoryBegin, Stored(p), HistoryRead(n, 1, []), Stored(p));
      assert p.history[..0] == [];
      CommitsLoop(p, 0, []);
    }
  }

  lemma UpgradeAgrees(p: Project, v: int)
    requires p.Project?
    ensures Finish(UpgradeBegin(v), Stored(p)).0 == Read(p, Upgrade(v))
  {
    if 0 < v <= |p.history| {
      var version := p.history[v - 1];
      OneStep(UpgradeBegin(v), Stored(p), UpgradeManifest(v), Stored(p));
      OneStep(UpgradeManifest(v), Stored(p), UpgradeTar(v, version.manifest), Stored(p));
    }
  }

  lemma LatestAgrees(p: Project)
    requires p.Project?
    ensures Finish(CurrentBegin, Stored(p)).0 == Read(p, CurrentVersion)
    ensures Finish(CheckoutBegin, Stored(p)).0 == Read(p, Checkout)
    ensures Finish(CurrentBegin, Stored(p)).0 ==
      if p.history == [] then Status(201) else Answer(200, p.history[|p.history| - 1].manifest)
    ensures Finish(CheckoutBegin, Stored(p)).0 ==
      if p.history == [] then Status(502) else Reply(500, [], Some(p.history[|p.history| - 1].tar))
  {
    var n := |p.history|;
    if n > 0 {
      OneStep(CurrentBegin, Stored(p), CurrentRead(n), Stored(p));
      OneStep(CheckoutBegin, Stored(p), CheckoutRead(n), Stored(p));
    }
  }

  lemma WorkAgrees(p: Project)
    requires p.Project?
    ensures Finish(UpdateRead, Stored(p)).0 == Read(p, Update)
    ensures Finish(CommitRead, Stored(p)).0 == Read(p, Commit)
  {
  }

  lemma ReadersAgree(p: Project, req: Request)
    requires p.Project? && !IsWriter(req)
    ensures Finish(FirstStep(req), Stored(p)).0 == Read(p, req)
  {
    match req
    case History => HistoryAgrees(p);
    case CurrentVersion => LatestAgrees(p);
    case Checkout => LatestAgrees(p);
    case Upgrade(v) => UpgradeAgrees(p, v);
    case Update => WorkAgrees(p);
    case Commit => WorkAgrees(p);
  }

  // ---------- Creating and removing ----------

  lemma CreateAgrees()
    ensures Finish(Start(Create), Missing) == (Answer(0, CREATED), Stored(Project([], map[MANIFEST := NEW_MANIFEST])))
  {
    var fs0 := Files(map[], map[], None, None);
    var fs1 := fs0.(curr := map[MANIFEST := NEW_MANIFEST]);
    var fs2 := fs1.(stray := Some(NEW_MANIFEST));
    OneStep(Start(Create), Missing, CreateManifest, fs0);
    OneStep(CreateManifest, fs0, CreateStray, fs1);
    OneStep(CreateStray, fs1, CreateCurrent, fs2);
    assert Directories([]) == map[];
  }

  // ---------- Rolling back ----------

  /** The project with its versions above k gone, but for the number in Currentversion. */
  function Shrunk(history: seq<Version>, work: Archive, k: nat): FileSystem
    requires k <= |history|
  {
    Files(Directories(history[..k]), work, Some(|history|), Some(NEW_MANIFEST))
  }

  lemma DropLast(history: seq<Version>, k: nat)
    requires 0 < k <= |history|
    ensures Directories(history[..k]) - {k} == Directories(history[..k - 1])
  {
  }

  datatype End = End(response: Response, fs: FileSystem)

  /** The handler comes to the given end. */
  ghost predicate EndsWith(l: Local, fs: FileSystem, end: End) {
    match end
    case End(response, fs') => Finish(l, fs) == (response, fs')
  }

  lemma EndsOneEarlier(l: Local, fs: FileSystem, l': Local, fs': FileSystem, end: End)
    requires !l.Done? && Step(l, fs) == (l', fs') && EndsWith(l', fs', end)
    ensures EndsWith(l, fs, end)
  {
    OneStep(l, fs, l', fs');
  }

  lemma DeleteStep(history: seq<Version>, work: Archive, version: nat, k: nat)
    requires version < k <= |history|
    ensures Step(RollbackDelete(version, k), Shrunk(history, work, k))
      == (RollbackDelete(version, k - 1), Shrunk(history, work, k - 1))
  {
    DropLast(history, k);
  }

  lemma DeleteEarlier(history: seq<Version>, work: Archive, version: nat, k: nat, end: End)
    requires version < k <= |history| && EndsWith(RollbackDelete(version, k - 1), Shrunk(history, work, k - 1), end)
    ensures EndsWith(RollbackDelete(version, k), Shrunk(history, work, k), end)
  {
    var fs, fs' := Shrunk(history, work, k), Shrunk(history, work, k - 1);
    DeleteStep(history, work, version, k);
    EndsOneEarlier(RollbackDelete(version, k), fs, RollbackDelete(version, k - 1), fs', end);
  }

  /** The loop that removes the versions above the given one. */
  lemma {:induction false} DeleteLoop(history: seq<Version>, work: Archive, version: nat, k: nat, end: End)
    requires version <= k <= |history| && EndsWith(RollbackDelete(version, version), Shrunk(history, work, version), end)
    ensures EndsWith(RollbackDelete(version, k), Shrunk(history, work, k), end)
    decreases k
  {
    if k > version {
      DeleteLoop(history, work, version, k - 1, end);
      DeleteEarlier(history, work, version, k, end);
    }
  }

  lemma RollbackAgrees(p: Project, version: nat)
    requires p.Project? && 0 < version < |p.history|
    ensures Finish(RollbackDelete(version, |p.history|), Stored(p)) == (Status(400), Stored(RolledBack(p, version)))
  {
    RestoreAgrees(p, version);
    DeleteLoop(p.history, p.work, version, |p.history|, End(Status(400), Stored(RolledBack(p, version))));
    assert p.history[..|p.history|] == p.history;
  }

  lemma RestoreAgrees(p: Project, version: nat)
    requires p.Project? && 0 < version < |p.history|
    ensures Finish(RollbackDelete(version, version), Shrunk(p.history, p.work, version))
      == (Status(400), Stored(RolledBack(p, version)))
  {
    var fs := Shrunk(p.history, p.work, version);
    var fs' := fs.(curr := p.work + p.history[version - 1].tar);
    OneStep(RollbackDelete(version, version), fs, RollbackExtract(version), fs);
    OneStep(RollbackExtract(version), fs, RollbackCurrent(version), fs') by {
      assert Dir(fs, version) == Directory(p.history[..version], version);
    }
    OneStep(RollbackCurrent(version), fs', Done(Status(400)), Stored(RolledBack(p, version)));
  }

  // ---------- Pushing ----------

  /** The new version directory and the working files as the push fills them in. */
  function Filling(p: Project, dir: VersionDir, work: Archive): FileSystem
    requires p.Project?
  {
    Files(Directories(p.history)[|p.history| + 1 := dir], work, Some(|p.history|), Some(NEW_MANIFEST))
  }

  lemma NewDirectory(history: seq<Version>, v: Version)
    ensures Directories(history)[|history| + 1 := DirOf(v)] == Directories(history + [v])
  {
    var h := history + [v];
    forall k: int | 1 <= k <= |history| ensures Directory(h, k) == Directory(history, k) {
    }
  }

  lemma FillingStep(p: Project, dir: VersionDir, work: Archive, dir': VersionDir)
    requires p.Project?
    ensures Dir(Filling(p, dir, work), |p.history| + 1) == dir
    ensures WriteDir(Filling(p, dir, work), |p.history| + 1, dir') == Filling(p, dir', work)
  {
    var m := Directories(p.history);
    assert m[|p.history| + 1 := dir][|p.history| + 1 := dir'] == m[|p.history| + 1 := dir'];
  }

  lemma PushMakesDirectory(p: Project, manifest: Content, tar: Archive)
    requires p.Project?
    ensures Finish(PushDirectory(manifest, tar, |p.history| + 1), Stored(p)) ==
      Finish(PushManifest(manifest, tar, |p.history| + 1), Filling(p, VersionDir(None, None, None), p.work))
  {
    var v, d := |p.history| + 1, VersionDir(None, None, None);
    assert Dir(Stored(p), v) == d;
    OneStep(PushDirectory(manifest, tar, v), Stored(p), PushManifest(manifest, tar, v), Filling(p, d, p.work));
  }

  lemma PushWritesManifest(p: Project, manifest: Content, tar: Archive)
    requires p.Project?
    ensures Finish(PushManifest(manifest, tar, |p.history| + 1), Filling(p, VersionDir(None, None, None), p.work)) ==
      Finish(PushTar(tar, |p.history| + 1), Filling(p, VersionDir(Some(manifest), None, None), p.work))
  {
    var v, d, d' := |p.history| + 1, VersionDir(None, None, None), VersionDir(Some(manifest), None, None);
    FillingStep(p, d, p.work, d');
    OneStep(PushManifest(manifest, tar, v), Filling(p, d, p.work), PushTar(tar, v), Filling(p, d', p.work));
  }

  lemma PushWritesTar(p: Project, manifest: Content, tar: Archive)
    requires p.Project?
    ensures Finish(PushTar(tar, |p.history| + 1), Filling(p, VersionDir(Some(manifest), None, None), p.work)) ==
      Finish(PushClear(|p.history| + 1), Filling(p, VersionDir(Some(manifest), Some(tar), None), p.work))
  {
    var v, d, d' := |p.history| + 1, VersionDir(Some(manifest), None, None), VersionDir(Some(manifest), Some(tar), None);
    FillingStep(p, d, p.work, d');
    OneStep(PushTar(tar, v), Filling(p, d, p.work), PushClear(v), Filling(p, d', p.work));
  }

  /** The first half of a push: version directory, manifest and archive. */
  lemma PushStores(p: Project, manifest: Content, tar: Archive)
    requires p.Project?
    ensures Finish(PushDirectory(manifest, tar, |p.history| + 1), Stored(p)) ==
      Finish(PushClear(|p.history| + 1), Filling(p, VersionDir(Some(manifest), Some(tar), None), p.work))
  {
    PushMakesDirectory(p, manifest, tar);
    PushWritesManifest(p, manifest, tar);
    PushWritesTar(p, manifest, tar);
  }

  /** The second half: the working files, the commit record and the version number. */
  lemma PushUnpacks(p: Project, manifest: Content, tar: Archive)
    requires p.Project?
    ensures var commit := Lookup(Unpacked(p.work, tar), COMMIT);
      Finish(PushClear(|p.history| + 1), Filling(p, VersionDir(Some(manifest), Some(tar), None), p.work)) ==
      Finish(PushCurrManifest(|p.history| + 1),
             Filling(p, VersionDir(Some(manifest), Some(tar), commit), Unpacked(p.work, tar)))
  {
    var v := |p.history| + 1;
    var files := Unpacked(p.work, tar);
    var commit := Lookup(files, COMMIT);
    var d, d' := VersionDir(Some(manifest), Some(tar), None), VersionDir(Some(manifest), Some(tar), commit);
    FillingStep(p, d, files, d');
    OneStep(PushClear(v), Filling(p, d, p.work), PushExtract(v), Filling(p, d, Cleared(p.work)));
    OneStep(PushExtract(v), Filling(p, d, Cleared(p.work)), PushCommit(v), Filling(p, d, files));
    OneStep(PushCommit(v), Filling(p, d, files), PushCurrManifest(v), Filling(p, d', files));
  }

  lemma PushPublishes(p: Project, version: Version, files: Archive)
    requires p.Project?
    ensures Finish(PushCurrManifest(|p.history| + 1), Filling(p, DirOf(version), files))
      == (Status(900), Stored(Project(p.history + [version], files[MANIFEST := version.manifest])))
  {
    var v := |p.history| + 1;
    var d, files' := DirOf(version), files[MANIFEST := version.manifest];
    var fs := Filling(p, d, files');
    OneStep(PushCurrManifest(v), Filling(p, d, files), PushCurrent(v), fs);
    NewDirectory(p.history, version);
    OneStep(PushCurrent(v), fs, Done(Status(900)), fs.(current := Some(v)));
  }

  /** What lies among the files under the name after a push of the archive over the files
      `before`. Only names with a dot outlive a push. */
  predicate FileAfterPush(work: Archive, name: string, manifest: Content, tar: Archive, before: Archive) {
    Lookup(work, name) ==
      if name == ".Manifest" then Some(manifest)
      else if name in tar then Some(tar[name])
      else if name != "" && name[0] == '.' then Lookup(before, name)
      else None
  }

  ghost predicate FilesAfterPush(work: Archive, manifest: Content, tar: Archive, before: Archive) {
    forall name :: FileAfterPush(work, name, manifest, tar, before)
  }

  // ---------- All requests ----------

  lemma PushRejected(p: Project, manifest: Content, tar: Archive, junk: int)
    requires p.Project? && (|manifest| <= 16 || Declared(manifest, junk) != |p.history| + 1)
    ensures Finish(PushBegin(manifest, tar, junk), Stored(p))
      == (Status(if |manifest| <= 16 then 901 else 902), Stored(p))
  {
  }

  /** The files after a push: the new version is the only directory that changes, and the
      working files are replaced. */
  ghost predicate AfterPush(fs: FileSystem, p: Project, manifest: Content, tar: Archive)
    requires p.Project?
  {
    var v, commit := |p.history| + 1, Lookup(if COMMIT in tar then tar else p.work, COMMIT);
    && fs.Files? && fs.current == Some(v)
    && fs.versions == Directories(p.history)[v := VersionDir(Some(manifest), Some(tar), commit)]
    && FilesAfterPush(fs.curr, manifest, tar, p.work)
  }

  lemma PushedIsAfter(p: Project, manifest: Content, tar: Archive)
    requires p.Project?
    ensures AfterPush(Stored(Pushed(p, manifest, tar)), p, manifest, tar)
  {
    var commit := Lookup(Unpacked(p.work, tar), COMMIT);
    NewDirectory(p.history, Version(manifest, tar, commit));
    UnpackedCommit(p.work, tar);
  }

  lemma UnpackedCommit(work: Archive, tar: Archive)
    ensures Lookup(Unpacked(work, tar), COMMIT) == Lookup(if COMMIT in tar then tar else work, COMMIT)
  {
  }

  lemma PushAccepted(p: Project, manifest: Content, tar: Archive, junk: int)
    requires p.Project? && |manifest| > 16 && Declared(manifest, junk) == |p.history| + 1
    ensures Finish(PushBegin(manifest, tar, junk), Stored(p)) == (Status(900), Stored(Pushed(p, manifest, tar)))
    ensures AfterPush(Finish(PushBegin(manifest, tar, junk), Stored(p)).1, p, manifest, tar)
  {
    var v := |p.history| + 1;
    var files := Unpacked(p.work, tar);
    OneStep(PushBegin(manifest, tar, junk), Stored(p), PushDirectory(manifest, tar, v), Stored(p));
    PushStores(p, manifest, tar);
    PushUnpacks(p, manifest, tar);
    PushPublishes(p, Version(manifest, tar, Lookup(files, COMMIT)), files);
    PushedIsAfter(p, manifest, tar);
  }

  lemma WritersAgree(p: Project, req: Request)
    requires p.Project? && IsWriter(req) && !req.Create?
    ensures Finish(FirstStep(req), Stored(p)) == (Apply(p, req).1, Stored(Apply(p, req).0))
  {
    match req
    case Destroy =>
    case Rollback(version) =>
      if 0 < version < |p.history| {
        OneStep(RollbackBegin(version), Stored(p), RollbackDelete(version, |p.history|), Stored(p));
        RollbackAgrees(p, version);
      }
    case Push(manifest, tar, junk) =>
      if |manifest| > 16 && Declared(manifest, junk) == |p.history| + 1 {
        PushAccepted(p, manifest, tar, junk);
      } else {
        PushRejected(p, manifest, tar, junk);
      }
  }

  /** Every handler, run alone, carries its request out on the stored project. */
  lemma HandlerIsAtomic(p: Project, req: Request)
    ensures Finish(Start(req), Stored(p)) == (Apply(p, req).1, Stored(Apply(p, req).0))
  {
    if req.Create? && p.NoProject? {
      CreateAgrees();
    } else if p.Project? && !req.Create? {
      OneStep(Start(req), Stored(p), FirstStep(req), Stored(p));
      if IsWriter(req) {
        WritersAgree(p, req);
      } else {
        ReadersAgree(p, req);
        ReadersKeepFiles(FirstStep(req), Stored(p));
      }
    }
  }
}
