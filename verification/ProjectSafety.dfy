/** What holds in every state the requests to a project can reach. */
module ProjectSafety {
  import opened CTypes
  import opened Decimal
  import opened ProjectObject
  import opened HistoryText
  import opened Handlers
  import opened HandlerRefinement
  import opened Server

  /** The number in the manifest, if there is one. */
  function Label(manifest: Content): Option<int> {
    if |manifest| <= 16 then None
    else
      var v := ScanInt(manifest[16..]);
      if v.None? then None else Some(v.value.0)
  }

  /** Version k declares k exactly if its manifest carries a number at all. */
  ghost predicate Labelled(history: seq<Version>, k: nat) {
    1 <= k <= |history| &&
    var number := Label(history[k - 1].manifest);
    (number == Some(k) <==> number.Some?)
  }

  ghost predicate Sound(p: Project) {
    p.Project? ==> MANIFEST in p.work && forall k: nat :: 1 <= k <= |p.history| ==> Labelled(p.history, k)
  }

  lemma ApplyKeepsSound(p: Project, req: Request)
    requires Sound(p)
    ensures Sound(Apply(p, req).0)
  {
    var p' := Apply(p, req).0;
    if p.Project? && p'.Project? {
      forall k: nat | 1 <= k <= |p'.history| ensures Labelled(p'.history, k) {
        assert k <= |p.history| ==> Labelled(p.history, k);
      }
    }
  }

  /** After any requests, the manifest stored for version k declares version k if and only if
      it carries a number, and the working files have a manifest. */
  lemma {:induction false} EveryStateSound(log: seq<Event>)
    ensures Sound(State(log))
  {
    if log != [] {
      var n := |log| - 1;
      EveryStateSound(log[..n]);
      ApplyKeepsSound(State(log[..n]), log[n].req);
    }
  }

  // ---------- Logs, one request at a time ----------

  lemma OneMore(log: seq<Event>, e: Event)
    ensures State(log + [e]) == Apply(State(log), e.req).0
    ensures Atomic(log + [e]) <==> Atomic(log) && e.response == Apply(State(log), e.req).1
  {
    assert (log + [e])[..|log|] == log;
  }

  /** The log of a single client, with the responses of the atomic project. */
  function Log(reqs: seq<Request>): (log: seq<Event>)
    ensures |log| == |reqs|
  {
    if reqs == [] then []
    else
      var n := |reqs| - 1;
      var before := Log(reqs[..n]);
      before + [Event(0, reqs[n], Apply(State(before), reqs[n]).1)]
  }

  lemma {:induction false} LogIsAtomic(reqs: seq<Request>)
    ensures Atomic(Log(reqs))
  {
    if reqs != [] {
      var n := |reqs| - 1;
      LogIsAtomic(reqs[..n]);
      OneMore(Log(reqs[..n]), Event(0, reqs[n], Apply(State(Log(reqs[..n])), reqs[n]).1));
    }
  }

  lemma NextRequest(reqs: seq<Request>, req: Request)
    ensures Log(reqs + [req]) == Log(reqs) + [Event(0, req, Apply(State(Log(reqs)), req).1)]
    ensures State(Log(reqs + [req])) == Apply(State(Log(reqs)), req).0
  {
    assert (reqs + [req])[..|reqs|] == reqs;
    OneMore(Log(reqs), Event(0, req, Apply(State(Log(reqs)), req).1));
  }

  lemma OnlyCreated()
    ensures State(Log([Create])) == Project([], map[MANIFEST := NEW_MANIFEST])
  {
    NextRequest([], Create);
    assert [] + [Create] == [Create];
  }

  /** A push that follows: its manifest is accepted and what it stores is there. */
  lemma PushFollows(reqs: seq<Request>, manifest: Content, tar: Archive, junk: int)
    requires State(Log(reqs)).Project? && |manifest| > 16
    requires Declared(manifest, junk) == |State(Log(reqs)).history| + 1
    ensures var log := Log(reqs + [Push(manifest, tar, junk)]);
      State(log) == Pushed(State(Log(reqs)), manifest, tar) && log[|log| - 1].response == Status(900)
  {
    NextRequest(reqs, Push(manifest, tar, junk));
  }

  /** A new project after its first push. */
  lemma FirstPush(manifest: Content, tar: Archive)
    requires Label(manifest) == Some(1)
    ensures var log := Log([Create, Push(manifest, tar, 0)]);
      && State(log) == Pushed(Project([], map[MANIFEST := NEW_MANIFEST]), manifest, tar)
      && log[1].response == Status(900)
  {
    OnlyCreated();
    PushFollows([Create], manifest, tar, 0);
    assert [Create] + [Push(manifest, tar, 0)] == [Create, Push(manifest, tar, 0)];
  }

  /** 17 letters. */
  const NUMBERLESS: Content := seq(17, _ => 65)

  lemma NumberlessHasNone()
    ensures |NUMBERLESS| == 17 && ScanInt(NUMBERLESS[16..]) == None
  {
    assert NUMBERLESS[16..] == [65];
  }

  /** A manifest without a number is accepted when the uninitialised variable happens to hold
      the next version, and is then stored: version 1 does not declare 1. */
  lemma NumberlessIsStored(tar: Archive)
    ensures var log := Log([Create, Push(NUMBERLESS, tar, 1)]);
      && Atomic(log) && log[1].response == Status(900)
      && State(log).Project? && |State(log).history| == 1
      && State(log).history[0].manifest == NUMBERLESS && Label(NUMBERLESS) == None
  {
    var push := Push(NUMBERLESS, tar, 1);
    OnlyCreated();
    NumberlessHasNone();
    PushFollows([Create], NUMBERLESS, tar, 1);
    assert [Create] + [push] == [Create, push];
    LogIsAtomic([Create, push]);
  }

  // ---------- The client packs its manifest into the archive ----------

  /** What the client of Asst3/client/client.c sends: its manifest is also in the archive. */
  predicate PacksManifest(req: Request) {
    req.Push? ==> MANIFEST in req.tar && req.tar[MANIFEST] == req.manifest
  }

  ghost predicate AllPackManifest(log: seq<Event>) {
    forall i :: 0 <= i < |log| ==> PacksManifest(log[i].req)
  }

  ghost predicate HoldsManifest(v: Version) {
    MANIFEST in v.tar && v.tar[MANIFEST] == v.manifest
  }

  /** Every archive holds its manifest, and the one among the working files is the latest. */
  ghost predicate UpToDate(p: Project) {
    p.Project? ==>
      && (forall k :: 0 <= k < |p.history| ==> HoldsManifest(p.history[k]))
      && MANIFEST in p.work
      && (p.history != [] ==> p.work[MANIFEST] == p.history[|p.history| - 1].manifest)
  }

  lemma ApplyKeepsUpToDate(p: Project, req: Request)
    requires UpToDate(p) && PacksManifest(req)
    ensures UpToDate(Apply(p, req).0)
  {
    var p' := Apply(p, req).0;
    if p.Project? && p'.Project? {
      forall k | 0 <= k < |p'.history| ensures HoldsManifest(p'.history[k]) {
        assert k < |p.history| ==> HoldsManifest(p.history[k]);
      }
    }
  }

  lemma {:induction false} EveryStateUpToDate(log: seq<Event>)
    requires AllPackManifest(log)
    ensures UpToDate(State(log))
  {
    if log != [] {
      var n := |log| - 1;
      assert PacksManifest(log[n].req);
      EveryStateUpToDate(log[..n]);
      ApplyKeepsUpToDate(State(log[..n]), log[n].req);
    }
  }

  // ---------- The client packs its commit record into the archive ----------

  predicate PacksCommit(req: Request) {
    req.Push? ==> COMMIT in req.tar
  }

  ghost predicate AllPackCommit(log: seq<Event>) {
    forall i :: 0 <= i < |log| ==> PacksCommit(log[i].req)
  }

  ghost predicate HasCommits(p: Project) {
    p.Project? ==> forall k :: 0 <= k < |p.history| ==> p.history[k].commit.Some?
  }

  lemma {:induction false} EveryStateHasCommits(log: seq<Event>)
    requires AllPackCommit(log)
    ensures HasCommits(State(log))
  {
    if log != [] {
      var n := |log| - 1;
      assert PacksCommit(log[n].req);
      EveryStateHasCommits(log[..n]);
    }
  }

  /** The commit record stored with a push is the one of its own archive, unless that has none
      and an earlier one is still among the working files, which are not cleared of it. */
  lemma StoredCommitIff(p: Project, req: Request)
    requires p.Project? && req.Push? && Apply(p, req).1 == Status(900)
    ensures var q := Apply(p, req).0;
      && q.Project? && |q.history| == |p.history| + 1
      && (q.history[|p.history|].commit == Lookup(req.tar, COMMIT) <==> COMMIT in req.tar || COMMIT !in p.work)
      && (COMMIT !in req.tar && COMMIT in p.work ==> q.history[|p.history|].commit == Some(p.work[COMMIT]))
  {
    assert Hidden(COMMIT);
  }

  /** A request takes the server down if and only if it asks for the history while a version
      lacks its commit record. */
  lemma ExitIff(log: seq<Event>, req: Request)
    ensures Apply(State(log), req).1 == Exit <==>
      req.History? && State(log).Project? && exists k :: 0 <= k < |State(log).history| && State(log).history[k].commit == None
  {
    EveryStateSound(log);
    if State(log).Project? {
      CommitsIff(State(log).history);
    }
  }

  lemma MissingCommitExits(p: Project, k: nat)
    requires p.Project? && k < |p.history| && p.history[k].commit == None
    ensures Apply(p, History).1 == Exit
  {
    CommitsIff(p.history);
  }

  lemma NoCommitStored(p: Project, manifest: Content, tar: Archive)
    requires p.Project? && COMMIT !in p.work && COMMIT !in tar
    ensures var q := Pushed(p, manifest, tar); q.history[|p.history|].commit == None
  {
  }

  lemma HistoryExits(reqs: seq<Request>, k: nat)
    requires var p := State(Log(reqs)); p.Project? && k < |p.history| && p.history[k].commit == None
    ensures Log(reqs + [History])[|reqs|].response == Exit
    ensures Log(reqs + [History])[..|reqs|] == Log(reqs)
  {
    MissingCommitExits(State(Log(reqs)), k);
    NextRequest(reqs, History);
  }

  /** That happens: a history request after a first push without a commit record. */
  lemma HistoryCanExit(manifest: Content, tar: Archive)
    requires Label(manifest) == Some(1) && COMMIT !in tar
    ensures var log := Log([Create, Push(manifest, tar, 0), History]);
      Atomic(log) && log[1].response == Status(900) && log[2].response == Exit
  {
    var push := Push(manifest, tar, 0);
    FirstPush(manifest, tar);
    NoCommitStored(Project([], map[MANIFEST := NEW_MANIFEST]), manifest, tar);
    HistoryExits([Create, push], 0);
    assert [Create, push] + [History] == [Create, push, History];
    assert Log([Create, push, History])[1] == Log([Create, push])[1];
    LogIsAtomic([Create, push, History]);
  }

  /** With clients that pack their commit records no request ever takes the server down. */
  lemma CommitsKeepServerUp(log: seq<Event>, req: Request)
    requires AllPackCommit(log)
    ensures Apply(State(log), req).1 != Exit
  {
    EveryStateHasCommits(log);
    ExitIff(log, req);
  }

  // ---------- Rolling back ----------

  /** Rolling back a push restores the history before it. */
  lemma RollbackUndoesPush(p: Project, req: Request)
    requires p.Project? && p.history != [] && req.Push? && Apply(p, req).1 == Status(900)
    ensures var q := Apply(Apply(p, req).0, Rollback(|p.history|));
      q.1 == Status(400) && q.0.Project? && q.0.history == p.history
  {
    var p1 := Apply(p, req).0;
    assert p1.history[..|p.history|] == p.history;
  }

  /** The working files after a rollback are those of the version if and only if no other
      file was among them before: they are never cleared. */
  lemma RollbackLeavesFiles(p: Project, version: nat)
    requires p.Project? && 0 < version < |p.history|
    ensures var q := Apply(p, Rollback(version)).0;
      q.Project? && (q.work == p.history[version - 1].tar
        <==> forall name :: name in p.work ==> name in p.history[version - 1].tar)
  {
    var tar := p.history[version - 1].tar;
    var work := p.work + tar;
    if forall name :: name in p.work ==> name in tar {
      assert work == tar;
    } else {
      var name :| name in p.work && name !in tar;
      assert name in work;
    }
  }

  /** That files stay behind happens: two pushes, of which the second has a file more, and a
      rollback to the first. */
  lemma RollbackCanLeaveFiles(m1: Content, m2: Content, tar1: Archive, tar2: Archive, name: string)
    requires Label(m1) == Some(1) && Label(m2) == Some(2) && name in tar2 && name !in tar1
    ensures var log := Log([Create, Push(m1, tar1, 0), Push(m2, tar2, 0), Rollback(1)]);
      && Atomic(log) && log[3].response == Status(400) && State(log).Project?
      && |State(log).history| == 1 && State(log).history[0].tar == tar1 && name in State(log).work
  {
    var push1, push2 := Push(m1, tar1, 0), Push(m2, tar2, 0);
    FirstPush(m1, tar1);
    PushFollows([Create, push1], m2, tar2, 0);
    assert [Create, push1] + [push2] == [Create, push1, push2];
    NextRequest([Create, push1, push2], Rollback(1));
    assert [Create, push1, push2] + [Rollback(1)] == [Create, push1, push2, Rollback(1)];
    LogIsAtomic([Create, push1, push2, Rollback(1)]);
  }

  /** The manifest among the working files is that of the version rolled back to, if and
      only if the archive of that version contains it, given readable manifests. */
  lemma RollbackManifestIff(p: Project, version: nat)
    requires Sound(p) && p.Project? && 0 < version < |p.history|
    requires p.work[MANIFEST] == p.history[|p.history| - 1].manifest
    requires Label(p.history[|p.history| - 1].manifest).Some?
    ensures var q, v := Apply(p, Rollback(version)).0, p.history[version - 1];
      q.Project? && MANIFEST in q.work && q.history[|q.history| - 1] == v
      && (q.work[MANIFEST] == v.manifest <==> MANIFEST in v.tar && v.tar[MANIFEST] == v.manifest)
  {
    assert Labelled(p.history, |p.history|);
    assert Labelled(p.history, version);
  }

  // ---------- Versions stay, and are given away once ----------

  /** The request takes version v away. */
  predicate Removes(req: Request, v: nat) {
    req.Destroy? || (req.Rollback? && 0 < req.version < v)
  }

  ghost predicate NoneRemoves(log: seq<Event>, i: nat, j: nat, v: nat) {
    forall k :: i <= k < j <= |log| ==> !Removes(log[k].req, v)
  }

  lemma ApplyKeepsVersion(p: Project, req: Request, v: nat)
    requires p.Project? && 1 <= v <= |p.history| && !Removes(req, v)
    ensures var q := Apply(p, req).0;
      q.Project? && v <= |q.history| && q.history[v - 1] == p.history[v - 1]
  {
  }

  lemma StateAt(log: seq<Event>, i: nat)
    requires i < |log|
    ensures State(log[..i + 1]) == Apply(State(log[..i]), log[i].req).0
  {
    assert log[..i + 1][..i] == log[..i];
  }

  /** A stored version stays exactly as it is until a rollback below it or a destroy. */
  lemma {:induction false} VersionStays(log: seq<Event>, i: nat, j: nat, v: nat)
    requires i <= j <= |log| && NoneRemoves(log, i, j, v)
    requires var p := State(log[..i]); p.Project? && 1 <= v <= |p.history|
    ensures var p, q := State(log[..i]), State(log[..j]);
      q.Project? && v <= |q.history| && q.history[v - 1] == p.history[v - 1]
    decreases j - i
  {
    if i < j {
      VersionStays(log, i, j - 1, v);
      StateAt(log, j - 1);
      ApplyKeepsVersion(State(log[..j - 1]), log[j - 1].req, v);
    }
  }

  /** Request i of the log is a push that was accepted as version v. */
  ghost predicate AcceptedAs(log: seq<Event>, i: nat, v: nat) {
    i < |log| && log[i].req.Push? && log[i].response == Status(900)
    && |log[i].req.manifest| > 16 && Declared(log[i].req.manifest, log[i].req.junk) == v
  }

  lemma {:induction false} ResponseAt(log: seq<Event>, i: nat)
    requires Atomic(log) && i < |log|
    ensures log[i].response == Apply(State(log[..i]), log[i].req).1
    decreases |log|
  {
    var n := |log| - 1;
    if i < n {
      assert log[..n][..i] == log[..i];
      ResponseAt(log[..n], i);
    }
  }

  lemma AcceptedState(log: seq<Event>, i: nat, v: nat)
    requires Atomic(log) && AcceptedAs(log, i, v)
    ensures var p, q := State(log[..i]), State(log[..i + 1]);
      && p.Project? && |p.history| + 1 == v && q.Project? && |q.history| == v
      && q.history[v - 1].manifest == log[i].req.manifest && q.history[v - 1].tar == log[i].req.tar
  {
    ResponseAt(log, i);
    StateAt(log, i);
  }

  /** Of all pushes made for the same version at most one is accepted, as long as no
      rollback below it and no destroy comes between. */
  lemma OnePushPerVersion(log: seq<Event>, i: nat, j: nat, v: nat)
    requires Atomic(log) && AcceptedAs(log, i, v) && AcceptedAs(log, j, v) && i < j
    ensures exists k :: i < k < j && Removes(log[k].req, v)
  {
    AcceptedState(log, i, v);
    AcceptedState(log, j, v);
    if forall k :: i < k < j ==> !Removes(log[k].req, v) {
      VersionStays(log, i + 1, j, v);
    }
  }

  lemma UpgradeReads(p: Project, v: nat)
    requires p.Project? && 1 <= v <= |p.history|
    ensures Apply(p, Upgrade(v)).1 == Reply(700, p.history[v - 1].manifest, Some(p.history[v - 1].tar))
  {
  }

  /** An upgrade to a version returns exactly what was pushed as that version. */
  lemma UpgradeReturnsPush(log: seq<Event>, i: nat, j: nat, v: nat)
    requires Atomic(log) && AcceptedAs(log, i, v) && i < j < |log|
    requires log[j].req == Upgrade(v) && NoneRemoves(log, i + 1, j, v)
    ensures log[j].response == Reply(700, log[i].req.manifest, Some(log[i].req.tar))
  {
    AcceptedState(log, i, v);
    VersionStays(log, i + 1, j, v);
    ResponseAt(log, j);
    UpgradeReads(State(log[..j]), v);
  }

  // ---------- The same for the concurrent server ----------

  /** Concurrent pushes for the same version: at most one is accepted. */
  lemma ConcurrentPushes(run: seq<Action>, i: nat, j: nat, v: nat)
    requires After(run).Some?
    requires AcceptedAs(After(run).value.log, i, v) && AcceptedAs(After(run).value.log, j, v) && i < j
    ensures exists k :: i < k < j && Removes(After(run).value.log[k].req, v)
  {
    EveryRunIsAtomic(run);
    OnePushPerVersion(After(run).value.log, i, j, v);
  }

  /** With clients that pack their commit records the server never goes down, however the
      requests interleave. */
  lemma {:induction false} ServerNeverExits(run: seq<Action>)
    requires After(run).Some? && AllPackCommit(After(run).value.log)
    ensures !After(run).value.exited
  {
    if run != [] {
      var n := |run| - 1;
      var s, s' := After(run[..n]).value, After(run).value;
      EveryRunIsAtomic(run);
      assert s.log <= s'.log;
      assert AllPackCommit(s.log) by {
        forall i | 0 <= i < |s.log| ensures PacksCommit(s.log[i].req) {
          assert PacksCommit(s'.log[i].req);
        }
      }
      ServerNeverExits(run[..n]);
      if run[n].Finished? {
        CommitsKeepServerUp(s.log, s'.log[|s.log|].req);
        assert s'.log[..|s.log|] == s.log;
      }
    }
  }

  /** Whenever no writer is at work, there are version directories for 1 to the current
      version and for no other, each with its archive and a manifest, which declares that
      number if and only if it carries one. With clients that pack their manifests, the
      manifest among the working files is the latest. */
  lemma StoredVersions(run: seq<Action>)
    requires After(run).Some? && After(run).value.writer.None? && After(run).value.fs.Files?
    ensures var fs := After(run).value.fs;
      && fs.current.Some? && MANIFEST in fs.curr
      && (forall k :: k in fs.versions <==> 1 <= k <= fs.current.value)
      && (forall k :: k in fs.versions ==> NumberedDirectory(fs.versions[k], k))
    ensures AllPackManifest(After(run).value.log) ==> LatestManifestInPlace(After(run).value.fs)
  {
    var s := After(run).value;
    EveryRunIsAtomic(run);
    EveryStateSound(s.log);
    NumberedDirectories(State(s.log));
    if AllPackManifest(s.log) {
      EveryStateUpToDate(s.log);
      LatestInPlace(State(s.log));
    }
  }

  lemma NumberedDirectories(p: Project)
    requires p.Project? && Sound(p)
    ensures var fs := Stored(p);
      && (forall k :: k in fs.versions <==> 1 <= k <= fs.current.value)
      && (forall k :: k in fs.versions ==> NumberedDirectory(fs.versions[k], k))
  {
    var versions := Directories(p.history);
    forall k | k in versions ensures NumberedDirectory(versions[k], k) {
      assert Labelled(p.history, k);
      assert versions[k] == Directory(p.history, k);
    }
  }

  lemma LatestInPlace(p: Project)
    requires p.Project? && UpToDate(p)
    ensures LatestManifestInPlace(Stored(p))
  {
    var n := |p.history|;
    if n > 0 {
      assert Stored(p).versions[n as int] == Directory(p.history, n);
    }
  }

  /** A version directory with archive and manifest, which declares the given version if and
      only if it carries a number. */
  ghost predicate NumberedDirectory(dir: VersionDir, k: int) {
    && dir.tar.Some? && dir.manifest.Some?
    && (Label(dir.manifest.value) == Some(k) <==> Label(dir.manifest.value).Some?)
  }

  /** From version 1 on, the manifest among the working files is that of the latest version. */
  ghost predicate LatestManifestInPlace(fs: FileSystem) {
    fs.Files? && fs.current.Some? && fs.current.value >= 1 ==>
      && fs.current.value in fs.versions && MANIFEST in fs.curr
      && Some(fs.curr[MANIFEST]) == fs.versions[fs.current.value].manifest
  }
}
