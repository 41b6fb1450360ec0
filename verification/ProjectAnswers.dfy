/** What the answers of a project say about the requests before them. */
module ProjectAnswers {
  import opened CTypes
  import opened ProjectObject
  import opened HistoryText
  import opened Handlers
  import opened HandlerRefinement
  import opened Server
  import opened ProjectSafety

  // ---------- The text of a history ----------

  /** A history is answered with the records of versions 1 to n, in this order, if and only if
      there is a version and each has its record. */
  lemma HistoryInOrder(p: Project, text: Content)
    requires p.Project?
    ensures Apply(p, History).1 == Answer(100, text) <==>
      && p.history != [] && AllRecorded(p.history)
      && text == Concat(Records(p.history))
  {
    CommitsIff(p.history);
    if AllRecorded(p.history) {
      CommitsInOrder(p.history);
    } else {
      var k :| 0 <= k < |p.history| && p.history[k].commit == None;
    }
  }

  /** The answer to a history request with the given text; without a version it is empty. */
  predicate IsHistory(response: Response, text: Content) {
    response == Answer(100, text) || (response == Status(101) && text == [])
  }

  /** A push appends its record, and changes nothing in front of it; without one in its
      archive and among the files from before, the next history request ends the process. */
  lemma PushAppendsRecord(p: Project, req: Request, text: Content)
    requires p.Project? && IsHistory(Apply(p, History).1, text)
    requires req.Push? && Apply(p, req).1 == Status(900)
    ensures var record := Lookup(if COMMIT in req.tar then req.tar else p.work, COMMIT);
      Apply(Apply(p, req).0, History).1 ==
        if record.None? then Exit else Answer(100, text + record.value + [NEWLINE, NEWLINE])
  {
    var q := Apply(p, req).0;
    StoredCommitIff(p, req);
    assert q.history[..|p.history|] == p.history;
    assert p.history == [] ==> Commits(p.history) == Some([]);
  }

  lemma {:induction false} ConcatFront(parts: seq<Content>, n: nat)
    requires n <= |parts|
    ensures Concat(parts[..n]) <= Concat(parts)
  {
    if n > 0 {
      assert parts[..n][1..] == parts[1..][..n - 1];
      ConcatFront(parts[1..], n - 1);
    } else {
      assert parts[..n] == [];
    }
  }

  /** A rollback takes the records behind its version away, and leaves the text in front. */
  lemma RollbackCutsHistory(p: Project, version: nat)
    requires p.Project? && 0 < version < |p.history| && AllRecorded(p.history)
    ensures Apply(Apply(p, Rollback(version)).0, History).1 == Answer(100, Concat(Records(p.history)[..version]))
    ensures Concat(Records(p.history)[..version]) <= Concat(Records(p.history))
  {
    var q := Apply(p, Rollback(version)).0;
    ConcatFront(Records(p.history), version);
    assert Records(q.history) == Records(p.history)[..version];
    HistoryInOrder(q, Concat(Records(q.history)));
  }

  // ---------- Working files ----------

  lemma PushReplacesFiles(p: Project, req: Request)
    requires p.Project? && req.Push? && Apply(p, req).1 == Status(900)
    ensures Apply(p, req).0.Project? && FilesAfterPush(Apply(p, req).0.work, req.manifest, req.tar, p.work)
  {
  }

  /** No file of an earlier version is left, unless its name starts with a dot. */
  lemma NoStaleFiles(work: Archive, manifest: Content, tar: Archive, before: Archive, name: string)
    requires FilesAfterPush(work, manifest, tar, before) && !("." <= name)
    ensures Lookup(work, name) == Lookup(tar, name)
  {
    assert FileAfterPush(work, name, manifest, tar, before);
  }

  /** A rollback lays the archive of its version over the files. */
  lemma RollbackOverlays(p: Project, version: nat, name: string)
    requires p.Project? && 0 < version < |p.history|
    ensures var q, tar := Apply(p, Rollback(version)).0, p.history[version - 1].tar;
      q.Project? && Lookup(q.work, name) == if name in tar then Some(tar[name]) else Lookup(p.work, name)
  {
  }

  // ---------- Refused requests ----------

  /** The number of the current version. */
  function Current(p: Project): nat
    requires p.Project?
  {
    |p.history|
  }

  /** What a request asks for does not exist, or a push does not fit. */
  predicate Misses(p: Project, req: Request)
    requires p.Project?
  {
    match req
    case Rollback(version) => !(1 <= version <= Current(p))
    case Upgrade(v) => !(1 <= v <= Current(p))
    case Push(manifest, _, junk) => |manifest| <= 16 || Declared(manifest, junk) != Current(p) + 1
    case Create => true
    case History => Current(p) == 0
    case CurrentVersion => Current(p) == 0
    case Checkout => Current(p) == 0
    case _ => false
  }

  predicate IsRefusal(r: Response) {
    && r.Reply? && r == Status(r.code)
    && r.code in {1, 101, 201, 401, 502, 601, 701, 702, 901, 902, 999}
  }

  /** In every state that requests lead to, a request is refused if and only if it misses, and
      then nothing changes. */
  lemma RefusedIffMisses(log: seq<Event>, req: Request)
    requires State(log).Project?
    ensures IsRefusal(Apply(State(log), req).1) <==> Misses(State(log), req)
    ensures Misses(State(log), req) ==> Apply(State(log), req).0 == State(log)
  {
    EveryStateSound(log);
  }

  /** Without a project everything but creating it is refused. */
  lemma NoProjectRefuses(req: Request)
    ensures Apply(NoProject, req) ==
      if req.Create? then (Project([], map[MANIFEST := NEW_MANIFEST]), Answer(0, CREATED))
      else (NoProject, Status(999))
  {
  }

  /** What a project that was just created answers. */
  lemma NewProjectAnswers(req: Request)
    ensures var (p, response) := Apply(State(Log([Create])), req);
      && (req.History? ==> response == Status(101)) && (req.CurrentVersion? ==> response == Status(201))
      && (req.Checkout? ==> response == Status(502)) && (req.Rollback? ==> response == Status(401))
      && (req.Upgrade? ==> response == Status(if req.wanted == 0 then 701 else 702))
      && (req.Update? ==> response == Answer(600, NEW_MANIFEST))
      && (req.Commit? ==> response == Answer(800, NEW_MANIFEST))
      && (req.Destroy? ==> response == Status(300) && p == NoProject)
      && (req.Create? ==> response == Status(1))
  {
    OnlyCreated();
  }

  /** A project that is destroyed and created again is new, whatever it held. */
  lemma DestroyForgets(p: Project)
    requires p.Project?
    ensures Apply(p, Destroy).1 == Status(300)
    ensures Apply(Apply(p, Destroy).0, Create).0 == State(Log([Create]))
  {
    OnlyCreated();
  }

  // ---------- Requests that change nothing ----------

  /** No accepted push, no rollback that was carried out, and no destroy. */
  predicate Quiet(e: Event) {
    && !(e.req.Push? && e.response == Status(900))
    && !(e.req.Rollback? && e.response == Status(400))
    && !e.req.Destroy?
  }

  ghost predicate AllQuiet(log: seq<Event>, i: nat, j: nat) {
    forall k :: i <= k < j <= |log| ==> Quiet(log[k])
  }

  lemma {:induction false} QuietStays(log: seq<Event>, i: nat, j: nat)
    requires Atomic(log) && i <= j <= |log| && State(log[..i]).Project? && AllQuiet(log, i, j)
    ensures State(log[..j]) == State(log[..i])
    decreases j - i
  {
    if i < j {
      QuietStays(log, i, j - 1);
      ResponseAt(log, j - 1);
      StateAt(log, j - 1);
      assert Quiet(log[j - 1]);
    }
  }

  lemma AcceptedIsPushed(p: Project, req: Request)
    requires p.Project? && req.Push? && Apply(p, req).1 == Status(900)
    ensures Apply(p, req).0 == Pushed(p, req.manifest, req.tar)
  {
  }

  lemma PushedNext(log: seq<Event>, i: nat, v: nat)
    requires Atomic(log) && AcceptedAs(log, i, v)
    ensures State(log[..i]).Project?
    ensures State(log[..i + 1]) == Pushed(State(log[..i]), log[i].req.manifest, log[i].req.tar)
  {
    AcceptedState(log, i, v);
    ResponseAt(log, i);
    StateAt(log, i);
    AcceptedIsPushed(State(log[..i]), log[i].req);
  }

  lemma PushedState(log: seq<Event>, i: nat, j: nat, v: nat)
    requires Atomic(log) && AcceptedAs(log, i, v) && i < j <= |log| && AllQuiet(log, i + 1, j)
    ensures State(log[..i]).Project? && State(log[..j]) == Pushed(State(log[..i]), log[i].req.manifest, log[i].req.tar)
  {
    PushedNext(log, i, v);
    QuietStays(log, i + 1, j);
  }

  lemma LatestPushed(p: Project, manifest: Content, tar: Archive)
    requires p.Project?
    ensures var q := Pushed(p, manifest, tar);
      && Apply(q, Checkout).1 == Reply(500, [], Some(tar)) && Apply(q, CurrentVersion).1 == Answer(200, manifest)
      && Apply(q, Update).1 == Answer(600, manifest) && Apply(q, Commit).1 == Answer(800, manifest)
  {
  }

  /** Until the next accepted push, rollback or destroy, the archive and manifest of a push
      are what is checked out and what every request for the manifest is answered with. */
  lemma LatestIsPush(log: seq<Event>, i: nat, j: nat, v: nat)
    requires Atomic(log) && AcceptedAs(log, i, v) && i < j < |log| && AllQuiet(log, i + 1, j)
    ensures var (req, response) := (log[j].req, log[j].response);
      && (req.Checkout? ==> response == Reply(500, [], Some(log[i].req.tar)))
      && (req.CurrentVersion? ==> response == Answer(200, log[i].req.manifest))
      && (req.Update? ==> response == Answer(600, log[i].req.manifest))
      && (req.Commit? ==> response == Answer(800, log[i].req.manifest))
  {
    PushedState(log, i, j, v);
    ResponseAt(log, j);
    LatestPushed(State(log[..i]), log[i].req.manifest, log[i].req.tar);
  }

  lemma HistoryStays(log: seq<Event>, h: nat, i: nat, text: Content)
    requires Atomic(log) && h < i <= |log| && AllQuiet(log, h + 1, i)
    requires log[h].req.History? && IsHistory(log[h].response, text)
    ensures State(log[..i]).Project? && IsHistory(Apply(State(log[..i]), History).1, text)
  {
    ResponseAt(log, h);
    StateAt(log, h);
    QuietStays(log, h + 1, i);
  }

  lemma RecordIsAppended(log: seq<Event>, i: nat, v: nat, text: Content, record: Content)
    requires Atomic(log) && AcceptedAs(log, i, v) && Lookup(log[i].req.tar, COMMIT) == Some(record)
    requires State(log[..i]).Project? && IsHistory(Apply(State(log[..i]), History).1, text)
    ensures State(log[..i + 1]).Project?
    ensures Apply(State(log[..i + 1]), History).1 == Answer(100, text + record + [NEWLINE, NEWLINE])
  {
    ResponseAt(log, i);
    StateAt(log, i);
    PushAppendsRecord(State(log[..i]), log[i].req, text);
  }

  /** A history answered before a push and one answered after it differ by its record. */
  lemma HistoriesAroundPush(log: seq<Event>, h: nat, i: nat, j: nat, v: nat, text: Content, record: Content)
    requires Atomic(log) && AcceptedAs(log, i, v) && h < i < j < |log|
    requires log[h].req.History? && IsHistory(log[h].response, text) && AllQuiet(log, h + 1, i)
    requires log[j].req.History? && AllQuiet(log, i + 1, j)
    requires Lookup(log[i].req.tar, COMMIT) == Some(record)
    ensures log[j].response == Answer(100, text + record + [NEWLINE, NEWLINE])
  {
    HistoryStays(log, h, i, text);
    RecordIsAppended(log, i, v, text, record);
    QuietStays(log, i + 1, j);
    ResponseAt(log, j);
  }

  // ---------- Rolling back to a version that was pushed ----------

  lemma RollbackMakesLatest(p: Project, version: nat)
    requires p.Project? && 0 < version <= |p.history|
    ensures var (q, response) := Apply(p, Rollback(version));
      && response == Status(400) && q.Project? && |q.history| == version
      && q.history == p.history[..version] && (version == |p.history| ==> q == p)
      && Apply(q, Checkout).1 == Reply(500, [], Some(p.history[version - 1].tar))
      && Apply(q, CurrentVersion).1 == Answer(200, p.history[version - 1].manifest)
  {
  }

  lemma StateAfterRollback(log: seq<Event>, i: nat, r: nat, v: nat)
    requires Atomic(log) && AcceptedAs(log, i, v) && i < r < |log|
    requires log[r].req == Rollback(v) && NoneRemoves(log, i + 1, r, v)
    ensures log[r].response == Status(400)
    ensures var q := State(log[..r + 1]);
      q.Project? && Apply(q, Checkout).1 == Reply(500, [], Some(log[i].req.tar))
      && Apply(q, CurrentVersion).1 == Answer(200, log[i].req.manifest)
  {
    AcceptedState(log, i, v);
    VersionStays(log, i + 1, r, v);
    RollbackMakesLatest(State(log[..r]), v);
    ResponseAt(log, r);
    StateAt(log, r);
  }

  /** After a rollback to version v, a checkout gives the archive that was pushed as v, and
      currentversion its manifest. */
  lemma RollbackReturnsPush(log: seq<Event>, i: nat, r: nat, j: nat, v: nat)
    requires Atomic(log) && AcceptedAs(log, i, v) && i < r < j < |log|
    requires log[r].req == Rollback(v) && NoneRemoves(log, i + 1, r, v) && AllQuiet(log, r + 1, j)
    ensures log[r].response == Status(400)
    ensures log[j].req.Checkout? ==> log[j].response == Reply(500, [], Some(log[i].req.tar))
    ensures log[j].req.CurrentVersion? ==> log[j].response == Answer(200, log[i].req.manifest)
  {
    StateAfterRollback(log, i, r, v);
    QuietStays(log, r + 1, j);
    ResponseAt(log, j);
  }

  // ---------- The same for the concurrent server ----------

  /** However requests interleave: when no writer is at work, and no push, rollback or destroy
      has been carried out since a push, the directory Curr holds the files of that push and
      its manifest, and no other file but those with a dot that were there before. */
  lemma CurrHoldsPush(run: seq<Action>, i: nat, v: nat)
    requires After(run).Some? && After(run).value.writer.None?
    requires var log := After(run).value.log; AcceptedAs(log, i, v) && AllQuiet(log, i + 1, |log|)
    ensures var s := After(run).value;
      && s.fs.Files? && State(s.log[..i]).Project?
      && FilesAfterPush(s.fs.curr, s.log[i].req.manifest, s.log[i].req.tar, State(s.log[..i]).work)
  {
    var s := After(run).value;
    EveryRunIsAtomic(run);
    PushedState(s.log, i, |s.log|, v);
    assert s.log[..|s.log|] == s.log;
    ResponseAt(s.log, i);
    PushReplacesFiles(State(s.log[..i]), s.log[i].req);
  }
}
