/** The server of Asst3/server with any number of concurrent requests: every handler runs in
    its own thread, one read or write of the file system at a time, under the reader/writer
    lock of the project. */
module Server {
  import opened CTypes
  import opened ProjectObject
  import opened Handlers
  import opened HandlerRefinement

  /** A request that has been answered. */
  datatype Event = Event(client: nat, req: Request, response: Response)

  /** A thread waits for the lock or holds it. */
  datatype Thread = Waiting(req: Request) | Running(req: Request, local: Local)

  /** The log is in the order in which handlers finish. */
  datatype System = System(
    fs: FileSystem, writer: Option<nat>, readers: set<nat>, threads: map<nat, Thread>, exited: bool,
    log: seq<Event>)

  const INITIAL: System := System(Missing, None, {}, map[], false, [])

  datatype Action = Invoke(client: nat, req: Request) | Lock(client: nat) | Work(client: nat) | Finished(client: nat)

  predicate Free(s: System, req: Request) {
    s.writer.None? && (IsWriter(req) ==> s.readers == {})
  }

  predicate Enabled(s: System, a: Action) {
    && !s.exited
    && match a
       case Invoke(c, _) => c !in s.threads
       case Lock(c) => c in s.threads && s.threads[c].Waiting? && Free(s, s.threads[c].req)
       case Work(c) => c in s.threads && s.threads[c].Running? && !s.threads[c].local.Done?
       case Finished(c) => c in s.threads && s.threads[c].Running? && s.threads[c].local.Done?
  }

  /** One action of the system. A handler whose last word is Exit takes the process down. */
  function Do(s: System, a: Action): System
    requires Enabled(s, a)
  {
    match a
    case Invoke(c, req) => s.(threads := s.threads[c := Waiting(req)])
    case Lock(c) =>
      var req := s.threads[c].req;
      var threads := s.threads[c := Running(req, Start(req))];
      if IsWriter(req) then s.(threads := threads, writer := Some(c))
      else s.(threads := threads, readers := s.readers + {c})
    case Work(c) =>
      var t := s.threads[c];
      var (l, fs) := Step(t.local, s.fs);
      s.(threads := s.threads[c := Running(t.req, l)], fs := fs)
    case Finished(c) =>
      var t := s.threads[c];
      s.(threads := s.threads - {c}, writer := if IsWriter(t.req) then None else s.writer,
         readers := s.readers - {c}, exited := t.local.response.Exit?,
         log := s.log + [Event(c, t.req, t.local.response)])
  }

  // ---------- The requests of a log, one at a time ----------

  /** The project after the logged requests, carried out one by one. */
  function State(log: seq<Event>): Project {
    if log == [] then NoProject
    else
      var n := |log| - 1;
      Apply(State(log[..n]), log[n].req).0
  }

  /** Every logged response is the one the atomic project gives. */
  predicate Atomic(log: seq<Event>) {
    log != [] ==>
      var n := |log| - 1;
      Atomic(log[..n]) && log[n].response == Apply(State(log[..n]), log[n].req).1
  }

  // ---------- The invariant ----------

  /** A running handler will end as if it had run alone on the project as last stored. */
  ghost predicate OnCourse(fs: FileSystem, base: FileSystem, t: Thread) {
    t.Running? && Finish(t.local, fs) == Finish(Start(t.req), base)
  }

  ghost predicate ReaderOk(s: System, base: FileSystem, c: nat) {
    c in s.threads && OnCourse(s.fs, base, s.threads[c])
    && !IsWriter(s.threads[c].req) && ReadsOnly(s.threads[c].local)
  }

  ghost predicate WriterOk(s: System, base: FileSystem, c: nat) {
    c in s.threads && OnCourse(s.fs, base, s.threads[c]) && IsWriter(s.threads[c].req)
  }

  ghost predicate HoldsLock(s: System, c: nat) {
    s.writer == Some(c) || c in s.readers
  }

  ghost predicate Inv(s: System) {
    var base := Stored(State(s.log));
    && Atomic(s.log)
    && (s.writer.None? ==> s.fs == base)
    && (s.writer.Some? ==> s.readers == {} && WriterOk(s, base, s.writer.value))
    && (forall c :: c in s.readers ==> ReaderOk(s, base, c))
    && (forall c :: c in s.threads && s.threads[c].Running? ==> HoldsLock(s, c))
  }

  lemma LockKeepsInv(s: System, c: nat)
    requires Inv(s) && Enabled(s, Lock(c))
    ensures Inv(Do(s, Lock(c)))
  {
    var s', base := Do(s, Lock(c)), Stored(State(s.log));
    forall d | d in s'.readers ensures ReaderOk(s', base, d) {
      assert d != c ==> ReaderOk(s, base, d);
    }
    forall d | d in s'.threads && s'.threads[d].Running? ensures HoldsLock(s', d) {
      assert d != c ==> HoldsLock(s, d);
    }
  }

  lemma WorkKeepsInv(s: System, c: nat)
    requires Inv(s) && Enabled(s, Work(c))
    ensures Inv(Do(s, Work(c)))
  {
    var s', base, l := Do(s, Work(c)), Stored(State(s.log)), s.threads[c].local;
    assert HoldsLock(s, c);
    assert Finish(l, s.fs) == Finish(Step(l, s.fs).0, Step(l, s.fs).1);
    if s.writer.None? {
      assert ReaderOk(s, base, c);
      ReaderSteps(l, s.fs);
    }
    forall d | d in s'.readers ensures ReaderOk(s', base, d) {
      assert ReaderOk(s, base, d);
    }
    forall d | d in s'.threads && s'.threads[d].Running? ensures HoldsLock(s', d) {
      assert HoldsLock(s, d);
    }
  }

  lemma FinishedKeepsInv(s: System, c: nat)
    requires Inv(s) && Enabled(s, Finished(c))
    ensures Inv(Do(s, Finished(c)))
  {
    var s', p, t := Do(s, Finished(c)), State(s.log), s.threads[c];
    var base := Stored(p);
    assert s'.log[..|s.log|] == s.log;
    assert HoldsLock(s, c);
    HandlerIsAtomic(p, t.req);
    assert Finish(t.local, s.fs) == (t.local.response, s.fs);
    if s.writer.None? {
      assert ReaderOk(s, base, c);
    }
    forall d | d in s'.readers ensures ReaderOk(s', base, d) {
      assert ReaderOk(s, base, d);
    }
    forall d | d in s'.threads && s'.threads[d].Running? ensures HoldsLock(s', d) {
      assert HoldsLock(s, d);
    }
  }

  lemma StepKeepsInv(s: System, a: Action)
    requires Inv(s) && Enabled(s, a)
    ensures Inv(Do(s, a))
  {
    match a
    case Invoke(c, req) =>
      var s', base := Do(s, a), Stored(State(s.log));
      forall d | d in s'.readers ensures ReaderOk(s', base, d) {
        assert ReaderOk(s, base, d);
      }
      forall d | d in s'.threads && s'.threads[d].Running? ensures HoldsLock(s', d) {
        assert HoldsLock(s, d);
      }
    case Lock(c) => LockKeepsInv(s, c);
    case Work(c) => WorkKeepsInv(s, c);
    case Finished(c) => FinishedKeepsInv(s, c);
  }

  // ---------- All runs ----------

  /** The system after a run, or None if some action was not possible. */
  function After(run: seq<Action>): Option<System> {
    if run == [] then Some(INITIAL)
    else
      var n := |run| - 1;
      var s := After(run[..n]);
      if s.Some? && Enabled(s.value, run[n]) then Some(Do(s.value, run[n])) else None
  }

  lemma {:induction false} RunsKeepInv(run: seq<Action>)
    requires After(run).Some?
    ensures Inv(After(run).value)
  {
    if run != [] {
      var n := |run| - 1;
      RunsKeepInv(run[..n]);
      StepKeepsInv(After(run[..n]).value, run[n]);
    }
  }

  /** However the steps of the handlers interleave, every response is that of a project on
      which the requests are carried out one by one in the order in which they finish, and
      whenever no writer is at work the files are exactly those of that project. */
  lemma EveryRunIsAtomic(run: seq<Action>)
    requires After(run).Some?
    ensures var s := After(run).value;
      Atomic(s.log) && (s.writer.None? ==> s.fs == Stored(State(s.log)))
  {
    RunsKeepInv(run);
  }

  /** Answers stay where they are in the log: a request answered before another one arrives
      also comes before it in the order in which all of them take effect. */
  lemma {:induction false} LogOnlyGrows(run: seq<Action>, i: nat)
    requires After(run).Some? && i <= |run|
    ensures After(run[..i]).Some? && After(run[..i]).value.log <= After(run).value.log
  {
    if i == |run| {
      assert run[..i] == run;
    } else {
      var n := |run| - 1;
      assert run[..n][..i] == run[..i];
      LogOnlyGrows(run[..n], i);
    }
  }

  /** A writer at work is alone. */
  lemma WritersAreAlone(run: seq<Action>, c: nat, d: nat)
    requires After(run).Some? && c in After(run).value.threads && d in After(run).value.threads
    requires After(run).value.threads[c].Running? && IsWriter(After(run).value.threads[c].req)
    requires After(run).value.threads[d].Running?
    ensures c == d
  {
    RunsKeepInv(run);
    var s := After(run).value;
    assert HoldsLock(s, c) && HoldsLock(s, d);
    assert c in s.readers ==> ReaderOk(s, Stored(State(s.log)), c);
  }

  /** Two handlers that must not run side by side. */
  predicate Conflicting(a: Request, b: Request) {
    IsWriter(a) || IsWriter(b)
  }

  /** A waiting thread can take the lock if and only if no handler it conflicts with is running:
      readers run side by side. */
  lemma LockIff(run: seq<Action>, c: nat)
    requires After(run).Some? && !After(run).value.exited
    requires c in After(run).value.threads && After(run).value.threads[c].Waiting?
    ensures var s := After(run).value;
      Enabled(s, Lock(c)) <==>
        forall d :: d in s.threads && s.threads[d].Running? ==> !Conflicting(s.threads[c].req, s.threads[d].req)
  {
    RunsKeepInv(run);
    LockIffFree(After(run).value, c);
  }

  lemma LockIffFree(s: System, c: nat)
    requires Inv(s) && !s.exited && c in s.threads && s.threads[c].Waiting?
    ensures Enabled(s, Lock(c)) <==>
      forall d :: d in s.threads && s.threads[d].Running? ==> !Conflicting(s.threads[c].req, s.threads[d].req)
  {
    var base := Stored(State(s.log));
    forall d | d in s.readers ensures ReaderOk(s, base, d) && s.threads[d].Running? {
    }
    if s.writer.Some? {
      assert WriterOk(s, base, s.writer.value);
    }
    forall d | d in s.threads && s.threads[d].Running? ensures HoldsLock(s, d) {
    }
  }

  /** No deadlock: as long as a request is not answered, some thread can go on. */
  lemma SomeThreadCanGoOn(run: seq<Action>, c: nat)
    requires After(run).Some? && !After(run).value.exited && c in After(run).value.threads
    ensures exists a :: Enabled(After(run).value, a) && !a.Invoke?
  {
    RunsKeepInv(run);
    var s := After(run).value;
    var base := Stored(State(s.log));
    if s.writer.Some? {
      assert WriterOk(s, base, s.writer.value);
      RunningCanGoOn(s, s.writer.value);
    } else if d :| d in s.readers {
      assert ReaderOk(s, base, d);
      RunningCanGoOn(s, d);
    } else {
      assert s.threads[c].Running? ==> HoldsLock(s, c);
      assert Enabled(s, Lock(c));
    }
  }

  lemma RunningCanGoOn(s: System, c: nat)
    requires !s.exited && c in s.threads && s.threads[c].Running?
    ensures exists a :: Enabled(s, a) && !a.Invoke?
  {
    assert Enabled(s, Work(c)) || Enabled(s, Finished(c));
  }
}
