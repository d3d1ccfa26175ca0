/**
 The statement-level and the transaction-level models are two views of one protocol: what a commit of
 any interleaving installs is the transaction-level step of the same operation, so every world the
 interleavings reach is one that a transaction-level run reaches, and what holds of runs holds of them.
 */
module AskLevels {
  import opened Lifecycle
  import R = AskRace
  import I = AskRaceInvariant
  import A = AskRaceResults
  import S = AskSpec
  import AskRuns

  /** The committed tables of `db`, with only the columns the statement-level model has. */
  ghost function TaskStates(db: S.Db): map<S.TaskId, TaskState> {
    map t | t in db.tasks :: db.tasks[t].state
  }

  ghost function AskRows(db: S.Db): map<S.AskId, R.AskRow> {
    map a | a in db.asks :: R.AskRow(db.asks[a].task, db.asks[a].state)
  }

  ghost predicate Shows(w: R.World, db: S.Db) {
    w.tasks == TaskStates(db) && w.asks == AskRows(db)
  }

  lemma ShowsRows(w: R.World, db: S.Db)
    requires Shows(w, db)
    ensures forall t, s :: R.InState(w, t, s) <==> S.InState(db, t, s)
    ensures forall a, t :: R.Open(w.asks, a, t) <==> S.PendingAsk(db, a, t)
  {
  }

  // ---- One commit ----------------------------------------------------------

  lemma CancelLevels(w: R.World, db: S.Db, t: S.TaskId)
    requires Shows(w, db) && A.OpGuard(w, A.CancelOp(t))
    ensures A.OpTasks(w, A.CancelOp(t)) == TaskStates(S.Step(db, S.Cancel(t)))
    ensures A.OpAsks(w, A.CancelOp(t)) == AskRows(S.Step(db, S.Cancel(t)))
  {
    ShowsRows(w, db);
  }

  lemma RaiseLevels(w: R.World, db: S.Db, t: S.TaskId, a: S.AskId, options: seq<Option<string>>, nonce: S.Hash, deadline: S.Time, now: S.Time)
    requires Shows(w, db) && A.OpGuard(w, A.RaiseOp(t, a)) && S.CanRaise(db, t, a, options, nonce, deadline, now)
    ensures A.OpTasks(w, A.RaiseOp(t, a)) == TaskStates(S.Step(db, S.Raise(t, a, options, nonce, deadline, now)))
    ensures A.OpAsks(w, A.RaiseOp(t, a)) == AskRows(S.Step(db, S.Raise(t, a, options, nonce, deadline, now)))
  {
  }

  lemma ResolveLevels(w: R.World, db: S.Db, a: S.AskId, who: string, doc: S.Resolution, now: S.Time)
    requires Shows(w, db) && A.OpGuard(w, A.ResolveOp(a)) && S.Live(db.asks[a], now) && S.Offers(db.asks[a], doc)
    ensures A.OpTasks(w, A.ResolveOp(a)) == TaskStates(S.Step(db, S.Resolve(a, who, doc, now)))
    ensures A.OpAsks(w, A.ResolveOp(a)) == AskRows(S.Step(db, S.Resolve(a, who, doc, now)))
  {
    ShowsRows(w, db);
    assert S.ResolveOutcome(db, a, doc) == S.Done;
  }

  /** The sweep took only asks that were due at its reading; it need not have seen them all. */
  ghost predicate AllDue(db: S.Db, took: set<S.AskId>, now: S.Time) {
    forall a :: a in took ==> S.Taken(db, took, a, now)
  }

  lemma ExpireTasksLevel(w: R.World, db: S.Db, took: set<S.AskId>, now: S.Time, t: S.TaskId)
    requires Shows(w, db) && I.Paired(w.tasks, w.asks) && AllDue(db, took, now) && t in db.tasks
    ensures A.ExpiresTask(w, took, t) <==> db.tasks[t].state == AwaitingOperator && S.TakenTask(db, took, t, now)
  {
    ShowsRows(w, db);
    if a :| a in took && R.Open(w.asks, a, t) {
      assert S.Taken(db, took, a, now);
    }
    if S.TakenTask(db, took, t, now) {
      var a :| a in db.asks && S.Taken(db, took, a, now) && db.asks[a].task == t;
      assert R.Open(w.asks, a, t);
    }
  }

  lemma ExpireAsksLevel(w: R.World, db: S.Db, took: set<S.AskId>, now: S.Time)
    requires Shows(w, db) && A.OpGuard(w, A.ExpireOp(took)) && AllDue(db, took, now)
    ensures A.OpAsks(w, A.ExpireOp(took)) == AskRows(S.Expiring(db, took, now))
  {
    assert forall a :: a in took <==> S.Taken(db, took, a, now);
  }

  lemma ExpireLevels(w: R.World, db: S.Db, took: set<S.AskId>, now: S.Time)
    requires Shows(w, db) && I.Paired(w.tasks, w.asks) && A.OpGuard(w, A.ExpireOp(took)) && AllDue(db, took, now)
    ensures A.OpTasks(w, A.ExpireOp(took)) == TaskStates(S.Step(db, S.ExpireDue(took, now)))
    ensures A.OpAsks(w, A.ExpireOp(took)) == AskRows(S.Step(db, S.ExpireDue(took, now)))
  {
    forall t | t in db.tasks
      ensures A.ExpiresTask(w, took, t) <==> db.tasks[t].state == AwaitingOperator && S.TakenTask(db, took, t, now)
    {
      ExpireTasksLevel(w, db, took, now, t);
    }
    ExpireAsksLevel(w, db, took, now);
    assert A.OpTasks(w, A.ExpireOp(took)) == TaskStates(S.Expiring(db, took, now));
  }

  /** The transaction-level event that a commit stands for: the statements' own guards on the columns that
      only this level has. */
  ghost predicate StandsFor(db: S.Db, x: R.Txn, e: S.Event)
    requires R.Committing(x.pc)
  {
    match A.OpOf(x)
    case RaiseOp(t, a) => e.Raise? && e.t == t && e.a == a && S.CanRaise(db, t, a, e.options, e.nonce, e.deadline, e.now)
    case ResolveOp(a) => e.Resolve? && e.a == a && a in db.asks && S.Live(db.asks[a], e.now) && S.Offers(db.asks[a], e.doc)
    case ExpireOp(took) => e.ExpireDue? && e.took == took && AllDue(db, took, e.now)
    case CancelOp(t) => e == S.Cancel(t)
  }

  /** In every interleaving a commit takes the committed tables where the transaction-level step takes them. */
  lemma CommitIsStep(w: R.World, i: R.TxnId, db: S.Db, e: S.Event)
    requires R.Reachable(R.SHIPPED, w) && i in w.txns && R.CanAct(R.SHIPPED, w, i, R.Commit)
    requires Shows(w, db) && StandsFor(db, w.txns[i], e)
    ensures Shows(R.CommitWrites(w, i), S.Step(db, e))
  {
    var x := w.txns[i];
    A.ReachablePaired(w);
    A.CommitIsAtomic(w, i);
    match A.OpOf(x) {
      case RaiseOp(t, a) => RaiseLevels(w, db, t, a, e.options, e.nonce, e.deadline, e.now);
      case ResolveOp(a) => ResolveLevels(w, db, a, e.who, e.doc, e.now);
      case ExpireOp(took) => ExpireLevels(w, db, took, e.now);
      case CancelOp(t) => CancelLevels(w, db, t);
    }
    InstallShows(w, i, db, e, A.OpOf(x));
  }

  lemma InstallShows(w: R.World, i: R.TxnId, db: S.Db, e: S.Event, op: A.Op)
    requires i in w.txns && R.CanAct(R.SHIPPED, w, i, R.Commit) && A.AtomicIn(w, w.txns[i], op)
    requires A.OpTasks(w, op) == TaskStates(S.Step(db, e)) && A.OpAsks(w, op) == AskRows(S.Step(db, e))
    ensures Shows(R.CommitWrites(w, i), S.Step(db, e))
  {
  }

  // ---- Choosing the columns ------------------------------------------------

  const YES := "yes"

  /** Every ask offers YES, was raised at 0 and is due after 1. */
  ghost predicate Uniform(db: S.Db) {
    forall a :: a in db.asks ==> Some(YES) in db.asks[a].options && db.asks[a].deadline == 1
  }

  lemma {:induction false} UnusedString(used: set<string>) returns (s: string)
    ensures forall x :: x in used ==> |x| < |s|
    decreases |used|
  {
    if used == {} {
      s := "";
    } else {
      var x :| x in used;
      s := UnusedString(used - {x});
      if |s| <= |x| { s := x + "x"; }
    }
  }

  lemma UnusedNonce(db: S.Db) returns (nonce: string)
    ensures forall a :: a in db.asks ==> db.asks[a].nonce != nonce
  {
    var used := set a | a in db.asks :: db.asks[a].nonce;
    nonce := UnusedString(used);
    assert forall a :: a in db.asks ==> db.asks[a].nonce in used;
  }

  /** Only a raise adds an ask, and none changes the options or the deadline of one. */
  lemma UniformKept(db: S.Db, e: S.Event)
    requires Uniform(db) && !e.ResolveNonce? && (e.Raise? ==> Some(YES) in e.options && e.deadline == 1)
    ensures Uniform(S.Step(db, e))
  {
  }

  lemma RaiseEvent(w: R.World, db: S.Db, t: S.TaskId, a: S.AskId) returns (e: S.Event)
    requires Shows(w, db) && I.Paired(w.tasks, w.asks) && A.OpGuard(w, A.RaiseOp(t, a))
    ensures e.Raise? && e.t == t && e.a == a && S.CanRaise(db, t, a, e.options, e.nonce, e.deadline, e.now)
    ensures Some(YES) in e.options && e.deadline == 1
  {
    ShowsRows(w, db);
    assert forall b :: !R.Open(w.asks, b, t);
    var nonce := UnusedNonce(db);
    e := S.Raise(t, a, [Some(YES)], nonce, 1, 0);
  }

  lemma ResolveEvent(w: R.World, db: S.Db, a: S.AskId) returns (e: S.Event)
    requires Shows(w, db) && Uniform(db) && A.OpGuard(w, A.ResolveOp(a))
    ensures e.Resolve? && e.a == a && a in db.asks && S.Live(db.asks[a], e.now) && S.Offers(db.asks[a], e.doc)
  {
    e := S.Resolve(a, "", S.Resolution(Some(YES), None), 0);
  }

  lemma ExpireEvent(w: R.World, db: S.Db, took: set<S.AskId>)
    requires Shows(w, db) && Uniform(db) && A.OpGuard(w, A.ExpireOp(took))
    ensures AllDue(db, took, 2)
  {
    forall a | a in took ensures S.Taken(db, took, a, 2) {
      assert R.Open(w.asks, a, w.asks[a].task);
    }
  }

  /** What a commit does can always be put down to an event of its kind. */
  lemma EventFor(w: R.World, i: R.TxnId, db: S.Db) returns (e: S.Event)
    requires I.Paired(w.tasks, w.asks) && i in w.txns && R.Committing(w.txns[i].pc) && A.OpGuard(w, A.OpOf(w.txns[i]))
    requires Shows(w, db) && Uniform(db)
    ensures StandsFor(db, w.txns[i], e) && AskRuns.Legal(e) && Uniform(S.Step(db, e))
  {
    match A.OpOf(w.txns[i]) {
      case RaiseOp(t, a) => e := RaiseEvent(w, db, t, a);
      case ResolveOp(a) => e := ResolveEvent(w, db, a);
      case ExpireOp(took) => ExpireEvent(w, db, took); e := S.ExpireDue(took, 2);
      case CancelOp(t) => e := S.Cancel(t);
    }
    UniformKept(db, e);
  }

  // ---- Every interleaving is a run -----------------------------------------

  /** How often the interleaving moved task `t` from `pending` to `running`. */
  ghost function RaceClaims(steps: seq<R.Step>, t: R.TaskId): nat {
    if steps == [] then 0
    else RaceClaims(steps[..|steps| - 1], t) + if steps[|steps| - 1] == R.MoveTask(t, Running) then 1 else 0
  }

  /** The run `es` reaches the tables of `w`. */
  ghost predicate Matches(w: R.World, es: seq<S.Event>) {
    AskRuns.LegalRun(es) && Shows(w, AskRuns.Run(es)) && Uniform(AskRuns.Run(es))
  }

  lemma RunSnoc(es: seq<S.Event>, e: S.Event)
    ensures AskRuns.Run(es + [e]) == S.Step(AskRuns.Run(es), e)
    ensures AskRuns.LegalRun(es) && AskRuns.Legal(e) ==> AskRuns.LegalRun(es + [e])
  {
    assert (es + [e])[..|es|] == es;
  }

  lemma ClaimsSnoc(es: seq<S.Event>, e: S.Event, t: S.TaskId)
    ensures AskRuns.Claims(es + [e], t) == AskRuns.Claims(es, t) +
      if S.InState(AskRuns.Run(es), t, Pending) && S.InState(S.Step(AskRuns.Run(es), e), t, Running) then 1 else 0
  {
    assert (es + [e])[..|es|] == es;
    RunSnoc(es, e);
  }

  /** A step claims task `t` exactly when it moves it from `pending` to `running`. */
  ghost predicate ClaimsIn(w: R.World, s: R.Step, w': R.World, t: R.TaskId) {
    s == R.MoveTask(t, Running) <==> R.InState(w, t, Pending) && R.InState(w', t, Running)
  }

  lemma WritesNoClaim(w: R.World, i: R.TxnId, t: R.TaskId)
    requires i in w.txns && I.TxnOk(w, i) && R.Committing(w.txns[i].pc) && t in w.txns[i].tw
    ensures w.txns[i].tw[t] != Running
  {
  }

  lemma CommitClaimsNothing(w: R.World, i: R.TxnId, t: R.TaskId)
    requires i in w.txns && I.TxnOk(w, i) && R.Committing(w.txns[i].pc)
    requires w.txns[i].pc.CancelRows2? ==> w.txns[i].pc.call.task in w.tasks
    ensures R.InState(R.CommitWrites(w, i), t, Running) ==> R.InState(w, t, Running)
  {
    if t in w.txns[i].tw { WritesNoClaim(w, i, t); }
  }

  lemma ActClaimsNothing(w: R.World, i: R.TxnId, act: R.Act, t: R.TaskId)
    requires R.Reachable(R.SHIPPED, w) && i in w.txns && R.CanAct(R.SHIPPED, w, i, act)
    ensures R.InState(R.Perform(R.SHIPPED, w, i, act), t, Running) ==> R.InState(w, t, Running)
  {
    if act == R.Commit {
      A.ReachablePaired(w);
      CommitClaimsNothing(w, i, t);
    } else {
      A.StatementSameTables(R.SHIPPED, w, i, act);
    }
  }

  lemma StepClaims(w: R.World, s: R.Step, t: R.TaskId)
    requires R.Reachable(R.SHIPPED, w) && R.Enabled(R.SHIPPED, w, s)
    ensures ClaimsIn(w, s, R.Apply(R.SHIPPED, w, s), t)
  {
    if s.Do? { ActClaimsNothing(w, s.i, s.act, t); }
  }

  /** The event of a single-statement step on the tasks table. */
  function TaskEvent(w: R.World, s: R.Step): S.Event
    requires R.Enabled(R.SHIPPED, w, s) && (s.InsertTask? || s.MoveTask?)
  {
    if s.InsertTask? then S.Insert(s.t, S.Fast, None, 0)
    else if s.to == Running then S.Claim(s.t, 0)
    else if w.tasks[s.t] == Pending then S.CancelIfPending(s.t)
    else S.Finalize(s.t, s.to)
  }

  /** The step changes the committed tables. */
  predicate ChangesTables(s: R.Step) {
    s.InsertTask? || s.MoveTask? || (s.Do? && s.act == R.Commit)
  }

  /** Event `e`, with its ids, options, deadlines and clock reading, is what step `s` does: the guards on those
      columns are the ones its statements evaluate. */
  ghost predicate Dates(w: R.World, s: R.Step, db: S.Db, e: S.Event)
    requires R.Enabled(R.SHIPPED, w, s) && ChangesTables(s)
  {
    match s
    case InsertTask(t) => e.Insert? && e.t == t
    case MoveTask(t, to) =>
      || (to == Running && e.Claim? && e.t == t)
      || (w.tasks[t] == Pending && to == Cancelled && e == S.CancelIfPending(t))
      || (w.tasks[t] == Running && e == S.Finalize(t, to))
      || (w.tasks[t] == Running && to == Crashed && e.FailRunning? && e.t == t
          && t in db.tasks && db.tasks[t].lease.Some? && db.tasks[t].lease.value > e.now)
    case Do(i, _) => StandsFor(db, w.txns[i], e)
  }

  lemma MoveDates(w: R.World, t: R.TaskId, to: TaskState, db: S.Db, e: S.Event)
    requires R.Enabled(R.SHIPPED, w, R.MoveTask(t, to)) && Shows(w, db) && Dates(w, R.MoveTask(t, to), db, e)
    ensures AskRuns.Legal(e) && Shows(w.(tasks := w.tasks[t := to]), S.Step(db, e))
  {
  }

  lemma InsertDates(w: R.World, t: R.TaskId, db: S.Db, e: S.Event)
    requires t !in w.tasks && Shows(w, db) && e.Insert? && e.t == t
    ensures Shows(w.(tasks := w.tasks[t := Pending]), S.Step(db, e))
  {
  }

  /** Conversely a transaction-level event on one task row that changes it, the row being free, is a step. */
  lemma TaskEventIsStep(w: R.World, db: S.Db, e: S.Event) returns (s: R.Step)
    requires Shows(w, db) && (e.Claim? || e.CancelIfPending? || e.Finalize? || e.FailRunning?) && AskRuns.Legal(e)
    requires e.t !in w.taskLock && S.Step(db, e) != db
    ensures R.Enabled(R.SHIPPED, w, s) && s.MoveTask? && s.t == e.t && Dates(w, s, db, e)
    ensures Shows(R.Apply(R.SHIPPED, w, s), S.Step(db, e))
  {
    var to := if e.Claim? then Running else if e.CancelIfPending? then Cancelled else if e.Finalize? then e.to else Crashed;
    s := R.MoveTask(e.t, to);
    MoveDates(w, e.t, to, db, e);
  }

  /** A dated step takes the tables where its event takes them, with the columns the event carries. */
  lemma DatedStepShows(w: R.World, s: R.Step, db: S.Db, e: S.Event)
    requires R.Reachable(R.SHIPPED, w) && R.Enabled(R.SHIPPED, w, s) && ChangesTables(s) && Shows(w, db) && Dates(w, s, db, e)
    ensures AskRuns.Legal(e) && Shows(R.Apply(R.SHIPPED, w, s), S.Step(db, e))
  {
    match s {
      case InsertTask(t) => InsertDates(w, t, db, e);
      case MoveTask(t, to) => MoveDates(w, t, to, db, e);
      case Do(i, _) => CommitIsStep(w, i, db, e);
    }
  }

  lemma TaskEventShows(w: R.World, s: R.Step, db: S.Db)
    requires R.Enabled(R.SHIPPED, w, s) && (s.InsertTask? || s.MoveTask?) && Shows(w, db) && Uniform(db)
    ensures Dates(w, s, db, TaskEvent(w, s)) && AskRuns.Legal(TaskEvent(w, s)) && Uniform(S.Step(db, TaskEvent(w, s)))
    ensures Shows(R.Apply(R.SHIPPED, w, s), S.Step(db, TaskEvent(w, s)))
  {
    UniformKept(db, TaskEvent(w, s));
    if s.MoveTask? {
      MoveDates(w, s.t, s.to, db, TaskEvent(w, s));
    } else {
      InsertDates(w, s.t, db, TaskEvent(w, s));
    }
  }

  lemma SimulateTaskStep(w: R.World, s: R.Step, es: seq<S.Event>)
    requires R.Enabled(R.SHIPPED, w, s) && (s.InsertTask? || s.MoveTask?) && Matches(w, es)
    ensures Matches(R.Apply(R.SHIPPED, w, s), es + [TaskEvent(w, s)]) && Dates(w, s, AskRuns.Run(es), TaskEvent(w, s))
  {
    TaskEventShows(w, s, AskRuns.Run(es));
    RunSnoc(es, TaskEvent(w, s));
  }

  lemma SimulateCommit(w: R.World, i: R.TxnId, es: seq<S.Event>) returns (e: S.Event)
    requires R.Reachable(R.SHIPPED, w) && i in w.txns && R.CanAct(R.SHIPPED, w, i, R.Commit) && Matches(w, es)
    ensures Matches(R.CommitWrites(w, i), es + [e]) && StandsFor(AskRuns.Run(es), w.txns[i], e)
  {
    A.ReachablePaired(w);
    A.CommitIsAtomic(w, i);
    e := EventFor(w, i, AskRuns.Run(es));
    CommitIsStep(w, i, AskRuns.Run(es), e);
    RunSnoc(es, e);
  }

  lemma MatchesSame(w: R.World, w': R.World, es: seq<S.Event>)
    requires Matches(w, es) && A.SameTables(w, w')
    ensures Matches(w', es)
  {
  }

  lemma SimulateStep(w: R.World, s: R.Step, es: seq<S.Event>) returns (more: seq<S.Event>)
    requires R.Reachable(R.SHIPPED, w) && R.Enabled(R.SHIPPED, w, s) && Matches(w, es)
    ensures Matches(R.Apply(R.SHIPPED, w, s), es + more)
    ensures |more| <= 1 && (more == [] ==> R.Apply(R.SHIPPED, w, s).tasks == w.tasks)
    ensures if ChangesTables(s) then |more| == 1 && Dates(w, s, AskRuns.Run(es), more[0]) else more == []
  {
    if s.InsertTask? || s.MoveTask? {
      SimulateTaskStep(w, s, es);
      more := [TaskEvent(w, s)];
    } else if s.Do? && s.act == R.Commit {
      var e := SimulateCommit(w, s.i, es);
      more := [e];
    } else {
      if s.Do? { A.StatementSameTables(R.SHIPPED, w, s.i, s.act); }
      more := [];
      assert es + more == es;
      MatchesSame(w, R.Apply(R.SHIPPED, w, s), es);
    }
  }

  lemma SimulatedClaims(w: R.World, s: R.Step, es: seq<S.Event>, more: seq<S.Event>, t: R.TaskId)
    requires R.Reachable(R.SHIPPED, w) && R.Enabled(R.SHIPPED, w, s) && Matches(w, es)
    requires Matches(R.Apply(R.SHIPPED, w, s), es + more) && |more| <= 1
    requires more == [] ==> R.Apply(R.SHIPPED, w, s).tasks == w.tasks
    ensures AskRuns.Claims(es + more, t) == AskRuns.Claims(es, t) + if s == R.MoveTask(t, Running) then 1 else 0
  {
    StepClaims(w, s, t);
    ShowsRows(w, AskRuns.Run(es));
    ShowsRows(R.Apply(R.SHIPPED, w, s), AskRuns.Run(es + more));
    if more == [] {
      assert es + more == es;
    } else {
      assert more == [more[0]];
      ClaimsSnoc(es, more[0], t);
      RunSnoc(es, more[0]);
    }
  }

  lemma {:induction false} ExecInit(v: R.Variant, w: R.World, steps: seq<R.Step>)
    requires steps != [] && R.Exec(v, w, steps).Some?
    ensures var init, last := steps[..|steps| - 1], steps[|steps| - 1];
            && R.Exec(v, w, init).Some? && R.Enabled(v, R.Exec(v, w, init).value, last)
            && R.Exec(v, w, steps).value == R.Apply(v, R.Exec(v, w, init).value, last)
    decreases |steps|
  {
    if |steps| > 1 {
      Ends(steps);
      ExecInit(v, R.Apply(v, w, steps[0]), steps[1..]);
      ExecCons(v, w, steps[..|steps| - 1]);
    } else {
      assert steps[1..] == [] && steps[..0] == [];
    }
  }

  lemma Ends<T>(s: seq<T>)
    requires |s| > 1
    ensures s[1..][..|s| - 2] == s[..|s| - 1][1..] && s[1..][|s| - 2] == s[|s| - 1] && s[..|s| - 1][0] == s[0]
  {
  }

  lemma ExecCons(v: R.Variant, w: R.World, steps: seq<R.Step>)
    requires steps != [] && R.Enabled(v, w, steps[0])
    ensures R.Exec(v, w, steps) == R.Exec(v, R.Apply(v, w, steps[0]), steps[1..])
  {
  }

  /** `es` dates the interleaving: one event for each step that changes the tables, in order. */
  ghost predicate Dated(steps: seq<R.Step>, es: seq<S.Event>)
    decreases |steps|
  {
    if steps == [] then es == []
    else
      var init, last := steps[..|steps| - 1], steps[|steps| - 1];
      match R.Exec(R.SHIPPED, R.EMPTY, init)
      case None => false
      case Some(w) =>
        if !ChangesTables(last) then Dated(init, es)
        else
          && es != [] && Dated(init, es[..|es| - 1])
          && R.Enabled(R.SHIPPED, w, last) && Dates(w, last, AskRuns.Run(es[..|es| - 1]), es[|es| - 1])
  }

  lemma DatedSnoc(steps: seq<R.Step>, before: seq<S.Event>, more: seq<S.Event>)
    requires steps != [] && R.Exec(R.SHIPPED, R.EMPTY, steps[..|steps| - 1]).Some? && Dated(steps[..|steps| - 1], before)
    requires var w, last := R.Exec(R.SHIPPED, R.EMPTY, steps[..|steps| - 1]).value, steps[|steps| - 1];
      && R.Enabled(R.SHIPPED, w, last)
      && if ChangesTables(last) then |more| == 1 && Dates(w, last, AskRuns.Run(before), more[0]) else more == []
    ensures Dated(steps, before + more)
  {
    if more == [] {
      assert before + more == before;
    } else {
      assert (before + more)[..|before|] == before && (before + more)[|before|] == more[0];
    }
  }

  /** However an interleaving is dated, it is the run of those events. */
  lemma {:induction false} DatedIsRun(steps: seq<R.Step>, es: seq<S.Event>)
    requires R.Exec(R.SHIPPED, R.EMPTY, steps).Some? && Dated(steps, es)
    ensures AskRuns.LegalRun(es) && Shows(R.Exec(R.SHIPPED, R.EMPTY, steps).value, AskRuns.Run(es))
    decreases |steps|, 1
  {
    if steps != [] {
      var init, last := steps[..|steps| - 1], steps[|steps| - 1];
      ExecInit(R.SHIPPED, R.EMPTY, steps);
      var w := R.Exec(R.SHIPPED, R.EMPTY, init).value;
      assert R.Reachable(R.SHIPPED, w);
      if ChangesTables(last) {
        DatedLast(steps, es, w);
      } else {
        DatedIsRun(init, es);
        if last.Do? { A.StatementSameTables(R.SHIPPED, w, last.i, last.act); }
      }
    }
  }

  lemma DatedLast(steps: seq<R.Step>, es: seq<S.Event>, w: R.World)
    requires steps != [] && R.Exec(R.SHIPPED, R.EMPTY, steps[..|steps| - 1]) == Some(w) && R.Reachable(R.SHIPPED, w)
    requires R.Enabled(R.SHIPPED, w, steps[|steps| - 1]) && ChangesTables(steps[|steps| - 1]) && Dated(steps, es)
    ensures AskRuns.LegalRun(es) && Shows(R.Apply(R.SHIPPED, w, steps[|steps| - 1]), AskRuns.Run(es))
    decreases |steps|, 0
  {
    var before, e := es[..|es| - 1], es[|es| - 1];
    DatedIsRun(steps[..|steps| - 1], before);
    DatedStepShows(w, steps[|steps| - 1], AskRuns.Run(before), e);
    RunSnoc(before, e);
    assert es == before + [e];
  }

  /** Every interleaving is matched, commit by commit, by a transaction-level run with as many claims. */
  lemma {:induction false} Simulated(steps: seq<R.Step>) returns (es: seq<S.Event>)
    requires R.Exec(R.SHIPPED, R.EMPTY, steps).Some?
    ensures Matches(R.Exec(R.SHIPPED, R.EMPTY, steps).value, es)
    ensures Dated(steps, es)
    ensures forall t :: AskRuns.Claims(es, t) == RaceClaims(steps, t)
    decreases |steps|
  {
    if steps == [] {
      es := [];
    } else {
      var init, last := steps[..|steps| - 1], steps[|steps| - 1];
      ExecInit(R.SHIPPED, R.EMPTY, steps);
      var w := R.Exec(R.SHIPPED, R.EMPTY, init).value;
      assert R.Reachable(R.SHIPPED, w);
      var before := Simulated(init);
      var more := SimulateStep(w, last, before);
      es := before + more;
      DatedSnoc(steps, before, more);
      forall t ensures AskRuns.Claims(es, t) == RaceClaims(steps, t) {
        SimulatedClaims(w, last, before, more, t);
      }
    }
  }

  // ---- What holds of runs holds of interleavings ---------------------------

  /** Every reachable world shows the tables of some transaction-level run. */
  lemma ReachableIsRun(w: R.World)
    requires R.Reachable(R.SHIPPED, w)
    ensures exists es :: AskRuns.LegalRun(es) && Shows(w, AskRuns.Run(es))
  {
    var steps: seq<R.Step> :| R.Exec(R.SHIPPED, R.EMPTY, steps) == Some(w);
    var es := Simulated(steps);
    assert Shows(w, AskRuns.Run(es));
  }

  predicate RaceWithdrawn(w: R.World, a: R.AskId) {
    a in w.asks && AskRuns.Withdrawn(w.asks[a].state)
  }

  /** In every interleaving, with the deadlines, options and clock readings it ran with, a resolved ask was answered
      strictly before its deadline with a choice it offered. */
  lemma RaceAnsweredInTime(steps: seq<R.Step>, es: seq<S.Event>, a: R.AskId)
    requires R.Exec(R.SHIPPED, R.EMPTY, steps).Some? && Dated(steps, es)
    requires a in R.Exec(R.SHIPPED, R.EMPTY, steps).value.asks
    ensures a in AskRuns.Run(es).asks
    ensures var ask := AskRuns.Run(es).asks[a];
      && (R.Exec(R.SHIPPED, R.EMPTY, steps).value.asks[a].state == AskResolved <==> ask.answer.Some?)
      && (ask.answer.Some? ==> ask.answer.value.at < ask.deadline && AskRuns.ChoseOption(ask, ask.answer.value.resolution))
  {
    DatedIsRun(steps, es);
    AskRuns.RunInv(es);
  }

  /** In every reachable world a task has at most one expired or cancelled ask, and is then terminal. */
  lemma RaceOneWithdrawal(w: R.World)
    requires R.Reachable(R.SHIPPED, w)
    ensures forall a :: RaceWithdrawn(w, a) ==> w.asks[a].task in w.tasks && Terminal(w.tasks[w.asks[a].task])
    ensures forall a, b :: RaceWithdrawn(w, a) && RaceWithdrawn(w, b) && w.asks[a].task == w.asks[b].task ==> a == b
  {
    ReachableIsRun(w);
    var es :| AskRuns.LegalRun(es) && Shows(w, AskRuns.Run(es));
    AskRuns.RunInv(es);
    var db := AskRuns.Run(es);
    assert forall a :: RaceWithdrawn(w, a) ==> a in AskRuns.WithdrawnAsks(db);
  }

  ghost function RaceResolved(w: R.World, t: R.TaskId): set<R.AskId> {
    set a | a in w.asks && w.asks[a].task == t && w.asks[a].state == AskResolved
  }

  /** In every interleaving a task is claimed at most once more than it has resolved asks. */
  lemma RaceClaimsBounded(steps: seq<R.Step>, t: R.TaskId)
    requires R.Exec(R.SHIPPED, R.EMPTY, steps).Some?
    ensures RaceClaims(steps, t) <= 1 + |RaceResolved(R.Exec(R.SHIPPED, R.EMPTY, steps).value, t)|
  {
    var w := R.Exec(R.SHIPPED, R.EMPTY, steps).value;
    var es := Simulated(steps);
    AskRuns.ClaimsBounded(es, t);
    assert AskRuns.ResolvedAsks(AskRuns.Run(es), t) == RaceResolved(w, t);
  }
}
