/**
 What the statement-level model guarantees in every reachable world, and what it
 would lose without the choices that `mark_cancelled` makes.
 */
module AskRaceResults {
  import opened Lifecycle
  import opened AskRace
  import opened AskRaceInvariant

  // ---- Main results --------------------------------------------------------

  /** In every reachable world a committed task awaits the operator exactly when it has one
      committed pending ask, and every other task has none. */
  lemma ReachablePaired(w: World)
    requires Reachable(SHIPPED, w)
    ensures Inv(w) && Paired(w.tasks, w.asks)
  {
    var steps: seq<Step> :| Exec(SHIPPED, EMPTY, steps) == Some(w);
    RunKeeps(EMPTY, steps);
  }

  /** A committed cancel leaves its task cancelled with no committed pending ask, for good. It reports the
      state it overwrote if the row was there when it was read, as it was if it existed at the call, and
      nothing otherwise. */
  lemma CancelLeavesNothingPending(w: World, k: nat)
    requires Reachable(SHIPPED, w) && k < |w.log|
    ensures InState(w, w.log[k].call.task, Cancelled)
    ensures forall a :: !Open(w.asks, a, w.log[k].call.task)
    ensures w.log[k].call.known ==> w.log[k].call.present
    ensures w.log[k].call.prev == if w.log[k].call.present then Some(w.log[k].overwritten) else None
  {
    ReachablePaired(w);
  }

  /** A resolver that holds its ask always finds the task resumable: the
      "task cannot resume" error is unreachable. */
  lemma ResolverNeverStranded(w: World, i: TxnId)
    requires Reachable(SHIPPED, w) && i in w.txns && w.txns[i].pc.ResolveTask?
    ensures InState(w, w.txns[i].pc.task, AwaitingOperator)
  {
    ReachablePaired(w);
  }

  /** An expiry that holds its ask always fails the task: the warning branch is unreachable. */
  lemma ExpiryNeverWarns(w: World, i: TxnId, a: AskId)
    requires Reachable(SHIPPED, w) && i in w.txns && w.txns[i].pc.ExpireTasks? && a in w.txns[i].pc.todo
    ensures a in w.asks && CanFail(w, i, a)
  {
    ReachablePaired(w);
    ExpiredTaskAwaits(w, i, a);
  }

  // ---- Commits are atomic --------------------------------------------------

  /** A whole transaction as one step on the committed tables. */
  datatype Op = RaiseOp(t: TaskId, a: AskId) | ResolveOp(a: AskId) | ExpireOp(due: set<AskId>) | CancelOp(t: TaskId)

  /** The transaction that transaction record `x` is about to commit. */
  function OpOf(x: Txn): Op
    requires Committing(x.pc)
  {
    match x.pc
    case RaiseCommit(t, a) => RaiseOp(t, a)
    case ResolveCommit(a, _) => ResolveOp(a)
    case ExpireTasks(_) => ExpireOp(x.aw.Keys)
    case CancelRows2(call, _) => CancelOp(call.task)
  }

  predicate OpGuard(w: World, op: Op) {
    match op
    case RaiseOp(t, a) => InState(w, t, Running) && a !in w.asks
    case ResolveOp(a) => a in w.asks && Open(w.asks, a, w.asks[a].task) && InState(w, w.asks[a].task, AwaitingOperator)
    case ExpireOp(due) => forall a :: a in due ==> a in w.asks && Open(w.asks, a, w.asks[a].task)
    case CancelOp(t) => t in w.tasks && Cancellable(w.tasks[t])
  }

  /** Task `t` has an open ask among `due`. */
  ghost predicate ExpiresTask(w: World, due: set<AskId>, t: TaskId) {
    exists a :: a in due && Open(w.asks, a, t)
  }

  ghost function OpTasks(w: World, op: Op): map<TaskId, TaskState>
    requires OpGuard(w, op)
  {
    match op
    case RaiseOp(t, _) => w.tasks[t := AwaitingOperator]
    case ResolveOp(a) => w.tasks[w.asks[a].task := Pending]
    case ExpireOp(due) => map t | t in w.tasks :: if ExpiresTask(w, due, t) then Failed else w.tasks[t]
    case CancelOp(t) => w.tasks[t := Cancelled]
  }

  function OpAsks(w: World, op: Op): map<AskId, AskRow>
    requires OpGuard(w, op)
  {
    match op
    case RaiseOp(t, a) => w.asks[a := AskRow(t, AskPending)]
    case ResolveOp(a) => w.asks[a := w.asks[a].(state := AskResolved)]
    case ExpireOp(due) => map a | a in w.asks :: if a in due then w.asks[a].(state := AskExpired) else w.asks[a]
    case CancelOp(t) => map a | a in w.asks :: if Open(w.asks, a, t) then AskRow(t, AskCancelled) else w.asks[a]
  }

  /** What transaction record `x` installs is what its whole transaction does in one step. */
  ghost predicate AtomicIn(w: World, x: Txn, op: Op) {
    OpGuard(w, op) && w.tasks + x.tw == OpTasks(w, op) && w.asks + x.aw == OpAsks(w, op)
  }

  lemma RaiseCommitIsAtomic(w: World, i: TxnId)
    requires i in w.txns && TxnOk(w, i) && w.txns[i].pc.RaiseCommit?
    ensures AtomicIn(w, w.txns[i], RaiseOp(w.txns[i].pc.task, w.txns[i].pc.ask))
  {
  }

  lemma ResolveCommitIsAtomic(w: World, i: TxnId)
    requires Paired(w.tasks, w.asks) && i in w.txns && TxnOk(w, i) && w.txns[i].pc.ResolveCommit?
    ensures AtomicIn(w, w.txns[i], ResolveOp(w.txns[i].pc.ask))
  {
  }

  /** The tasks an expiry failed are exactly those with an open ask among the ones it took. */
  lemma ExpireFails(w: World, x: Txn, t: TaskId)
    requires x.pc == ExpireTasks({}) && Retires(w, x, AskExpired) && FailsBacked(x) && forall a :: a in x.aw ==> x.aw[a].task in x.tw
    ensures t in x.tw <==> ExpiresTask(w, x.aw.Keys, t)
  {
    if t in x.tw {
      var a :| Backs(x, a, t);
      assert a in x.aw.Keys && Open(w.asks, a, t);
    }
  }

  lemma ExpireInstalls(w: World, x: Txn)
    requires x.pc == ExpireTasks({}) && Retires(w, x, AskExpired) && FailsBacked(x)
    requires (forall a :: a in x.aw ==> x.aw[a].task in x.tw) && forall t :: t in x.tw ==> t in w.tasks
    ensures AtomicIn(w, x, ExpireOp(x.aw.Keys))
  {
    var op := ExpireOp(x.aw.Keys);
    ExpireInstallsAsks(w, x);
    forall t | t in w.tasks ensures (w.tasks + x.tw)[t] == OpTasks(w, op)[t] {
      ExpireFails(w, x, t);
    }
  }

  lemma ExpireInstallsAsks(w: World, x: Txn)
    requires Retires(w, x, AskExpired)
    ensures OpGuard(w, ExpireOp(x.aw.Keys)) && w.asks + x.aw == OpAsks(w, ExpireOp(x.aw.Keys))
  {
  }

  lemma ExpireCommitIsAtomic(w: World, i: TxnId)
    requires i in w.txns && TxnOk(w, i) && w.txns[i].pc == ExpireTasks({})
    ensures AtomicIn(w, w.txns[i], ExpireOp(w.txns[i].aw.Keys))
  {
    ExpireInstalls(w, w.txns[i]);
  }

  lemma CancelCommitIsAtomic(w: World, i: TxnId)
    requires i in w.txns && TxnOk(w, i) && w.txns[i].pc.CancelRows2? && w.txns[i].pc.todo == {}
    ensures AtomicIn(w, w.txns[i], CancelOp(w.txns[i].pc.call.task))
  {
    var x := w.txns[i];
    assert forall a :: a in x.aw <==> Open(w.asks, a, x.pc.call.task);
  }

  /** Every commit of every interleaving does to the committed tables exactly what its whole
      transaction would do run alone at that instant. */
  lemma CommitIsAtomic(w: World, i: TxnId)
    requires Reachable(SHIPPED, w) && i in w.txns && Committing(w.txns[i].pc)
    ensures AtomicIn(w, w.txns[i], OpOf(w.txns[i]))
  {
    ReachablePaired(w);
    match w.txns[i].pc {
      case RaiseCommit(_, _) => RaiseCommitIsAtomic(w, i);
      case ResolveCommit(_, _) => ResolveCommitIsAtomic(w, i);
      case ExpireTasks(_) => ExpireCommitIsAtomic(w, i);
      case CancelRows2(_, _) => CancelCommitIsAtomic(w, i);
    }
  }

  // ---- History -------------------------------------------------------------

  /** Terminal tasks and retired asks of `w` are unchanged in `w'`. */
  ghost predicate Settled(w: World, w': World) {
    && (forall t :: t in w.tasks && Terminal(w.tasks[t]) ==> t in w'.tasks && w'.tasks[t] == w.tasks[t])
    && (forall a :: a in w.asks && w.asks[a].state != AskPending ==> a in w'.asks && w'.asks[a] == w.asks[a])
  }

  lemma CommitSettles(w: World, i: TxnId)
    requires Inv(w) && i in w.txns && CanAct(SHIPPED, w, i, Commit)
    ensures Settled(w, CommitWrites(w, i))
  {
    CommitHasShape(w, i);
  }

  predicate WritesAsk(act: Act) {
    act.InsertAsk? || act.TakeAsk? || act.ExpireRow? || act.SweepRow?
  }

  predicate WritesTask(act: Act) {
    act.Suspend? || act.ResumeTask? || act.CancelTask? || act.FailTask?
  }

  ghost predicate SameTables(w: World, w': World) {
    w'.tasks == w.tasks && w'.asks == w.asks
  }

  lemma TaskWriteSameTables(v: Variant, w: World, i: TxnId, act: Act)
    requires i in w.txns && CanAct(v, w, i, act) && WritesTask(act)
    ensures SameTables(w, Perform(v, w, i, act))
  {
  }

  lemma AskWriteSameTables(v: Variant, w: World, i: TxnId, act: Act)
    requires i in w.txns && CanAct(v, w, i, act) && WritesAsk(act)
    ensures SameTables(w, Perform(v, w, i, act))
  {
  }

  /** No statement but a commit changes the committed tables. */
  lemma StatementSameTables(v: Variant, w: World, i: TxnId, act: Act)
    requires i in w.txns && CanAct(v, w, i, act) && act != Commit
    ensures SameTables(w, Perform(v, w, i, act))
  {
    if WritesTask(act) {
      TaskWriteSameTables(v, w, i, act);
    } else if WritesAsk(act) {
      AskWriteSameTables(v, w, i, act);
    }
  }

  lemma MoveSettles(w: World, t: TaskId, to: TaskState)
    requires t in w.tasks ==> !Terminal(w.tasks[t])
    ensures Settled(w, w.(tasks := w.tasks[t := to]))
  {
  }

  lemma ActSettles(w: World, i: TxnId, act: Act)
    requires Inv(w) && i in w.txns && CanAct(SHIPPED, w, i, act)
    ensures Settled(w, Perform(SHIPPED, w, i, act))
  {
    if act == Commit { CommitSettles(w, i); } else { StatementSameTables(SHIPPED, w, i, act); }
  }

  lemma StepSettles(w: World, s: Step)
    requires Inv(w) && Enabled(SHIPPED, w, s)
    ensures Settled(w, Apply(SHIPPED, w, s))
  {
    match s {
      case InsertTask(t) => MoveSettles(w, t, Pending);
      case MoveTask(t, to) => MoveSettles(w, t, to);
      case Begin(_, _) =>
      case Do(i, act) => ActSettles(w, i, act);
    }
  }

  /** Over every interleaving an ask leaves `pending` at most once and a terminal state is never left. */
  lemma {:induction false} RunSettles(w: World, steps: seq<Step>)
    requires Inv(w) && Exec(SHIPPED, w, steps).Some?
    ensures Settled(w, Exec(SHIPPED, w, steps).value)
    decreases |steps|
  {
    if steps != [] {
      StepKeeps(w, steps[0]);
      StepSettles(w, steps[0]);
      RunSettles(Apply(SHIPPED, w, steps[0]), steps[1..]);
    }
  }

  // ---- The two load-bearing choices ----------------------------------------

  lemma ExecSnoc(v: Variant, w: World, steps: seq<Step>, s: Step)
    requires Exec(v, w, steps).Some? && Enabled(v, Exec(v, w, steps).value, s)
    ensures Exec(v, w, steps + [s]) == Some(Apply(v, Exec(v, w, steps).value, s))
    decreases |steps|
  {
    if steps == [] {
      assert steps + [s] == [s];
    } else {
      assert (steps + [s])[1..] == steps[1..] + [s];
      ExecSnoc(v, Apply(v, w, steps[0]), steps[1..], s);
    }
  }

  lemma Extend(v: Variant, w: World, s: Step, w': World)
    requires Reachable(v, w) && Enabled(v, w, s) && w' == Apply(v, w, s)
    ensures Reachable(v, w')
  {
    var steps: seq<Step> :| Exec(v, EMPTY, steps) == Some(w);
    ExecSnoc(v, EMPTY, steps, s);
    assert Exec(v, EMPTY, steps + [s]) == Some(w');
  }

  const CALL := CancelCall(0, true, {}, None, false)
  const RAISING := Txn(RaiseInsert(0), map[0 := AwaitingOperator], map[])
  const RAISED := Txn(RaiseCommit(0, 0), map[0 := AwaitingOperator], map[0 := AskRow(0, AskPending)])
  const SWEPT := Txn(CancelRead(CALL), map[], map[])

  const SUSPENDED := World(map[0 := Running], map[], map[0 := 1], map[], 0, map[1 := RAISING], [])
  const CROSSED := SUSPENDED.(txns := map[1 := RAISING, 2 := SWEPT])
  const ASKED := World(map[0 := AwaitingOperator], map[0 := AskRow(0, AskPending)], map[], map[], 1, map[2 := SWEPT], [])

  lemma RaiseSuspends(v: Variant)
    ensures Reachable(v, SUSPENDED)
  {
    assert Exec(v, EMPTY, []) == Some(EMPTY);
    var w1 := EMPTY.(tasks := map[0 := Pending]);
    Extend(v, EMPTY, InsertTask(0), w1);
    var w2 := EMPTY.(tasks := map[0 := Running]);
    Extend(v, w1, MoveTask(0, Running), w2);
    var w3 := w2.(txns := map[1 := Txn(RaiseSuspend(0), map[], map[])]);
    Extend(v, w2, Begin(1, RaiseSuspend(0)), w3);
    Extend(v, w3, Do(1, Suspend), SUSPENDED);
  }

  function WithCancel(w: World, pc: Pc): World {
    w.(txns := w.txns[2 := Txn(pc, map[], map[])])
  }

  /** A cancel (transaction 2) whose first sweep finds no ask at all. */
  lemma EmptySweep(v: Variant, w: World, call: CancelCall)
    requires Reachable(v, w) && 2 !in w.txns && w.asks == map[] && call == CancelCall(0, 0 in w.tasks, {}, None, false)
    ensures Reachable(v, WithCancel(w, CancelRead(call)))
  {
    var w1, w2 := WithCancel(w, CancelScan1(call)), WithCancel(w, CancelRows1(call, {}));
    Extend(v, w, Begin(2, CancelScan1(call)), w1);
    EmptyScan(v, w, call);
    Extend(v, w1, Do(2, Scan1), w2);
    EmptySweepDone(v, w, call);
  }

  lemma EmptySweepDone(v: Variant, w: World, call: CancelCall)
    requires Reachable(v, WithCancel(w, CancelRows1(call, {})))
    ensures Reachable(v, WithCancel(w, CancelRead(call)))
  {
    Extend(v, WithCancel(w, CancelRows1(call, {})), Do(2, Sweep1Done), WithCancel(w, CancelRead(call)));
  }

  lemma EmptyScan(v: Variant, w: World, call: CancelCall)
    requires w.asks == map[] && call == CancelCall(0, 0 in w.tasks, {}, None, false)
    ensures Apply(v, WithCancel(w, CancelScan1(call)), Do(2, Scan1)) == WithCancel(w, CancelRows1(call, {}))
  {
    var w1 := WithCancel(w, CancelScan1(call));
    assert PendingOf(w1, w1.txns[2], 0) == {};
  }

  /** The interleaving of the "why the ask cancel runs twice" note, in any variant: the first
      sweep of a cancel (transaction 2) runs between the two statements of a raise (transaction 1). */
  lemma SweepBeforeInsert(v: Variant)
    ensures Reachable(v, CROSSED)
  {
    RaiseSuspends(v);
    EmptySweep(v, SUSPENDED, CALL);
    assert SUSPENDED.txns[2 := SWEPT] == map[1 := RAISING, 2 := SWEPT];
  }

  /** What the raise commits, whatever the cancel's transaction `x` has done so far. */
  lemma RaiseCommitWrites(x: Txn)
    ensures CommitWrites(World(map[0 := Running], map[], map[0 := 1], map[0 := 1], 1, map[1 := RAISED, 2 := x], []), 1)
         == ASKED.(txns := map[2 := x])
  {
  }

  /** The raise then inserts its ask and commits. */
  lemma RaiseCommits(v: Variant)
    ensures Reachable(v, ASKED)
  {
    SweepBeforeInsert(v);
    var w := CROSSED.(txns := map[1 := RAISED, 2 := SWEPT], askLock := map[0 := 1], nextAsk := 1);
    Extend(v, CROSSED, Do(1, InsertAsk), w);
    RaiseCommitWrites(SWEPT);
    Extend(v, w, Do(1, Commit), ASKED);
  }

  const READ := CALL.(prev := Some(AwaitingOperator), present := true)

  /** The world in which cancel 2 has its task row and has overwritten it. */
  function Overwritten(w: World): World {
    w.(taskLock := map[0 := 2], txns := w.txns[2 := Txn(CancelScan2(READ), map[0 := Cancelled], map[])])
  }

  /** A cancel past its first sweep reads the awaiting task under its lock and overwrites it. */
  lemma CancelLocksTask(v: Variant, w: World)
    requires Reachable(v, w) && v.lockedRead && w.tasks == map[0 := AwaitingOperator] && w.taskLock == map[]
    requires 2 in w.txns && w.txns[2] == SWEPT
    ensures Reachable(v, Overwritten(w))
  {
    var w1 := w.(taskLock := map[0 := 2], txns := w.txns[2 := Txn(CancelUpdate(READ), map[], map[])]);
    Extend(v, w, Do(2, ReadState), w1);
    CancelOverwrites(v, w, w1);
  }

  lemma CancelOverwrites(v: Variant, w: World, w1: World)
    requires Reachable(v, w1) && w.tasks == map[0 := AwaitingOperator]
    requires w1 == w.(taskLock := map[0 := 2], txns := w.txns[2 := Txn(CancelUpdate(READ), map[], map[])])
    ensures Reachable(v, Overwritten(w))
  {
    assert w1.txns[2 := Txn(CancelScan2(READ), map[0 := Cancelled], map[])] == Overwritten(w).txns;
    Extend(v, w1, Do(2, CancelTask), Overwritten(w));
  }

  /** Without the second sweep that interleaving strands a live ask on a cancelled task. */
  lemma SingleSweepStrandsAsk() returns (w: World)
    ensures Reachable(Variant(false, true), w)
    ensures |w.log| == 1 && InState(w, w.log[0].call.task, Cancelled) && Open(w.asks, 0, w.log[0].call.task)
  {
    var v := Variant(false, true);
    RaiseCommits(v);
    CancelLocksTask(v, ASKED);
    var w2 := Overwritten(ASKED);
    var w3 := w2.(txns := map[2 := Txn(CancelRows2(READ, {}), map[0 := Cancelled], map[])]);
    assert w2.txns == map[2 := Txn(CancelScan2(READ), map[0 := Cancelled], map[])];
    Extend(v, w2, Do(2, Scan2), w3);
    w := CommitWrites(w3, 2);
    Extend(v, w3, Do(2, Commit), w);
  }

  const UNLOCKED := Variant(true, false)
  const STALE := CALL.(prev := Some(Running), present := true)

  const STALE_READER := Txn(CancelUpdate(STALE), map[], map[])

  /** Without FOR UPDATE the cancel reads `running` while the raise is in flight. */
  lemma StaleRead()
    ensures Reachable(UNLOCKED, ASKED.(txns := map[2 := STALE_READER]))
  {
    SweepBeforeInsert(UNLOCKED);
    Extend(UNLOCKED, CROSSED, Do(2, ReadState), CROSSED.(txns := map[1 := RAISING, 2 := STALE_READER]));
    RaiseCommitsBehind();
  }

  /** The raise inserts and commits behind the reader's back. */
  lemma RaiseCommitsBehind()
    requires Reachable(UNLOCKED, CROSSED.(txns := map[1 := RAISING, 2 := STALE_READER]))
    ensures Reachable(UNLOCKED, ASKED.(txns := map[2 := STALE_READER]))
  {
    var w1 := CROSSED.(txns := map[1 := RAISING, 2 := STALE_READER]);
    var w2 := CROSSED.(txns := map[1 := RAISED, 2 := STALE_READER], askLock := map[0 := 1], nextAsk := 1);
    Extend(UNLOCKED, w1, Do(1, InsertAsk), w2);
    RaiseCommitWrites(STALE_READER);
    Extend(UNLOCKED, w2, Do(1, Commit), ASKED.(txns := map[2 := STALE_READER]));
  }

  lemma StaleSecondSweep() returns (w: World)
    ensures w == ASKED.(taskLock := map[0 := 2], txns := map[2 := Txn(CancelRows2(STALE, {0}), map[0 := Cancelled], map[])])
    ensures Reachable(UNLOCKED, w)
  {
    StaleRead();
    var w1 := ASKED.(txns := map[2 := Txn(CancelUpdate(STALE), map[], map[])]);
    var w2 := ASKED.(taskLock := map[0 := 2], txns := map[2 := Txn(CancelScan2(STALE), map[0 := Cancelled], map[])]);
    Extend(UNLOCKED, w1, Do(2, CancelTask), w2);
    assert PendingOf(w2, w2.txns[2], 0) == {0};
    w := w2.(txns := map[2 := Txn(CancelRows2(STALE, {0}), map[0 := Cancelled], map[])]);
    Extend(UNLOCKED, w2, Do(2, Scan2), w);
  }

  /** Without FOR UPDATE a cancel can report `running` for a task it cancelled out of `awaiting_operator`. */
  lemma UnlockedReadMisreports() returns (w: World)
    ensures Reachable(UNLOCKED, w)
    ensures |w.log| == 1 && w.log[0].call.known
    ensures w.log[0].call.prev == Some(Running) && w.log[0].overwritten == AwaitingOperator
  {
    var w1 := StaleSecondSweep();
    var done := Txn(CancelRows2(STALE, {}), map[0 := Cancelled], map[0 := AskRow(0, AskCancelled)]);
    var w2 := w1.(askLock := map[0 := 2], txns := map[2 := done]);
    assert {0} - {0} == {};
    Extend(UNLOCKED, w1, Do(2, SweepRow(0)), w2);
    w := CommitWrites(w2, 2);
    Extend(UNLOCKED, w2, Do(2, Commit), w);
  }

  // ---- The report that misses ----------------------------------------------

  /** The read records whether the row is there. */
  lemma ReadRecordsPresence(v: Variant, w: World, i: TxnId, act: Act)
    requires Inv(w) && i in w.txns && CanAct(v, w, i, act) && w.txns[i].pc.CancelRead? && act != Abort
    ensures act == ReadState && i in Perform(v, w, i, act).txns
    ensures var pc := Perform(v, w, i, act).txns[i].pc; pc.CancelUpdate? && (pc.call.present <==> w.txns[i].pc.call.task in w.tasks)
  {
  }

  /** Past the read, the call's record goes unchanged into the log. */
  lemma RecordReachesLog(v: Variant, w: World, i: TxnId, act: Act)
    requires i in w.txns && CanAct(v, w, i, act) && act != Abort
    requires w.txns[i].pc.CancelUpdate? || w.txns[i].pc.CancelScan2? || w.txns[i].pc.CancelRows2?
    ensures var w' := Perform(v, w, i, act);
            if act == Commit then |w'.log| == |w.log| + 1 && w'.log[|w.log|].call == w.txns[i].pc.call
            else i in w'.txns && IsCancel(w'.txns[i].pc) && w'.txns[i].pc.call == w.txns[i].pc.call
  {
  }

  /** A call on an id whose row does not exist yet. */
  const UNKNOWN := CancelCall(0, false, {}, None, false)

  lemma AbsentAtRead()
    ensures Reachable(SHIPPED, WithCancel(EMPTY, CancelUpdate(UNKNOWN)))
  {
    assert Exec(SHIPPED, EMPTY, []) == Some(EMPTY);
    EmptySweep(SHIPPED, EMPTY, UNKNOWN);
    Extend(SHIPPED, WithCancel(EMPTY, CancelRead(UNKNOWN)), Do(2, ReadState), WithCancel(EMPTY, CancelUpdate(UNKNOWN)));
  }

  /** A row inserted between the read and the update is cancelled out of `pending` while the report is empty. */
  lemma InsertAfterReadMisreports() returns (w: World)
    ensures Reachable(SHIPPED, w)
    ensures |w.log| == 1 && w.log[0].call.prev == None && w.log[0].overwritten == Pending
  {
    AbsentAtRead();
    var w0 := WithCancel(EMPTY, CancelUpdate(UNKNOWN));
    var w1 := w0.(tasks := map[0 := Pending]);
    Extend(SHIPPED, w0, InsertTask(0), w1);
    var w2 := w1.(taskLock := map[0 := 2], txns := map[2 := Txn(CancelScan2(UNKNOWN), map[0 := Cancelled], map[])]);
    Extend(SHIPPED, w1, Do(2, CancelTask), w2);
    assert PendingOf(w2, w2.txns[2], 0) == {};
    var w3 := w2.(txns := map[2 := Txn(CancelRows2(UNKNOWN, {}), map[0 := Cancelled], map[])]);
    Extend(SHIPPED, w2, Do(2, Scan2), w3);
    w := CommitWrites(w3, 2);
    Extend(SHIPPED, w3, Do(2, Commit), w);
  }

  // ---- Lock waits ----------------------------------------------------------

  /** The next statement of transaction `i` needs a row lock that transaction `j` holds. */
  ghost predicate WaitsFor(w: World, i: TxnId, j: TxnId) {
    && i in w.txns && j in w.txns && i != j
    && match w.txns[i].pc
       case RaiseSuspend(t) => TaskHeld(w, t, j)
       case ResolveAsk(a) => AskHeld(w, a, j)
       case ResolveTask(_, t) => TaskHeld(w, t, j)
       case ExpireRows(todo) => exists a :: a in todo && AskHeld(w, a, j)
       case ExpireTasks(todo) => exists a :: a in todo && a in w.asks && TaskHeld(w, w.asks[a].task, j)
       case CancelRows1(_, todo) => exists a :: a in todo && AskHeld(w, a, j)
       case CancelRead(call) => TaskHeld(w, call.task, j)
       case CancelUpdate(call) => TaskHeld(w, call.task, j)
       case CancelRows2(_, todo) => exists a :: a in todo && AskHeld(w, a, j)
       case _ => false
  }

  predicate TaskHeld(w: World, t: TaskId, j: TxnId) {
    t in w.taskLock && w.taskLock[t] == j
  }

  predicate AskHeld(w: World, a: AskId, j: TxnId) {
    a in w.askLock && w.askLock[a] == j
  }

  /** Row locks are held only by transactions that wrote the row, or by a cancel that read it FOR UPDATE. */
  ghost predicate LocksBacked(w: World) {
    && (forall a :: a in w.askLock ==> w.askLock[a] in w.txns && a in w.txns[w.askLock[a]].aw)
    && (forall t :: t in w.taskLock ==>
          && w.taskLock[t] in w.txns
          && var x := w.txns[w.taskLock[t]]; t in x.tw || (x.pc.CancelUpdate? && t == x.pc.call.task))
  }

  lemma StepKeepsLocksBacked(v: Variant, w: World, s: Step)
    requires LocksBacked(w) && Enabled(v, w, s)
    ensures LocksBacked(Apply(v, w, s))
  {
    match s {
      case Do(i, act) => ActKeepsLocksBacked(v, w, i, act);
      case _ =>
    }
  }

  lemma WriteTaskBacked(w: World, i: TxnId, t: TaskId, s: TaskState, pc: Pc)
    requires LocksBacked(w) && i in w.txns && (w.txns[i].pc.CancelUpdate? ==> t == w.txns[i].pc.call.task)
    ensures LocksBacked(WriteTask(w, i, t, s, pc))
  {
  }

  lemma WriteAskBacked(w: World, i: TxnId, a: AskId, row: AskRow, pc: Pc)
    requires LocksBacked(w) && i in w.txns && !w.txns[i].pc.CancelUpdate?
    ensures LocksBacked(WriteAsk(w, i, a, row, pc))
  {
  }

  lemma MoveBacked(w: World, i: TxnId, pc: Pc)
    requires LocksBacked(w) && i in w.txns && !w.txns[i].pc.CancelUpdate?
    ensures LocksBacked(Move(w, i, pc))
  {
  }

  lemma TaskWriteBacked(v: Variant, w: World, i: TxnId, act: Act)
    requires LocksBacked(w) && i in w.txns && CanAct(v, w, i, act)
    requires WritesTask(act)
    ensures LocksBacked(Perform(v, w, i, act))
  {
    var x := w.txns[i];
    var pc := Perform(v, w, i, act).txns[i].pc;
    match act {
      case Suspend => WriteTaskBacked(w, i, x.pc.task, AwaitingOperator, pc);
      case ResumeTask => WriteTaskBacked(w, i, x.pc.task, Pending, pc);
      case CancelTask => WriteTaskBacked(w, i, x.pc.call.task, Cancelled, pc);
      case FailTask(a) =>
        WriteTaskBacked(w, i, w.asks[a].task, Failed, pc);
        MoveBacked(w, i, pc);
    }
  }

  lemma InsertAskBacked(v: Variant, w: World, i: TxnId)
    requires LocksBacked(w) && i in w.txns && CanAct(v, w, i, InsertAsk)
    ensures LocksBacked(Perform(v, w, i, InsertAsk))
  {
    var t := w.txns[i].pc.task;
    WriteAskBacked(w, i, w.nextAsk, AskRow(t, AskPending), RaiseCommit(t, w.nextAsk));
  }

  lemma TakeAskBacked(v: Variant, w: World, i: TxnId)
    requires LocksBacked(w) && i in w.txns && CanAct(v, w, i, TakeAsk)
    ensures LocksBacked(Perform(v, w, i, TakeAsk))
  {
    var a := w.txns[i].pc.ask;
    RetireBacked(w, i, a, AskResolved, ResolveTask(a, w.asks[a].task));
  }

  lemma ExpireRowBacked(v: Variant, w: World, i: TxnId, a: AskId)
    requires LocksBacked(w) && i in w.txns && CanAct(v, w, i, ExpireRow(a))
    ensures LocksBacked(Perform(v, w, i, ExpireRow(a)))
  {
    RetireBacked(w, i, a, AskExpired, ExpireRows(w.txns[i].pc.todo - {a}));
  }

  lemma SweepRowBacked(v: Variant, w: World, i: TxnId, a: AskId)
    requires LocksBacked(w) && i in w.txns && CanAct(v, w, i, SweepRow(a))
    ensures LocksBacked(Perform(v, w, i, SweepRow(a)))
  {
    var pc := w.txns[i].pc;
    var left := pc.todo - {a};
    RetireBacked(w, i, a, AskCancelled, if pc.CancelRows1? then CancelRows1(pc.call, left) else CancelRows2(pc.call, left));
  }

  lemma AskWriteBacked(v: Variant, w: World, i: TxnId, act: Act)
    requires LocksBacked(w) && i in w.txns && CanAct(v, w, i, act) && WritesAsk(act)
    ensures LocksBacked(Perform(v, w, i, act))
  {
    match act {
      case InsertAsk => InsertAskBacked(v, w, i);
      case TakeAsk => TakeAskBacked(v, w, i);
      case ExpireRow(a) => ExpireRowBacked(v, w, i, a);
      case SweepRow(a) => SweepRowBacked(v, w, i, a);
    }
  }

  lemma ReadBacked(v: Variant, w: World, i: TxnId, call: CancelCall)
    requires LocksBacked(w) && i in w.txns && w.txns[i].pc == CancelRead(call) && (v.lockedRead ==> TaskFree(w, i, call.task))
    ensures LocksBacked(ReadPrevious(v, w, i, call))
  {
    MoveBacked(w, i, CancelUpdate(call));
  }

  lemma QuietBacked(v: Variant, w: World, i: TxnId, act: Act)
    requires LocksBacked(w) && i in w.txns && CanAct(v, w, i, act)
    requires act.ScanDue? || act.ExpireRowsDone? || act.Scan1? || act.Sweep1Done? || act.Scan2?
    ensures LocksBacked(Perform(v, w, i, act))
  {
    MoveBacked(w, i, Perform(v, w, i, act).txns[i].pc);
  }

  lemma ActKeepsLocksBacked(v: Variant, w: World, i: TxnId, act: Act)
    requires LocksBacked(w) && i in w.txns && CanAct(v, w, i, act)
    ensures LocksBacked(Perform(v, w, i, act))
  {
    if WritesTask(act) {
      TaskWriteBacked(v, w, i, act);
    } else if WritesAsk(act) {
      AskWriteBacked(v, w, i, act);
    } else if act.ReadState? {
      ReadBacked(v, w, i, w.txns[i].pc.call);
    } else if act != Commit && act != Abort {
      QuietBacked(v, w, i, act);
    }
  }

  lemma RetireBacked(w: World, i: TxnId, a: AskId, s: AskState, pc: Pc)
    requires LocksBacked(w) && i in w.txns && !w.txns[i].pc.CancelUpdate?
    ensures LocksBacked(Retire(w, i, a, s, pc))
  {
    if a in w.asks && SeesPending(w, w.txns[i], a) {
      WriteAskBacked(w, i, a, w.asks[a].(state := s), pc);
    } else {
      MoveBacked(w, i, pc);
    }
  }

  lemma {:induction false} RunKeepsLocksBacked(v: Variant, w: World, steps: seq<Step>)
    requires LocksBacked(w) && Exec(v, w, steps).Some?
    ensures LocksBacked(Exec(v, w, steps).value)
    decreases |steps|
  {
    if steps != [] {
      StepKeepsLocksBacked(v, w, steps[0]);
      RunKeepsLocksBacked(v, Apply(v, w, steps[0]), steps[1..]);
    }
  }

  /** An already committed ask that a transaction has written is still open to everyone else. */
  lemma WrittenAskIsOpen(w: World, j: TxnId, a: AskId)
    requires j in w.txns && TxnOk(w, j) && a in w.txns[j].aw && a in w.asks
    ensures Open(w.asks, a, w.asks[a].task)
  {
  }

  /** The second sweep only ever waits for an ask that was not there when the first sweep scanned. */
  lemma SecondSweepWaitsForLateAsk(w: World, i: TxnId, a: AskId)
    requires i in w.txns && TxnOk(w, i) && w.txns[i].pc.CancelRows2? && a in w.txns[i].pc.todo && !AskFree(w, i, a)
    requires LocksBacked(w) && TxnOk(w, w.askLock[a])
    ensures a !in w.txns[i].pc.call.seen
  {
    WrittenAskIsOpen(w, w.askLock[a], a);
    LateOrOurs(w, i, a);
  }

  lemma LateOrOurs(w: World, i: TxnId, a: AskId)
    requires i in w.txns && TxnOk(w, i) && w.txns[i].pc.CancelRows2? && Open(w.asks, a, w.txns[i].pc.call.task)
    ensures a in w.txns[i].pc.call.seen ==> AskHeld(w, a, i)
  {
  }

  predicate IsCancel(pc: Pc) {
    pc.CancelScan1? || pc.CancelRows1? || pc.CancelRead? || pc.CancelUpdate? || pc.CancelScan2? || pc.CancelRows2?
  }

  /** Transaction `k` is a cancel in its second sweep, blocked on an ask its first sweep could not see. */
  ghost predicate AwaitsLateAsk(w: World, k: TxnId) {
    && k in w.txns && w.txns[k].pc.CancelRows2?
    && exists a :: a in w.txns[k].pc.todo && a !in w.txns[k].pc.call.seen && !AskFree(w, k, a)
  }

  lemma SecondSweepWait(w: World, i: TxnId, j: TxnId)
    requires Inv(w) && LocksBacked(w) && WaitsFor(w, i, j) && w.txns[i].pc.CancelRows2?
    ensures AwaitsLateAsk(w, i)
  {
    var a :| a in w.txns[i].pc.todo && AskHeld(w, a, j);
    SecondSweepWaitsForLateAsk(w, i, a);
  }

  /** A first sweep that has to wait holds no row lock at all, so nobody waits for it. */
  lemma BlockedFirstSweepHoldsNothing(w: World, i: TxnId, j: TxnId)
    requires Inv(w) && LocksBacked(w) && WaitsFor(w, i, j) && w.txns[i].pc.CancelRows1?
    ensures forall b :: !AskHeld(w, b, i)
    ensures forall t :: !TaskHeld(w, t, i)
  {
    assert TxnOk(w, i) && TxnOk(w, j);
    var a :| a in w.txns[i].pc.todo && AskHeld(w, a, j);
    WrittenAskIsOpen(w, j, a);
    assert Open(w.asks, a, w.txns[i].pc.call.task);
  }

  /** While transaction `i` holds the open ask of task `t`, nobody but a cancel can hold the task row. */
  lemma AskHeldTaskHolder(w: World, i: TxnId, j: TxnId, a: AskId, t: TaskId)
    requires i != j && j in w.txns && TxnOk(w, j) && Paired(w.tasks, w.asks) && Open(w.asks, a, t) && AskHeld(w, a, i)
    requires TaskHeld(w, t, j) && (t in w.txns[j].tw || w.txns[j].pc.CancelUpdate?)
    ensures w.txns[j].pc.CancelUpdate? || w.txns[j].pc.CancelScan2? || w.txns[j].pc.CancelRows2?
  {
  }

  /** A cancel that has its task row and has not swept again waits for nobody. */
  lemma HolderDoesNotWait(w: World, j: TxnId, l: TxnId, t: TaskId)
    requires j in w.txns && TxnOk(w, j) && TaskHeld(w, t, j) && (w.txns[j].pc.CancelUpdate? || w.txns[j].pc.CancelScan2?)
    requires t in w.txns[j].tw || t == w.txns[j].pc.call.task
    ensures !WaitsFor(w, j, l)
  {
  }

  lemma BetweenSweepsHolder(w: World, i: TxnId, j: TxnId, l: TxnId, a: AskId)
    requires Inv(w) && LocksBacked(w) && WaitsFor(w, i, j) && (w.txns[i].pc.CancelRead? || w.txns[i].pc.CancelUpdate?)
    requires AskHeld(w, a, i)
    ensures WaitsFor(w, j, l) ==> w.txns[j].pc.CancelRows2?
  {
    assert TxnOk(w, i) && TxnOk(w, j);
    var t := w.txns[i].pc.call.task;
    AskHeldTaskHolder(w, i, j, a, t);
    if !w.txns[j].pc.CancelRows2? { HolderDoesNotWait(w, j, l, t); }
  }

  /** A transaction that waits for a cancel between its sweeps waits for an ask row. */
  lemma BetweenSweepsHeld(w: World, i: TxnId, j: TxnId, k: TxnId) returns (a: AskId)
    requires Inv(w) && LocksBacked(w) && WaitsFor(w, i, j) && WaitsFor(w, k, i)
    requires w.txns[i].pc.CancelRead? || w.txns[i].pc.CancelUpdate?
    ensures AskHeld(w, a, i)
  {
    assert TxnOk(w, i);
    assert forall t :: !TaskHeld(w, t, i);
    a :| AskHeld(w, a, i);
  }

  lemma NothingHeldNoWaiter(w: World, i: TxnId, j: TxnId)
    requires (forall b :: !AskHeld(w, b, i)) && (forall t :: !TaskHeld(w, t, i))
    ensures !WaitsFor(w, j, i)
  {
  }

  lemma CancelOnCycleInv(w: World, k: TxnId, i: TxnId, j: TxnId, l: TxnId)
    requires Inv(w) && LocksBacked(w) && WaitsFor(w, i, j) && IsCancel(w.txns[i].pc)
    ensures WaitsFor(w, k, i) && WaitsFor(w, j, l) ==> AwaitsLateAsk(w, i) || AwaitsLateAsk(w, j)
  {
    var pc := w.txns[i].pc;
    if pc.CancelRows2? {
      SecondSweepWait(w, i, j);
    } else if pc.CancelRows1? {
      BlockedFirstSweepHoldsNothing(w, i, j);
      NothingHeldNoWaiter(w, i, k);
    } else if WaitsFor(w, k, i) && WaitsFor(w, j, l) {
      var a := BetweenSweepsHeld(w, i, j, k);
      BetweenSweepsHolder(w, i, j, l, a);
      SecondSweepWait(w, j, l);
    }
  }

  /** Each transaction of `c` waits for the next, and the last for the first. */
  ghost predicate WaitCycle(w: World, c: seq<TxnId>) {
    |c| >= 2 && forall n :: 0 <= n < |c| ==> WaitsFor(w, c[n], c[Next(n, |c|)])
  }

  function Next(n: nat, len: nat): nat {
    if n + 1 < len then n + 1 else 0
  }

  /** A wait cycle of any length that a cancel is on has a second sweep on it, blocked on an ask that was
      raised and committed after its first sweep's scan. */
  lemma CancelWaitCycle(w: World, c: seq<TxnId>, n: nat)
    requires Reachable(SHIPPED, w) && WaitCycle(w, c) && n < |c| && c[n] in w.txns && IsCancel(w.txns[c[n]].pc)
    ensures AwaitsLateAsk(w, c[n]) || AwaitsLateAsk(w, c[Next(n, |c|)])
  {
    ReachableInv(w);
    var m, p := Next(n, |c|), Before(n, |c|);
    CycleNeighbours(w, c, n);
    CancelOnCycleInv(w, c[p], c[n], c[m], c[Next(m, |c|)]);
  }

  lemma ReachableInv(w: World)
    requires Reachable(SHIPPED, w)
    ensures Inv(w) && LocksBacked(w)
  {
    var steps: seq<Step> :| Exec(SHIPPED, EMPTY, steps) == Some(w);
    RunKeeps(EMPTY, steps);
    RunKeepsLocksBacked(SHIPPED, EMPTY, steps);
  }

  function Before(n: nat, len: nat): nat
    requires n < len
  {
    if n == 0 then len - 1 else n - 1
  }

  lemma CycleNeighbours(w: World, c: seq<TxnId>, n: nat)
    requires WaitCycle(w, c) && n < |c|
    ensures var m := Next(n, |c|);
            WaitsFor(w, c[Before(n, |c|)], c[n]) && WaitsFor(w, c[n], c[m]) && WaitsFor(w, c[m], c[Next(m, |c|)])
  {
    assert Next(Before(n, |c|), |c|) == n;
  }

  /** The transaction is done with its ask rows and next needs a task row. */
  predicate NeedsTaskNext(pc: Pc) {
    pc.ResolveTask? || pc.ExpireTasks? || pc.CancelRead? || pc.CancelUpdate?
  }

  /** Conversely, a second sweep that is blocked is in a deadlock with the transaction it waits for exactly when
      that one is done with its ask rows: what it needs next is the task row the sweep holds. */
  lemma SecondSweepDeadlockIff(w: World, i: TxnId, j: TxnId)
    requires Reachable(SHIPPED, w) && WaitsFor(w, i, j) && w.txns[i].pc.CancelRows2?
    ensures WaitCycle(w, [i, j]) <==> NeedsTaskNext(w.txns[j].pc)
  {
    ReachableInv(w);
    BlockedSweep(w, i, j);
    PairCycle(w, i, j);
  }

  lemma PairCycle(w: World, i: TxnId, j: TxnId)
    ensures WaitCycle(w, [i, j]) <==> WaitsFor(w, i, j) && WaitsFor(w, j, i)
  {
    var c := [i, j];
    assert c[0] == i && c[1] == j && Next(0, 2) == 1 && Next(1, 2) == 0;
  }

  lemma BlockedSweep(w: World, i: TxnId, j: TxnId)
    requires Inv(w) && LocksBacked(w) && WaitsFor(w, i, j) && w.txns[i].pc.CancelRows2?
    ensures WaitsFor(w, j, i) <==> NeedsTaskNext(w.txns[j].pc)
  {
    assert TxnOk(w, i) && TxnOk(w, j);
    var t := w.txns[i].pc.call.task;
    var a :| a in w.txns[i].pc.todo && AskHeld(w, a, j);
    WrittenAskIsOpen(w, j, a);
    SweepHoldsOnly(w, i, a);
    if NeedsTaskNext(w.txns[j].pc) { HolderNeedsTask(w, i, j, a, t); } else { HolderNeedsNoTask(w, i, j, a, t); }
  }

  /** With the open ask of its task in other hands, the sweep has taken none: a task has one. */
  lemma SweepHoldsOnly(w: World, i: TxnId, a: AskId)
    requires i in w.txns && TxnOk(w, i) && LocksBacked(w) && Paired(w.tasks, w.asks) && w.txns[i].pc.CancelRows2?
    requires Open(w.asks, a, w.txns[i].pc.call.task) && !AskHeld(w, a, i)
    ensures forall b :: !AskHeld(w, b, i)
    ensures forall u :: TaskHeld(w, u, i) <==> u == w.txns[i].pc.call.task
  {
  }

  lemma HolderNeedsTask(w: World, i: TxnId, j: TxnId, a: AskId, t: TaskId)
    requires i in w.txns && i != j && j in w.txns && TxnOk(w, j) && a in w.txns[j].aw && Open(w.asks, a, t)
    requires TaskHeld(w, t, i) && NeedsTaskNext(w.txns[j].pc)
    ensures WaitsFor(w, j, i)
  {
    var x := w.txns[j];
    assert x.pc.ExpireTasks? ==> Retires(w, x, AskExpired);
    assert !x.pc.ResolveTask? ==> x.aw[a].task == t;
  }

  lemma HolderNeedsNoTask(w: World, i: TxnId, j: TxnId, a: AskId, t: TaskId)
    requires i in w.txns && i != j && j in w.txns && TxnOk(w, j) && a in w.txns[j].aw && Open(w.asks, a, t)
    requires (forall b :: !AskHeld(w, b, i)) && !NeedsTaskNext(w.txns[j].pc)
    ensures !WaitsFor(w, j, i)
  {
  }

  // ---- What can hold a transaction up --------------------------------------

  /** What the next statement asks of its row: the three WHERE clauses that can find it otherwise. */
  predicate RowFits(w: World, pc: Pc) {
    match pc
    case RaiseSuspend(t) => t in w.tasks && w.tasks[t] == Running
    case ResolveAsk(a) => a in w.asks && w.asks[a].state == AskPending
    case CancelUpdate(call) => call.task in w.tasks && w.tasks[call.task] in {Pending, Running, AwaitingOperator}
    case _ => true
  }

  /** Transaction `i` can run a statement of its own. */
  ghost predicate CanProceed(w: World, i: TxnId) {
    i in w.txns && exists act :: act != Abort && CanAct(SHIPPED, w, i, act)
  }

  lemma TaskUnheld(w: World, i: TxnId, t: TaskId)
    requires LocksBacked(w) && forall j :: j in w.txns && j != i ==> !TaskHeld(w, t, j)
    ensures TaskFree(w, i, t)
  {
  }

  lemma AskUnheld(w: World, i: TxnId, a: AskId)
    requires LocksBacked(w) && forall j :: j in w.txns && j != i ==> !AskHeld(w, a, j)
    ensures AskFree(w, i, a)
  {
  }

  lemma RaiseProceeds(w: World, i: TxnId)
    requires i in w.txns && LocksBacked(w) && (forall j :: !WaitsFor(w, i, j))
    requires w.txns[i].pc.RaiseSuspend? || w.txns[i].pc.RaiseInsert? || w.txns[i].pc.RaiseCommit?
    ensures CanProceed(w, i) <==> RowFits(w, w.txns[i].pc)
  {
    var pc := w.txns[i].pc;
    if pc.RaiseSuspend? {
      assert forall j :: j in w.txns && j != i && TaskHeld(w, pc.task, j) ==> WaitsFor(w, i, j);
      TaskUnheld(w, i, pc.task);
      if RowFits(w, pc) { assert CanAct(SHIPPED, w, i, Suspend); }
    } else if pc.RaiseInsert? {
      assert CanAct(SHIPPED, w, i, InsertAsk);
    } else {
      assert CanAct(SHIPPED, w, i, Commit);
    }
  }

  lemma ResolveProceeds(w: World, i: TxnId)
    requires i in w.txns && TxnOk(w, i) && Paired(w.tasks, w.asks) && LocksBacked(w) && (forall j :: !WaitsFor(w, i, j))
    requires w.txns[i].pc.ResolveAsk? || w.txns[i].pc.ResolveTask? || w.txns[i].pc.ResolveCommit?
    ensures CanProceed(w, i) <==> RowFits(w, w.txns[i].pc)
  {
    var pc := w.txns[i].pc;
    if pc.ResolveAsk? {
      assert forall j :: j in w.txns && j != i && AskHeld(w, pc.ask, j) ==> WaitsFor(w, i, j);
      AskUnheld(w, i, pc.ask);
      if RowFits(w, pc) { assert CanAct(SHIPPED, w, i, TakeAsk); }
    } else if pc.ResolveTask? {
      assert forall j :: j in w.txns && j != i && TaskHeld(w, pc.task, j) ==> WaitsFor(w, i, j);
      TaskUnheld(w, i, pc.task);
      assert CanAct(SHIPPED, w, i, ResumeTask);
    } else {
      assert CanAct(SHIPPED, w, i, Commit);
    }
  }

  lemma ExpireProceeds(w: World, i: TxnId)
    requires i in w.txns && TxnOk(w, i) && LocksBacked(w) && (forall j :: !WaitsFor(w, i, j))
    requires w.txns[i].pc.ExpireScan? || w.txns[i].pc.ExpireRows? || w.txns[i].pc.ExpireTasks?
    ensures CanProceed(w, i)
  {
    var pc := w.txns[i].pc;
    if pc.ExpireScan? {
      assert CanAct(SHIPPED, w, i, ScanDue({}));
    } else if pc.todo == {} {
      assert CanAct(SHIPPED, w, i, if pc.ExpireRows? then ExpireRowsDone else Commit);
    } else {
      var a :| a in pc.todo;
      ExpireRowProceeds(w, i, a);
    }
  }

  lemma ExpireRowProceeds(w: World, i: TxnId, a: AskId)
    requires i in w.txns && TxnOk(w, i) && LocksBacked(w) && (forall j :: !WaitsFor(w, i, j))
    requires (w.txns[i].pc.ExpireRows? || w.txns[i].pc.ExpireTasks?) && a in w.txns[i].pc.todo
    ensures CanProceed(w, i)
  {
    if w.txns[i].pc.ExpireRows? {
      assert forall j :: j in w.txns && j != i && AskHeld(w, a, j) ==> WaitsFor(w, i, j);
      AskUnheld(w, i, a);
      assert CanAct(SHIPPED, w, i, ExpireRow(a));
    } else {
      assert Retires(w, w.txns[i], AskExpired) && a in w.asks;
      assert forall j :: j in w.txns && j != i && TaskHeld(w, w.asks[a].task, j) ==> WaitsFor(w, i, j);
      TaskUnheld(w, i, w.asks[a].task);
      assert CanAct(SHIPPED, w, i, FailTask(a));
    }
  }

  lemma SweepProceeds(w: World, i: TxnId)
    requires i in w.txns && TxnOk(w, i) && LocksBacked(w) && (forall j :: !WaitsFor(w, i, j))
    requires w.txns[i].pc.CancelScan1? || w.txns[i].pc.CancelScan2? || w.txns[i].pc.CancelRows1? || w.txns[i].pc.CancelRows2?
    ensures CanProceed(w, i)
  {
    var pc := w.txns[i].pc;
    if pc.CancelScan1? {
      assert CanAct(SHIPPED, w, i, Scan1);
    } else if pc.CancelScan2? {
      assert CanAct(SHIPPED, w, i, Scan2);
    } else if pc.todo == {} {
      assert CanAct(SHIPPED, w, i, if pc.CancelRows1? then Sweep1Done else Commit);
    } else {
      var a :| a in pc.todo;
      assert forall j :: j in w.txns && j != i && AskHeld(w, a, j) ==> WaitsFor(w, i, j);
      AskUnheld(w, i, a);
      assert CanAct(SHIPPED, w, i, SweepRow(a));
    }
  }

  lemma CancelTaskProceeds(w: World, i: TxnId)
    requires i in w.txns && LocksBacked(w) && (forall j :: !WaitsFor(w, i, j))
    requires w.txns[i].pc.CancelRead? || w.txns[i].pc.CancelUpdate?
    ensures CanProceed(w, i) <==> RowFits(w, w.txns[i].pc)
  {
    var pc := w.txns[i].pc;
    assert forall j :: j in w.txns && j != i && TaskHeld(w, pc.call.task, j) ==> WaitsFor(w, i, j);
    TaskUnheld(w, i, pc.call.task);
    if pc.CancelRead? {
      assert CanAct(SHIPPED, w, i, ReadState);
    } else if RowFits(w, pc) {
      assert CanAct(SHIPPED, w, i, CancelTask);
    }
  }

  /** In every interleaving a transaction that waits for nobody can go on, except that a raise needs a running task,
      a resolve a pending ask, and a cancel a task that is pending, running or awaiting the operator. */
  lemma ProceedsIffRowFits(w: World, i: TxnId)
    requires Reachable(SHIPPED, w) && i in w.txns && forall j :: !WaitsFor(w, i, j)
    ensures CanProceed(w, i) <==> RowFits(w, w.txns[i].pc)
  {
    ReachableInv(w);
    var pc := w.txns[i].pc;
    if pc.RaiseSuspend? || pc.RaiseInsert? || pc.RaiseCommit? {
      RaiseProceeds(w, i);
    } else if pc.ResolveAsk? || pc.ResolveTask? || pc.ResolveCommit? {
      ResolveProceeds(w, i);
    } else if pc.ExpireScan? || pc.ExpireRows? || pc.ExpireTasks? {
      ExpireProceeds(w, i);
    } else if pc.CancelRead? || pc.CancelUpdate? {
      CancelTaskProceeds(w, i);
    } else {
      SweepProceeds(w, i);
    }
  }

  /** That cycle exists: a resolver takes the late ask before the second sweep reaches it. */
  lemma CancelCanDeadlock() returns (w: World)
    ensures Reachable(SHIPPED, w) && WaitsFor(w, 2, 3) && WaitsFor(w, 3, 2)
  {
    RaiseCommits(SHIPPED);
    var start := Txn(ResolveAsk(0), map[], map[]);
    var w1 := ASKED.(txns := map[2 := SWEPT, 3 := start]);
    Extend(SHIPPED, ASKED, Begin(3, ResolveAsk(0)), w1);
    var holder := Txn(ResolveTask(0, 0), map[], map[0 := AskRow(0, AskResolved)]);
    var w2 := ASKED.(askLock := map[0 := 3], txns := map[2 := SWEPT, 3 := holder]);
    Extend(SHIPPED, w1, Do(3, TakeAsk), w2);
    w := CancelMeetsResolver(w2, holder);
  }

  lemma CancelMeetsResolver(w2: World, holder: Txn) returns (w: World)
    requires holder == Txn(ResolveTask(0, 0), map[], map[0 := AskRow(0, AskResolved)])
    requires w2 == ASKED.(askLock := map[0 := 3], txns := map[2 := SWEPT, 3 := holder]) && Reachable(SHIPPED, w2)
    ensures Reachable(SHIPPED, w) && WaitsFor(w, 2, 3) && WaitsFor(w, 3, 2)
  {
    CancelLocksTask(SHIPPED, w2);
    w := SecondSweepBlocks(Overwritten(w2), READ, holder);
  }

  lemma SecondSweepBlocks(w4: World, call: CancelCall, holder: Txn) returns (w: World)
    requires holder == Txn(ResolveTask(0, 0), map[], map[0 := AskRow(0, AskResolved)]) && call.task == 0
    requires w4.tasks == ASKED.tasks && w4.asks == ASKED.asks && w4.taskLock == map[0 := 2] && w4.askLock == map[0 := 3]
    requires w4.txns == map[2 := Txn(CancelScan2(call), map[0 := Cancelled], map[]), 3 := holder] && Reachable(SHIPPED, w4)
    ensures Reachable(SHIPPED, w) && WaitsFor(w, 2, 3) && WaitsFor(w, 3, 2)
  {
    assert PendingOf(w4, w4.txns[2], 0) == {0};
    w := w4.(txns := map[2 := Txn(CancelRows2(call, {0}), map[0 := Cancelled], map[]), 3 := holder]);
    Extend(SHIPPED, w4, Do(2, Scan2), w);
    assert 0 in w.txns[2].pc.todo && AskHeld(w, 0, 3);
  }
}
