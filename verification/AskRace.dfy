/**
 Statement-level model of the ask/task transactions under READ COMMITTED.

 Every transaction runs one SQL statement at a time; any other transaction may
 run between two statements, and a multi-row UPDATE is itself split into a scan
 of the committed rows and one step per row. A step that would block on another
 transaction's row lock is not enabled; a transaction may abort at any point
 (deadlock victim, error return, dropped connection), which undoes its writes.
 */
module AskRace {
  import opened Lifecycle

  type TaskId = nat
  type AskId = nat
  type TxnId = nat

  datatype AskRow = AskRow(task: TaskId, state: AskState)

  /** Where a transaction stands, with its local variables. */
  datatype Pc =
    // asks::raise
    | RaiseSuspend(task: TaskId)
    | RaiseInsert(task: TaskId)
    | RaiseCommit(task: TaskId, ask: AskId)
    // asks::resolve, asks::resolve_with_nonce
    | ResolveAsk(ask: AskId)
    | ResolveTask(ask: AskId, task: TaskId)
    | ResolveCommit(ask: AskId, task: TaskId)
    // asks::expire_due
    | ExpireScan
    | ExpireRows(todo: set<AskId>)
    | ExpireTasks(todo: set<AskId>)
    // tasks::mark_cancelled
    | CancelScan1(call: CancelCall)
    | CancelRows1(call: CancelCall, todo: set<AskId>)
    | CancelRead(call: CancelCall)
    | CancelUpdate(call: CancelCall)
    | CancelScan2(call: CancelCall)
    | CancelRows2(call: CancelCall, todo: set<AskId>)

  /** The locals of one `mark_cancelled` call: its task, whether that task existed when
      the call began, what its first sweep's scan found, the previous state it read, and
      (for the record only) whether the row was there when that read ran. */
  datatype CancelCall = CancelCall(task: TaskId, known: bool, seen: set<AskId>, prev: Option<TaskState>, present: bool)

  /** One transaction in flight: its position and its uncommitted row versions. */
  datatype Txn = Txn(pc: Pc, tw: map<TaskId, TaskState>, aw: map<AskId, AskRow>)

  /** What a committed `mark_cancelled` reported, and what its commit overwrote. */
  datatype Cancellation = Cancellation(call: CancelCall, overwritten: TaskState)

  datatype World = World(
    tasks: map<TaskId, TaskState>,
    asks: map<AskId, AskRow>,
    taskLock: map<TaskId, TxnId>,
    askLock: map<AskId, TxnId>,
    nextAsk: AskId,
    txns: map<TxnId, Txn>,
    log: seq<Cancellation>)

  /** The two design choices of `mark_cancelled` that its comments call
      load-bearing: sweeping the asks again once the task row is locked, and
      reading the previous state with FOR UPDATE. */
  datatype Variant = Variant(secondSweep: bool, lockedRead: bool)

  const SHIPPED := Variant(true, true)

  const EMPTY := World(map[], map[], map[], map[], 0, map[], [])

  /** One statement of a transaction in flight. */
  datatype Act =
    | Suspend
    | InsertAsk
    | TakeAsk
    | ResumeTask
    | ScanDue(due: set<AskId>)
    | ExpireRow(a: AskId)
    | ExpireRowsDone
    | FailTask(a: AskId)
    | Scan1
    | SweepRow(a: AskId)
    | Sweep1Done
    | ReadState
    | CancelTask
    | Scan2
    | Commit
    | Abort

  datatype Step =
    | InsertTask(t: TaskId)
    | MoveTask(t: TaskId, to: TaskState)
    | Begin(i: TxnId, pc: Pc)
    | Do(i: TxnId, act: Act)

  // ---- Row visibility and locks -------------------------------------------

  predicate TaskFree(w: World, i: TxnId, t: TaskId) {
    t in w.taskLock ==> w.taskLock[t] == i
  }

  predicate AskFree(w: World, i: TxnId, a: AskId) {
    a in w.askLock ==> w.askLock[a] == i
  }

  /** Ask `a` is a committed pending ask of task `t`. */
  predicate Open(asks: map<AskId, AskRow>, a: AskId, t: TaskId) {
    a in asks && asks[a] == AskRow(t, AskPending)
  }

  /** The version of ask `a` that transaction `x` reads is pending: its own write if it has one. */
  predicate SeesPending(w: World, x: Txn, a: AskId) {
    if a in x.aw then x.aw[a].state == AskPending else a in w.asks && w.asks[a].state == AskPending
  }

  /** `WHERE task_id = t AND state = 'pending'`, evaluated on committed rows and own writes. */
  function PendingOf(w: World, x: Txn, t: TaskId): set<AskId> {
    set a | a in w.asks && SeesPending(w, x, a) && w.asks[a].task == t
  }

  predicate InState(w: World, t: TaskId, s: TaskState) {
    t in w.tasks && w.tasks[t] == s
  }

  function WithTxn(w: World, i: TxnId, x: Txn): World {
    w.(txns := w.txns[i := x])
  }

  /** Transaction `i` locks task `t` and writes `s` to it. */
  function WriteTask(w: World, i: TxnId, t: TaskId, s: TaskState, pc: Pc): World
    requires i in w.txns
  {
    var x := w.txns[i];
    WithTxn(w, i, x.(pc := pc, tw := x.tw[t := s])).(taskLock := w.taskLock[t := i])
  }

  /** Transaction `i` locks ask `a` and writes `row` to it. */
  function WriteAsk(w: World, i: TxnId, a: AskId, row: AskRow, pc: Pc): World
    requires i in w.txns
  {
    var x := w.txns[i];
    WithTxn(w, i, x.(pc := pc, aw := x.aw[a := row])).(askLock := w.askLock[a := i])
  }

  function Move(w: World, i: TxnId, pc: Pc): World
    requires i in w.txns
  {
    WithTxn(w, i, w.txns[i].(pc := pc))
  }

  /** Transaction `i` is over: its row locks are released. */
  function Release(w: World, i: TxnId): World {
    w.(txns := w.txns - {i},
       taskLock := map t | t in w.taskLock && w.taskLock[t] != i :: w.taskLock[t],
       askLock := map a | a in w.askLock && w.askLock[a] != i :: w.askLock[a])
  }

  // ---- The step relation ---------------------------------------------------

  /** The single-statement task updates: claim, finalize, cancel-if-pending, fail, sweep. */
  predicate AutoMove(s: TaskState, to: TaskState) {
    (s == Pending && (to == Running || to == Cancelled)) || (s == Running && Terminal(to))
  }

  predicate FirstPc(w: World, pc: Pc) {
    || pc.RaiseSuspend?
    || pc.ResolveAsk?
    || pc.ExpireScan?
    || (pc.CancelScan1? && pc.call == CancelCall(pc.call.task, pc.call.task in w.tasks, {}, None, false))
  }

  predicate Committing(pc: Pc) {
    || pc.RaiseCommit?
    || pc.ResolveCommit?
    || (pc.ExpireTasks? && pc.todo == {})
    || (pc.CancelRows2? && pc.todo == {})
  }

  predicate Enabled(v: Variant, w: World, s: Step) {
    match s
    case InsertTask(t) => t !in w.tasks
    case MoveTask(t, to) => t in w.tasks && t !in w.taskLock && AutoMove(w.tasks[t], to)
    case Begin(i, pc) => i !in w.txns && FirstPc(w, pc)
    case Do(i, act) => i in w.txns && CanAct(v, w, i, act)
  }

  /** Transaction `i` stands at this statement and no other transaction's lock blocks it. */
  predicate CanAct(v: Variant, w: World, i: TxnId, act: Act)
    requires i in w.txns
  {
    var pc := w.txns[i].pc;
    match act
    case Suspend => pc.RaiseSuspend? && TaskFree(w, i, pc.task) && InState(w, pc.task, Running)
    case InsertAsk => pc.RaiseInsert?
    case TakeAsk => pc.ResolveAsk? && AskFree(w, i, pc.ask) && pc.ask in w.asks && w.asks[pc.ask].state == AskPending
    case ResumeTask => pc.ResolveTask? && TaskFree(w, i, pc.task) && InState(w, pc.task, AwaitingOperator)
    case ScanDue(due) => pc.ExpireScan? && forall a :: a in due ==> a in w.asks && w.asks[a].state == AskPending
    case ExpireRow(a) => pc.ExpireRows? && a in pc.todo && AskFree(w, i, a)
    case ExpireRowsDone => pc.ExpireRows? && pc.todo == {}
    case FailTask(a) => pc.ExpireTasks? && a in pc.todo && a in w.asks && TaskFree(w, i, w.asks[a].task)
    case Scan1 => pc.CancelScan1?
    case SweepRow(a) => (pc.CancelRows1? || pc.CancelRows2?) && a in pc.todo && AskFree(w, i, a)
    case Sweep1Done => pc.CancelRows1? && pc.todo == {}
    case ReadState => pc.CancelRead? && (v.lockedRead ==> TaskFree(w, i, pc.call.task))
    case CancelTask => pc.CancelUpdate? && TaskFree(w, i, pc.call.task) && pc.call.task in w.tasks && Cancellable(w.tasks[pc.call.task])
    case Scan2 => pc.CancelScan2?
    case Commit => Committing(pc) && (pc.CancelRows2? ==> pc.call.task in w.tasks)
    case Abort => true
  }

  /** Committing installs the overlay, records a cancellation, and releases the locks. */
  function CommitWrites(w: World, i: TxnId): World
    requires i in w.txns && Committing(w.txns[i].pc)
    requires w.txns[i].pc.CancelRows2? ==> w.txns[i].pc.call.task in w.tasks
  {
    var x := w.txns[i];
    Release(w, i).(
      tasks := w.tasks + x.tw,
      asks := w.asks + x.aw,
      log := if x.pc.CancelRows2? then w.log + [Cancellation(x.pc.call, w.tasks[x.pc.call.task])] else w.log)
  }

  function Apply(v: Variant, w: World, s: Step): World
    requires Enabled(v, w, s)
  {
    match s
    case InsertTask(t) => w.(tasks := w.tasks[t := Pending])
    case MoveTask(t, to) => w.(tasks := w.tasks[t := to])
    case Begin(i, pc) => WithTxn(w, i, Txn(pc, map[], map[]))
    case Do(i, act) => Perform(v, w, i, act)
  }

  /** Ask `a`, if transaction `i` still finds it pending once it has the row lock, becomes `s`. */
  function Retire(w: World, i: TxnId, a: AskId, s: AskState, pc: Pc): World
    requires i in w.txns
  {
    if a in w.asks && SeesPending(w, w.txns[i], a)
    then WriteAsk(w, i, a, w.asks[a].(state := s), pc)
    else Move(w, i, pc)
  }

  function StartSweep1(w: World, i: TxnId, call: CancelCall): World
    requires i in w.txns
  {
    var found := PendingOf(w, w.txns[i], call.task);
    Move(w, i, CancelRows1(call.(seen := found), found))
  }

  /** `mark_cancelled`'s read of the previous state: with FOR UPDATE it also takes the row lock. */
  function ReadPrevious(v: Variant, w: World, i: TxnId, call: CancelCall): World
    requires i in w.txns
  {
    if call.task !in w.tasks then Move(w, i, CancelUpdate(call))
    else
      var w' := Move(w, i, CancelUpdate(call.(prev := Some(w.tasks[call.task]), present := true)));
      if v.lockedRead then w'.(taskLock := w.taskLock[call.task := i]) else w'
  }

  function Perform(v: Variant, w: World, i: TxnId, act: Act): World
    requires i in w.txns && CanAct(v, w, i, act)
  {
    var x := w.txns[i];
    var pc := x.pc;
    match act
    case Suspend => WriteTask(w, i, pc.task, AwaitingOperator, RaiseInsert(pc.task))
    case InsertAsk =>
      WriteAsk(w, i, w.nextAsk, AskRow(pc.task, AskPending), RaiseCommit(pc.task, w.nextAsk)).(nextAsk := w.nextAsk + 1)
    case TakeAsk => Retire(w, i, pc.ask, AskResolved, ResolveTask(pc.ask, w.asks[pc.ask].task))
    case ResumeTask => WriteTask(w, i, pc.task, Pending, ResolveCommit(pc.ask, pc.task))
    case ScanDue(due) => Move(w, i, ExpireRows(due))
    case ExpireRow(a) => Retire(w, i, a, AskExpired, ExpireRows(pc.todo - {a}))
    case ExpireRowsDone => Move(w, i, ExpireTasks(x.aw.Keys))
    case FailTask(a) =>
      if CanFail(w, i, a)
      then WriteTask(w, i, w.asks[a].task, Failed, ExpireTasks(pc.todo - {a}))
      else Move(w, i, ExpireTasks(pc.todo - {a}))
    case Scan1 => StartSweep1(w, i, pc.call)
    case SweepRow(a) =>
      var left := pc.todo - {a};
      Retire(w, i, a, AskCancelled, if pc.CancelRows1? then CancelRows1(pc.call, left) else CancelRows2(pc.call, left))
    case Sweep1Done => Move(w, i, CancelRead(pc.call))
    case ReadState => ReadPrevious(v, w, i, pc.call)
    case CancelTask => WriteTask(w, i, pc.call.task, Cancelled, CancelScan2(pc.call))
    case Scan2 => Move(w, i, CancelRows2(pc.call, if v.secondSweep then PendingOf(w, x, pc.call.task) else {}))
    case Commit => CommitWrites(w, i)
    case Abort => Release(w, i)
  }

  /** `fail_awaiting_operator`'s guard, as transaction `i` sees the task of ask `a`. */
  predicate CanFail(w: World, i: TxnId, a: AskId)
    requires i in w.txns && a in w.asks
  {
    var t := w.asks[a].task;
    if t in w.txns[i].tw then w.txns[i].tw[t] == AwaitingOperator else t in w.tasks && w.tasks[t] == AwaitingOperator
  }

  /** Run `steps` from `w`; None when a step is not enabled. */
  function Exec(v: Variant, w: World, steps: seq<Step>): Option<World>
    decreases |steps|
  {
    if steps == [] then Some(w)
    else if Enabled(v, w, steps[0]) then Exec(v, Apply(v, w, steps[0]), steps[1..])
    else None
  }

  /** `w` is reached by some interleaving from empty tables. */
  ghost predicate Reachable(v: Variant, w: World) {
    exists steps: seq<Step> :: Exec(v, EMPTY, steps) == Some(w)
  }
}
