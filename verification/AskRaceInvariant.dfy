/**
 The inductive invariant of the statement-level model, and the proof that every
 step of every transaction keeps it.
 */
module AskRaceInvariant {
  import opened Lifecycle
  import opened AskRace

  // ---- The invariant -------------------------------------------------------

  /** A committed task awaits the operator exactly when it has one committed pending ask. */
  ghost predicate Paired(tasks: map<TaskId, TaskState>, asks: map<AskId, AskRow>) {
    && (forall a, t :: Open(asks, a, t) ==> t in tasks && tasks[t] == AwaitingOperator)
    && (forall a, b, t :: Open(asks, a, t) && Open(asks, b, t) ==> a == b)
    && (forall t :: t in tasks && tasks[t] == AwaitingOperator ==> exists a :: Open(asks, a, t))
  }

  /** `previous_state` is what the guarded update overwrites, or nothing if the row was not there when it was read. */
  predicate PreviousOk(call: CancelCall, overwritten: TaskState) {
    (call.known ==> call.present) && call.prev == if call.present then Some(overwritten) else None
  }

  /** Every cancellation so far left its task cancelled with nothing pending, and told the truth. */
  ghost predicate LogOk(w: World) {
    forall k :: 0 <= k < |w.log| ==>
      var c := w.log[k];
      && InState(w, c.call.task, Cancelled)
      && Cancellable(c.overwritten)
      && PreviousOk(c.call, c.overwritten)
  }

  ghost predicate WritesLocked(w: World, i: TxnId)
    requires i in w.txns
  {
    && (forall t :: t in w.txns[i].tw ==> t in w.taskLock && w.taskLock[t] == i && t in w.tasks)
    && (forall a :: a in w.txns[i].aw ==> a in w.askLock && w.askLock[a] == i && a < w.nextAsk)
  }

  /** Every ask this transaction wrote is a committed pending ask that becomes `s`. */
  ghost predicate Retires(w: World, x: Txn, s: AskState) {
    forall a :: a in x.aw ==> x.aw[a].state == s && Open(w.asks, a, x.aw[a].task)
  }

  /** What the first sweep scanned and is still pending is held by this transaction. */
  ghost predicate SweptFirst(w: World, x: Txn, t: TaskId, seen: set<AskId>, todo: set<AskId>) {
    forall a :: a in seen ==> a in w.asks && (Open(w.asks, a, t) ==> a in todo || a in x.aw)
  }

  ghost predicate AsksOf(w: World, t: TaskId, todo: set<AskId>) {
    forall a :: a in todo ==> a in w.asks && w.asks[a].task == t
  }

  /** The row lock on task `t`, with the row still as committed. */
  ghost predicate HoldsTask(w: World, i: TxnId, t: TaskId) {
    t in w.taskLock && w.taskLock[t] == i && t in w.tasks
  }

  /** A cancel wrote only open asks of its task, and holds all its first scan found that are still open. */
  ghost predicate CancelOk(w: World, i: TxnId, call: CancelCall, todo: set<AskId>)
    requires i in w.txns
  {
    var x := w.txns[i];
    && Retires(w, x, AskCancelled)
    && (forall a :: a in x.aw ==> x.aw[a].task == call.task)
    && SweptFirst(w, x, call.task, call.seen, todo)
  }

  ghost predicate KnownExists(w: World, call: CancelCall) {
    && (call.known ==> call.task in w.tasks)
    && call.prev == None && !call.present
  }

  /** Past the guarded update: the task row is locked and still holds what is being overwritten. */
  ghost predicate Overwrites(w: World, i: TxnId, call: CancelCall)
    requires i in w.txns
  {
    && HoldsTask(w, i, call.task)
    && Cancellable(w.tasks[call.task])
    && w.txns[i].tw == map[call.task := Cancelled]
    && PreviousOk(call, w.tasks[call.task])
  }

  /** Ask `a` is one this expiry has already failed task `t` for. */
  predicate Backs(x: Txn, a: AskId, t: TaskId)
    requires x.pc.ExpireTasks?
  {
    a in x.aw && a !in x.pc.todo && x.aw[a].task == t
  }

  ghost predicate FailsBacked(x: Txn)
    requires x.pc.ExpireTasks?
  {
    forall t :: t in x.tw ==> x.tw[t] == Failed && exists a :: Backs(x, a, t)
  }

  ghost predicate TxnOk(w: World, i: TxnId)
    requires i in w.txns
  {
    var x := w.txns[i];
    && WritesLocked(w, i)
    && match x.pc
       case RaiseSuspend(_) => x.tw == map[] && x.aw == map[]
       case RaiseInsert(t) => HoldsTask(w, i, t) && w.tasks[t] == Running && x.tw == map[t := AwaitingOperator] && x.aw == map[]
       case RaiseCommit(t, a) =>
         && HoldsTask(w, i, t) && w.tasks[t] == Running && x.tw == map[t := AwaitingOperator]
         && a !in w.asks && x.aw == map[a := AskRow(t, AskPending)]
       case ResolveAsk(_) => x.tw == map[] && x.aw == map[]
       case ResolveTask(a, t) => x.tw == map[] && x.aw == map[a := AskRow(t, AskResolved)] && Open(w.asks, a, t)
       case ResolveCommit(a, t) => HoldsTask(w, i, t) && x.tw == map[t := Pending] && x.aw == map[a := AskRow(t, AskResolved)] && Open(w.asks, a, t)
       case ExpireScan => x.tw == map[] && x.aw == map[]
       case ExpireRows(todo) => x.tw == map[] && Retires(w, x, AskExpired)
       case ExpireTasks(todo) =>
         && Retires(w, x, AskExpired)
         && todo <= x.aw.Keys
         && FailsBacked(x)
         && (forall a :: a in x.aw && a !in todo ==> x.aw[a].task in x.tw)
       case CancelScan1(call) => x.tw == map[] && x.aw == map[] && KnownExists(w, call)
       case CancelRows1(call, todo) => x.tw == map[] && CancelOk(w, i, call, todo) && KnownExists(w, call) && AsksOf(w, call.task, todo)
       case CancelRead(call) => x.tw == map[] && CancelOk(w, i, call, {}) && KnownExists(w, call)
       case CancelUpdate(call) =>
         && x.tw == map[] && CancelOk(w, i, call, {})
         && (call.known ==> call.present) && (call.present <==> call.prev.Some?)
         && (call.prev.Some? ==> HoldsTask(w, i, call.task) && call.prev.value == w.tasks[call.task])
       case CancelScan2(call) => CancelOk(w, i, call, {}) && Overwrites(w, i, call)
       case CancelRows2(call, todo) =>
         && CancelOk(w, i, call, {}) && Overwrites(w, i, call) && AsksOf(w, call.task, todo)
         && (forall a :: Open(w.asks, a, call.task) ==> a in todo || a in x.aw)
  }

  ghost predicate Inv(w: World) {
    && Paired(w.tasks, w.asks)
    && (forall a :: a in w.asks || a in w.askLock ==> a < w.nextAsk)
    && (forall t :: t in w.taskLock ==> t in w.tasks)
    && LogOk(w)
    && (forall i :: i in w.txns ==> TxnOk(w, i))
  }

  // ---- Every step keeps the invariant --------------------------------------

  /** What a step of one transaction (or of none) leaves alone, seen from transaction `j`. */
  ghost predicate Undisturbed(w: World, w': World, j: TxnId) {
    && j in w.txns && j in w'.txns && w'.txns[j] == w.txns[j]
    && w.nextAsk <= w'.nextAsk
    && w.tasks.Keys <= w'.tasks.Keys
    && (forall a :: a in w.asks ==> a in w'.asks && w'.asks[a].task == w.asks[a].task)
    && (forall t :: t in w.taskLock && w.taskLock[t] == j ==> t in w'.taskLock && w'.taskLock[t] == j)
    && (forall a :: a in w.askLock && w.askLock[a] == j ==> a in w'.askLock && w'.askLock[a] == j)
    && (forall t :: t in w.taskLock && w.taskLock[t] == j && t in w.tasks ==> w'.tasks[t] == w.tasks[t])
    && (forall a :: a in w.askLock && w.askLock[a] == j ==>
          if a in w.asks then w'.asks[a] == w.asks[a] else a !in w'.asks)
    && (forall a, t :: Open(w'.asks, a, t) && HoldsTask(w, j, t) ==> Open(w.asks, a, t))
    && (forall a, t :: Open(w'.asks, a, t) && a in w.asks ==> Open(w.asks, a, t))
  }

  lemma WritesStayLocked(w: World, w': World, j: TxnId)
    requires Undisturbed(w, w', j) && WritesLocked(w, j)
    ensures WritesLocked(w', j)
    ensures forall a :: a in w.txns[j].aw && a in w.asks ==> w'.asks[a] == w.asks[a]
    ensures forall a :: a in w.txns[j].aw && a !in w.asks ==> a !in w'.asks
  {
  }

  lemma OtherCancelKept(w: World, w': World, j: TxnId)
    requires Undisturbed(w, w', j) && TxnOk(w, j)
    requires var pc := w.txns[j].pc;
             pc.CancelScan1? || pc.CancelRows1? || pc.CancelRead? || pc.CancelUpdate? || pc.CancelScan2? || pc.CancelRows2?
    ensures TxnOk(w', j)
  {
    WritesStayLocked(w, w', j);
    var pc := w.txns[j].pc;
    if !pc.CancelScan1? {
      var todo := if pc.CancelRows1? then pc.todo else {};
      assert CancelOk(w, j, pc.call, todo);
      assert CancelOk(w', j, pc.call, todo);
    }
  }

  lemma OtherRaiseOrResolveKept(w: World, w': World, j: TxnId)
    requires Undisturbed(w, w', j) && TxnOk(w, j)
    requires var pc := w.txns[j].pc;
             pc.RaiseSuspend? || pc.RaiseInsert? || pc.RaiseCommit? || pc.ResolveAsk? || pc.ResolveTask? || pc.ResolveCommit?
    ensures TxnOk(w', j)
  {
    WritesStayLocked(w, w', j);
  }

  lemma OthersKept(w: World, w': World, j: TxnId)
    requires Undisturbed(w, w', j) && TxnOk(w, j)
    ensures TxnOk(w', j)
  {
    match w.txns[j].pc {
      case ExpireScan => WritesStayLocked(w, w', j);
      case ExpireRows(_) => WritesStayLocked(w, w', j);
      case ExpireTasks(_) => WritesStayLocked(w, w', j);
      case CancelScan1(_) => OtherCancelKept(w, w', j);
      case CancelRows1(_, _) => OtherCancelKept(w, w', j);
      case CancelRead(_) => OtherCancelKept(w, w', j);
      case CancelUpdate(_) => OtherCancelKept(w, w', j);
      case CancelScan2(_) => OtherCancelKept(w, w', j);
      case CancelRows2(_, _) => OtherCancelKept(w, w', j);
      case _ => OtherRaiseOrResolveKept(w, w', j);
    }
  }

  /** `w'` differs from `w` only in what transaction `i` holds and has written. */
  ghost predicate Private(w: World, w': World, i: TxnId) {
    && i in w.txns && i in w'.txns && w'.txns == w.txns[i := w'.txns[i]]
    && w'.tasks == w.tasks && w'.asks == w.asks && w'.log == w.log && w.nextAsk <= w'.nextAsk
    && (forall t :: t in w.taskLock && w.taskLock[t] != i ==> t in w'.taskLock && w'.taskLock[t] == w.taskLock[t])
    && (forall a :: a in w.askLock && w.askLock[a] != i ==> a in w'.askLock && w'.askLock[a] == w.askLock[a])
    && (forall a :: a in w'.askLock ==> a in w.askLock || a < w'.nextAsk)
    && (forall t :: t in w'.taskLock ==> t in w.taskLock || t in w.tasks)
  }

  /** A statement of transaction `i` that commits nothing disturbs no other transaction. */
  lemma PrivateStepKeeps(w: World, w': World, i: TxnId)
    requires Inv(w) && Private(w, w', i) && TxnOk(w', i)
    ensures Inv(w')
  {
    forall j | j in w'.txns ensures TxnOk(w', j) {
      if j != i { OthersKept(w, w', j); }
    }
  }

  lemma WriteTaskPrivate(w: World, i: TxnId, t: TaskId, s: TaskState, pc: Pc)
    requires i in w.txns && TaskFree(w, i, t) && t in w.tasks
    ensures Private(w, WriteTask(w, i, t, s, pc), i)
  {
  }

  lemma WriteAskPrivate(w: World, i: TxnId, a: AskId, row: AskRow, pc: Pc)
    requires i in w.txns && AskFree(w, i, a) && a < w.nextAsk
    ensures Private(w, WriteAsk(w, i, a, row, pc), i)
  {
  }

  lemma MovePrivate(w: World, i: TxnId, pc: Pc)
    requires i in w.txns
    ensures Private(w, Move(w, i, pc), i)
  {
  }

  lemma SuspendOk(w: World, i: TxnId)
    requires i in w.txns && TxnOk(w, i) && CanAct(SHIPPED, w, i, Suspend)
    ensures var t := w.txns[i].pc.task;
            var w' := WriteTask(w, i, t, AwaitingOperator, RaiseInsert(t));
            Private(w, w', i) && TxnOk(w', i)
  {
    WriteTaskPrivate(w, i, w.txns[i].pc.task, AwaitingOperator, RaiseInsert(w.txns[i].pc.task));
  }

  lemma InsertAskOk(w: World, i: TxnId)
    requires i in w.txns && TxnOk(w, i) && w.txns[i].pc.RaiseInsert?
    requires forall a :: a in w.asks || a in w.askLock ==> a < w.nextAsk
    ensures var t := w.txns[i].pc.task;
            var w' := WriteAsk(w, i, w.nextAsk, AskRow(t, AskPending), RaiseCommit(t, w.nextAsk)).(nextAsk := w.nextAsk + 1);
            Private(w, w', i) && TxnOk(w', i)
  {
    var t := w.txns[i].pc.task;
    var w' := WriteAsk(w, i, w.nextAsk, AskRow(t, AskPending), RaiseCommit(t, w.nextAsk)).(nextAsk := w.nextAsk + 1);
    assert w'.txns[i].aw == map[w.nextAsk := AskRow(t, AskPending)];
  }

  lemma TakeAskOk(w: World, i: TxnId)
    requires i in w.txns && TxnOk(w, i) && CanAct(SHIPPED, w, i, TakeAsk) && w.txns[i].pc.ask < w.nextAsk
    ensures var a := w.txns[i].pc.ask;
            var w' := Retire(w, i, a, AskResolved, ResolveTask(a, w.asks[a].task));
            Private(w, w', i) && TxnOk(w', i)
  {
    var a := w.txns[i].pc.ask;
    RetireAddsOne(w, i, a, AskResolved, ResolveTask(a, w.asks[a].task));
  }

  lemma ResumeTaskOk(w: World, i: TxnId)
    requires i in w.txns && TxnOk(w, i) && CanAct(SHIPPED, w, i, ResumeTask)
    ensures var pc := w.txns[i].pc;
            var w' := WriteTask(w, i, pc.task, Pending, ResolveCommit(pc.ask, pc.task));
            Private(w, w', i) && TxnOk(w', i)
  {
    var pc := w.txns[i].pc;
    WriteTaskPrivate(w, i, pc.task, Pending, ResolveCommit(pc.ask, pc.task));
  }

  /** Retiring one more ask keeps every ask written so far retired. */
  lemma RetireAddsOne(w: World, i: TxnId, a: AskId, s: AskState, pc: Pc)
    requires i in w.txns && WritesLocked(w, i) && Retires(w, w.txns[i], s) && AskFree(w, i, a) && s != AskPending
    requires a in w.asks ==> a < w.nextAsk
    ensures var w' := Retire(w, i, a, s, pc);
            && Private(w, w', i) && WritesLocked(w', i)
            && w'.txns[i] == w.txns[i].(pc := pc, aw := RetiredWrites(w, w.txns[i], a, s))
            && Retires(w', w'.txns[i], s)
  {
    if a in w.asks && SeesPending(w, w.txns[i], a) {
      RetireWrites(w, i, a, s, pc);
    } else {
      MovePrivate(w, i, pc);
    }
  }

  lemma RetireWrites(w: World, i: TxnId, a: AskId, s: AskState, pc: Pc)
    requires i in w.txns && WritesLocked(w, i) && Retires(w, w.txns[i], s) && AskFree(w, i, a) && s != AskPending
    requires a in w.asks && a < w.nextAsk && SeesPending(w, w.txns[i], a)
    ensures var w' := WriteAsk(w, i, a, w.asks[a].(state := s), pc);
            Private(w, w', i) && WritesLocked(w', i) && Retires(w', w'.txns[i], s)
  {
    WriteAskPrivate(w, i, a, w.asks[a].(state := s), pc);
  }

  ghost function RetiredWrites(w: World, x: Txn, a: AskId, s: AskState): map<AskId, AskRow> {
    if a in w.asks && SeesPending(w, x, a) then x.aw[a := w.asks[a].(state := s)] else x.aw
  }

  lemma ExpireRowOk(w: World, i: TxnId, a: AskId)
    requires i in w.txns && TxnOk(w, i) && CanAct(SHIPPED, w, i, ExpireRow(a))
    requires a in w.asks ==> a < w.nextAsk
    ensures var w' := Retire(w, i, a, AskExpired, ExpireRows(w.txns[i].pc.todo - {a}));
            Private(w, w', i) && TxnOk(w', i)
  {
    RetireAddsOne(w, i, a, AskExpired, ExpireRows(w.txns[i].pc.todo - {a}));
  }

  /** The guard of `fail_awaiting_operator` never misses: the warning branch of
      `expire_due` is dead. */
  lemma ExpiredTaskAwaits(w: World, i: TxnId, a: AskId)
    requires Paired(w.tasks, w.asks)
    requires i in w.txns && TxnOk(w, i) && w.txns[i].pc.ExpireTasks? && a in w.txns[i].pc.todo
    ensures a in w.asks && CanFail(w, i, a)
  {
    var x := w.txns[i];
    assert Open(w.asks, a, x.aw[a].task);
    assert forall b, t :: Backs(x, b, t) ==> Open(w.asks, b, t);
  }

  lemma FailTaskOk(w: World, i: TxnId, a: AskId)
    requires i in w.txns && TxnOk(w, i) && CanAct(SHIPPED, w, i, FailTask(a)) && CanFail(w, i, a)
    requires w.asks[a].task in w.tasks
    ensures var w' := WriteTask(w, i, w.asks[a].task, Failed, ExpireTasks(w.txns[i].pc.todo - {a}));
            Private(w, w', i) && TxnOk(w', i)
  {
    var x := w.txns[i];
    var w' := WriteTask(w, i, w.asks[a].task, Failed, ExpireTasks(x.pc.todo - {a}));
    WriteTaskPrivate(w, i, w.asks[a].task, Failed, ExpireTasks(x.pc.todo - {a}));
    assert Open(w.asks, a, x.aw[a].task);
    FailedTasksBacked(x, w'.txns[i], a, w.asks[a].task);
    assert WritesLocked(w', i);
  }

  lemma FailedTasksBacked(x: Txn, x': Txn, a: AskId, t: TaskId)
    requires x.pc.ExpireTasks? && a in x.pc.todo && a in x.aw && x.aw[a].task == t
    requires FailsBacked(x)
    requires x' == x.(pc := ExpireTasks(x.pc.todo - {a}), tw := x.tw[t := Failed])
    ensures FailsBacked(x')
  {
    forall u | u in x'.tw ensures x'.tw[u] == Failed && exists b :: Backs(x', b, u) {
      if u == t {
        assert Backs(x', a, u);
      } else {
        var b :| Backs(x, b, u);
        assert Backs(x', b, u);
      }
    }
  }

  /** One row of the first sweep: what it scanned and is still open stays on the list or is now ours. */
  lemma SweepRow1Ok(w: World, i: TxnId, a: AskId)
    requires i in w.txns && TxnOk(w, i) && w.txns[i].pc.CancelRows1? && a in w.txns[i].pc.todo && AskFree(w, i, a)
    requires a in w.asks ==> a < w.nextAsk
    ensures var pc := w.txns[i].pc;
            var w' := Retire(w, i, a, AskCancelled, CancelRows1(pc.call, pc.todo - {a}));
            Private(w, w', i) && TxnOk(w', i)
  {
    var pc := w.txns[i].pc;
    RetireAddsOne(w, i, a, AskCancelled, CancelRows1(pc.call, pc.todo - {a}));
  }

  /** One row of the second sweep: every open ask of the task stays on the list or is now ours. */
  lemma SweepRow2Ok(w: World, i: TxnId, a: AskId)
    requires i in w.txns && TxnOk(w, i) && w.txns[i].pc.CancelRows2? && a in w.txns[i].pc.todo && AskFree(w, i, a)
    requires a in w.asks ==> a < w.nextAsk
    ensures var pc := w.txns[i].pc;
            var w' := Retire(w, i, a, AskCancelled, CancelRows2(pc.call, pc.todo - {a}));
            Private(w, w', i) && TxnOk(w', i)
  {
    var pc := w.txns[i].pc;
    RetireAddsOne(w, i, a, AskCancelled, CancelRows2(pc.call, pc.todo - {a}));
  }

  lemma Scan1Ok(w: World, i: TxnId)
    requires i in w.txns && TxnOk(w, i) && w.txns[i].pc.CancelScan1?
    ensures var w' := StartSweep1(w, i, w.txns[i].pc.call); Private(w, w', i) && TxnOk(w', i)
  {
  }

  lemma LockedReadOk(w: World, i: TxnId)
    requires i in w.txns && TxnOk(w, i) && w.txns[i].pc.CancelRead? && TaskFree(w, i, w.txns[i].pc.call.task)
    requires w.txns[i].pc.call.task in w.tasks
    ensures var call := w.txns[i].pc.call;
            var w' := Move(w, i, CancelUpdate(call.(prev := Some(w.tasks[call.task]), present := true))).(taskLock := w.taskLock[call.task := i]);
            Private(w, w', i) && TxnOk(w', i)
  {
    var call := w.txns[i].pc.call;
    var call' := call.(prev := Some(w.tasks[call.task]), present := true);
    var w' := Move(w, i, CancelUpdate(call')).(taskLock := w.taskLock[call.task := i]);
    assert CancelOk(w', i, call', {});
    assert WritesLocked(w', i);
  }

  /** With FOR UPDATE the state read is the state the guarded update will find. */
  lemma ReadStateOk(w: World, i: TxnId)
    requires i in w.txns && TxnOk(w, i) && w.txns[i].pc.CancelRead? && TaskFree(w, i, w.txns[i].pc.call.task)
    ensures var w' := ReadPrevious(SHIPPED, w, i, w.txns[i].pc.call); Private(w, w', i) && TxnOk(w', i)
  {
    var call := w.txns[i].pc.call;
    if call.task in w.tasks {
      LockedReadOk(w, i);
    } else {
      MovePrivate(w, i, CancelUpdate(call));
    }
  }

  lemma CancelTaskOk(w: World, i: TxnId)
    requires i in w.txns && TxnOk(w, i) && w.txns[i].pc.CancelUpdate? && TaskFree(w, i, w.txns[i].pc.call.task)
    requires w.txns[i].pc.call.task in w.tasks && Cancellable(w.tasks[w.txns[i].pc.call.task])
    ensures var call := w.txns[i].pc.call;
            var w' := WriteTask(w, i, call.task, Cancelled, CancelScan2(call));
            Private(w, w', i) && TxnOk(w', i)
  {
    var call := w.txns[i].pc.call;
    WriteTaskPrivate(w, i, call.task, Cancelled, CancelScan2(call));
  }

  /** With the task row locked, the second scan lists every open ask that is not already ours. */
  lemma Scan2Ok(w: World, i: TxnId)
    requires i in w.txns && TxnOk(w, i) && w.txns[i].pc.CancelScan2?
    ensures var call := w.txns[i].pc.call;
            var w' := Move(w, i, CancelRows2(call, PendingOf(w, w.txns[i], call.task)));
            Private(w, w', i) && TxnOk(w', i)
  {
  }

  lemma ScanDueOk(w: World, i: TxnId, due: set<AskId>)
    requires i in w.txns && TxnOk(w, i) && w.txns[i].pc.ExpireScan?
    ensures var w' := Move(w, i, ExpireRows(due)); Private(w, w', i) && TxnOk(w', i)
  {
    MovePrivate(w, i, ExpireRows(due));
  }

  lemma ExpireRowsDoneOk(w: World, i: TxnId)
    requires i in w.txns && TxnOk(w, i) && w.txns[i].pc.ExpireRows?
    ensures var w' := Move(w, i, ExpireTasks(w.txns[i].aw.Keys)); Private(w, w', i) && TxnOk(w', i)
  {
    MovePrivate(w, i, ExpireTasks(w.txns[i].aw.Keys));
  }

  lemma Sweep1DoneOk(w: World, i: TxnId)
    requires i in w.txns && TxnOk(w, i) && w.txns[i].pc.CancelRows1? && w.txns[i].pc.todo == {}
    ensures var w' := Move(w, i, CancelRead(w.txns[i].pc.call)); Private(w, w', i) && TxnOk(w', i)
  {
    MovePrivate(w, i, CancelRead(w.txns[i].pc.call));
  }

  lemma QuietMoveOk(w: World, i: TxnId, act: Act)
    requires i in w.txns && TxnOk(w, i) && CanAct(SHIPPED, w, i, act)
    requires act.ScanDue? || act.ExpireRowsDone? || act.Sweep1Done?
    ensures var w' := Perform(SHIPPED, w, i, act); Private(w, w', i) && TxnOk(w', i)
  {
    match act {
      case ScanDue(due) => ScanDueOk(w, i, due);
      case ExpireRowsDone => ExpireRowsDoneOk(w, i);
      case Sweep1Done => Sweep1DoneOk(w, i);
    }
  }

  /** Ids in use are behind the sequence. */
  ghost predicate IdsBehind(w: World) {
    forall a :: a in w.asks || a in w.askLock ==> a < w.nextAsk
  }

  lemma RaiseStatementOk(w: World, i: TxnId, act: Act)
    requires IdsBehind(w) && i in w.txns && TxnOk(w, i) && CanAct(SHIPPED, w, i, act) && (act.Suspend? || act.InsertAsk?)
    ensures var w' := Perform(SHIPPED, w, i, act); Private(w, w', i) && TxnOk(w', i)
  {
    match act {
      case Suspend => SuspendOk(w, i);
      case InsertAsk => InsertAskOk(w, i);
    }
  }

  lemma ResolveStatementOk(w: World, i: TxnId, act: Act)
    requires IdsBehind(w) && i in w.txns && TxnOk(w, i) && CanAct(SHIPPED, w, i, act) && (act.TakeAsk? || act.ResumeTask?)
    ensures var w' := Perform(SHIPPED, w, i, act); Private(w, w', i) && TxnOk(w', i)
  {
    match act {
      case TakeAsk => TakeAskOk(w, i);
      case ResumeTask => ResumeTaskOk(w, i);
    }
  }

  lemma ExpireStatementOk(w: World, i: TxnId, act: Act)
    requires IdsBehind(w) && Paired(w.tasks, w.asks) && i in w.txns && TxnOk(w, i) && CanAct(SHIPPED, w, i, act)
    requires act.ExpireRow? || act.FailTask?
    ensures var w' := Perform(SHIPPED, w, i, act); Private(w, w', i) && TxnOk(w', i)
  {
    match act {
      case ExpireRow(a) => ExpireRowOk(w, i, a);
      case FailTask(a) =>
        ExpiredTaskAwaits(w, i, a);
        assert Open(w.asks, a, w.asks[a].task);
        FailTaskOk(w, i, a);
    }
  }

  lemma AskStatementOk(w: World, i: TxnId, act: Act)
    requires Inv(w) && i in w.txns && CanAct(SHIPPED, w, i, act)
    requires act.Suspend? || act.InsertAsk? || act.TakeAsk? || act.ResumeTask? || act.ExpireRow? || act.FailTask?
    ensures var w' := Perform(SHIPPED, w, i, act); Private(w, w', i) && TxnOk(w', i)
  {
    if act.Suspend? || act.InsertAsk? {
      RaiseStatementOk(w, i, act);
    } else if act.TakeAsk? || act.ResumeTask? {
      ResolveStatementOk(w, i, act);
    } else {
      ExpireStatementOk(w, i, act);
    }
  }

  lemma CancelStatementOk(w: World, i: TxnId, act: Act)
    requires Inv(w) && i in w.txns && CanAct(SHIPPED, w, i, act)
    requires act.Scan1? || act.SweepRow? || act.ReadState? || act.CancelTask? || act.Scan2?
    ensures var w' := Perform(SHIPPED, w, i, act); Private(w, w', i) && TxnOk(w', i)
  {
    match act {
      case Scan1 => Scan1Ok(w, i);
      case SweepRow(a) => if w.txns[i].pc.CancelRows1? { SweepRow1Ok(w, i, a); } else { SweepRow2Ok(w, i, a); }
      case ReadState => ReadStateOk(w, i);
      case CancelTask => CancelTaskOk(w, i);
      case Scan2 => Scan2Ok(w, i);
    }
  }

  /** Every statement short of COMMIT and ROLLBACK leaves its own transaction consistent. */
  lemma StatementOk(w: World, i: TxnId, act: Act)
    requires Inv(w) && i in w.txns && CanAct(SHIPPED, w, i, act) && act != Commit && act != Abort
    ensures var w' := Perform(SHIPPED, w, i, act); Private(w, w', i) && TxnOk(w', i)
  {
    if act.Suspend? || act.InsertAsk? || act.TakeAsk? || act.ResumeTask? || act.ExpireRow? || act.FailTask? {
      AskStatementOk(w, i, act);
    } else if act.ScanDue? || act.ExpireRowsDone? || act.Sweep1Done? {
      QuietMoveOk(w, i, act);
    } else {
      CancelStatementOk(w, i, act);
    }
  }

  // ---- Commit and rollback -------------------------------------------------

  /** A commit retires open asks and adds a new one only for a task it suspends; it writes
      every open ask of every task it writes. */
  ghost predicate CommitShape(w: World, x: Txn) {
    && (forall t :: t in x.tw ==> t in w.tasks && !Terminal(w.tasks[t]))
    && (forall a :: a in x.aw ==> x.aw[a].task in x.tw)
    && (forall a :: a in x.aw && a in w.asks ==> Open(w.asks, a, x.aw[a].task) && x.aw[a].state != AskPending)
    && (forall a :: a in x.aw && a !in w.asks ==> x.aw[a].state == AskPending && x.tw[x.aw[a].task] == AwaitingOperator)
    && (forall a, b :: a in x.aw && b in x.aw && a !in w.asks && b !in w.asks ==> a == b)
    && (forall a, t :: Open(w.asks, a, t) && t in x.tw ==> a in x.aw)
    && (forall t :: t in x.tw && x.tw[t] == AwaitingOperator ==> exists a :: a !in w.asks && Open(x.aw, a, t))
  }

  lemma RaiseCommitShape(w: World, i: TxnId)
    requires Paired(w.tasks, w.asks) && i in w.txns && TxnOk(w, i) && w.txns[i].pc.RaiseCommit?
    ensures CommitShape(w, w.txns[i])
  {
    var x := w.txns[i];
    assert Open(x.aw, x.pc.ask, x.pc.task);
  }

  lemma ResolveCommitShape(w: World, i: TxnId)
    requires Paired(w.tasks, w.asks) && i in w.txns && TxnOk(w, i) && w.txns[i].pc.ResolveCommit?
    ensures CommitShape(w, w.txns[i])
  {
  }

  lemma ExpireCommitShape(w: World, i: TxnId)
    requires Paired(w.tasks, w.asks) && i in w.txns && TxnOk(w, i) && w.txns[i].pc == ExpireTasks({})
    ensures CommitShape(w, w.txns[i])
  {
    var x := w.txns[i];
    forall t | t in x.tw ensures !Terminal(w.tasks[t]) && forall a :: Open(w.asks, a, t) ==> a in x.aw {
      var b :| Backs(x, b, t);
      assert Open(w.asks, b, t);
    }
  }

  lemma CancelCommitShape(w: World, i: TxnId)
    requires i in w.txns && TxnOk(w, i) && w.txns[i].pc.CancelRows2? && w.txns[i].pc.todo == {}
    ensures CommitShape(w, w.txns[i])
  {
  }

  lemma CommitHasShape(w: World, i: TxnId)
    requires Inv(w) && i in w.txns && Committing(w.txns[i].pc)
    ensures CommitShape(w, w.txns[i]) && WritesLocked(w, i)
  {
    match w.txns[i].pc {
      case RaiseCommit(_, _) => RaiseCommitShape(w, i);
      case ResolveCommit(_, _) => ResolveCommitShape(w, i);
      case ExpireTasks(_) => ExpireCommitShape(w, i);
      case CancelRows2(_, _) => CancelCommitShape(w, i);
    }
  }

  /** The tables after transaction `x` commits. */
  function Merged(w: World, x: Txn): World {
    w.(tasks := w.tasks + x.tw, asks := w.asks + x.aw)
  }

  /** What a commit writes is locked by it, so it disturbs no other transaction. */
  lemma MergeLeavesOthers(w: World, i: TxnId, j: TxnId)
    requires i in w.txns && j in w.txns && i != j && CommitShape(w, w.txns[i])
    requires WritesLocked(w, i) && WritesLocked(w, j)
    ensures Undisturbed(w, Merged(w, w.txns[i]), j)
  {
    var x := w.txns[i];
    var w' := Merged(w, x);
    forall a, t | Open(w'.asks, a, t) && HoldsTask(w, j, t) ensures Open(w.asks, a, t) {
      assert a in x.aw ==> t in x.tw;
    }
  }

  lemma ReleaseLeavesOthers(w: World, w1: World, w': World, i: TxnId, j: TxnId)
    requires i != j && Undisturbed(w, w1, j) && w1.taskLock == w.taskLock && w1.askLock == w.askLock
    requires w' == Release(w1, i).(log := w'.log)
    ensures Undisturbed(w, w', j)
  {
  }

  lemma CommitKeepsPairing(w: World, x: Txn)
    requires Paired(w.tasks, w.asks) && CommitShape(w, x)
    ensures Paired(w.tasks + x.tw, w.asks + x.aw)
  {
    var tasks, asks := w.tasks + x.tw, w.asks + x.aw;
    forall a, t | Open(asks, a, t) ensures t in tasks && tasks[t] == AwaitingOperator {
      if a !in x.aw { assert Open(w.asks, a, t); }
    }
    forall a, b, t | Open(asks, a, t) && Open(asks, b, t) ensures a == b {
      if a !in x.aw { assert Open(w.asks, a, t); }
      if b !in x.aw { assert Open(w.asks, b, t); }
    }
    forall t | t in tasks && tasks[t] == AwaitingOperator ensures exists a :: Open(asks, a, t) {
      if t in x.tw {
        var a :| a !in w.asks && Open(x.aw, a, t);
        assert Open(asks, a, t);
      } else {
        var a :| Open(w.asks, a, t);
        assert Open(asks, a, t);
      }
    }
  }

  lemma CommitKeeps(w: World, i: TxnId)
    requires Inv(w) && i in w.txns && CanAct(SHIPPED, w, i, Commit)
    ensures Inv(CommitWrites(w, i))
  {
    var w' := CommitWrites(w, i);
    CommitHasShape(w, i);
    CommitKeepsPairing(w, w.txns[i]);
    forall j | j in w'.txns ensures TxnOk(w', j) {
      MergeLeavesOthers(w, i, j);
      ReleaseLeavesOthers(w, Merged(w, w.txns[i]), w', i, j);
      OthersKept(w, w', j);
    }
    CommitKeepsLog(w, i);
  }

  /** A cancelled task stays cancelled: a commit writes no terminal row. */
  lemma CommitKeepsOldLog(w: World, x: Txn, k: nat)
    requires LogOk(w) && k < |w.log| && CommitShape(w, x)
    ensures var t := w.log[k].call.task; t in w.tasks + x.tw && (w.tasks + x.tw)[t] == Cancelled
  {
    assert InState(w, w.log[k].call.task, Cancelled);
  }

  /** A committed cancel is logged truthfully. */
  lemma CommitLogsTruth(w: World, i: TxnId)
    requires i in w.txns && TxnOk(w, i) && w.txns[i].pc.CancelRows2?
    ensures var x := w.txns[i]; var t := x.pc.call.task;
            && t in w.tasks && Cancellable(w.tasks[t]) && PreviousOk(x.pc.call, w.tasks[t])
            && t in w.tasks + x.tw && (w.tasks + x.tw)[t] == Cancelled
  {
  }

  lemma CommitKeepsLog(w: World, i: TxnId)
    requires LogOk(w) && i in w.txns && TxnOk(w, i) && Committing(w.txns[i].pc) && CommitShape(w, w.txns[i])
    requires w.txns[i].pc.CancelRows2? ==> w.txns[i].pc.call.task in w.tasks
    ensures LogOk(CommitWrites(w, i))
  {
    var x := w.txns[i];
    forall k | 0 <= k < |w.log| ensures var t := w.log[k].call.task; t in w.tasks + x.tw && (w.tasks + x.tw)[t] == Cancelled {
      CommitKeepsOldLog(w, x, k);
    }
    if x.pc.CancelRows2? { CommitLogsTruth(w, i); }
  }

  lemma AbortKeeps(w: World, i: TxnId)
    requires Inv(w) && i in w.txns
    ensures Inv(Release(w, i))
  {
    forall j | j in w.txns && j != i ensures TxnOk(Release(w, i), j) {
      ReleaseLeavesOthers(w, w, Release(w, i), i, j);
      OthersKept(w, Release(w, i), j);
    }
  }

  /** A single-statement task update needs the row unlocked and touches no ask. */
  lemma TaskWriteKeeps(w: World, t: TaskId, to: TaskState)
    requires Inv(w) && t !in w.taskLock && to != AwaitingOperator
    requires t in w.tasks ==> w.tasks[t] != AwaitingOperator && !Terminal(w.tasks[t])
    ensures Inv(w.(tasks := w.tasks[t := to]))
  {
    var w' := w.(tasks := w.tasks[t := to]);
    forall j | j in w'.txns ensures TxnOk(w', j) {
      OthersKept(w, w', j);
    }
  }

  lemma BeginKeeps(w: World, i: TxnId, pc: Pc)
    requires Inv(w) && i !in w.txns && FirstPc(w, pc)
    ensures Inv(WithTxn(w, i, Txn(pc, map[], map[])))
  {
    var w' := WithTxn(w, i, Txn(pc, map[], map[]));
    forall j | j in w'.txns ensures TxnOk(w', j) {
      if j != i { OthersKept(w, w', j); }
    }
  }

  lemma StepKeeps(w: World, s: Step)
    requires Inv(w) && Enabled(SHIPPED, w, s)
    ensures Inv(Apply(SHIPPED, w, s))
  {
    match s {
      case InsertTask(t) => TaskWriteKeeps(w, t, Pending);
      case MoveTask(t, to) => TaskWriteKeeps(w, t, to);
      case Begin(i, pc) => BeginKeeps(w, i, pc);
      case Do(i, act) => ActKeeps(w, i, act);
    }
  }

  lemma ActKeeps(w: World, i: TxnId, act: Act)
    requires Inv(w) && i in w.txns && CanAct(SHIPPED, w, i, act)
    ensures Inv(Perform(SHIPPED, w, i, act))
  {
    if act == Commit {
      CommitKeeps(w, i);
    } else if act == Abort {
      AbortKeeps(w, i);
    } else {
      StatementOk(w, i, act);
      PrivateStepKeeps(w, Perform(SHIPPED, w, i, act), i);
    }
  }

  lemma {:induction false} RunKeeps(w: World, steps: seq<Step>)
    requires Inv(w) && Exec(SHIPPED, w, steps).Some?
    ensures Inv(Exec(SHIPPED, w, steps).value)
    decreases |steps|
  {
    if steps != [] {
      StepKeeps(w, steps[0]);
      RunKeeps(Apply(SHIPPED, w, steps[0]), steps[1..]);
    }
  }
}
