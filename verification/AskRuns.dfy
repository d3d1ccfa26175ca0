/**
 Whole-run guarantees of the ask/task protocol: what holds after every sequence of
 committed and rolled-back transactions, starting from empty tables.
 */
module AskRuns {
  import opened Lifecycle
  import opened AskSpec

  // ---- The invariant -------------------------------------------------------

  /** A task awaits the operator exactly when it has one pending ask; every other task has none. */
  ghost predicate Paired(db: Db) {
    && (forall a, t :: PendingAsk(db, a, t) ==> InState(db, t, AwaitingOperator))
    && (forall a, b, t :: PendingAsk(db, a, t) && PendingAsk(db, b, t) ==> a == b)
    && (forall t :: InState(db, t, AwaitingOperator) ==> exists a :: PendingAsk(db, a, t))
  }

  predicate Withdrawn(s: AskState) {
    s == AskExpired || s == AskCancelled
  }

  /** The answer's choice is a string, and one of the ask's options is that string. */
  predicate ChoseOption(ask: Ask, doc: Resolution) {
    doc.choice.Some? && exists k :: 0 <= k < |ask.options| && ask.options[k] == Some(doc.choice.value)
  }

  /** A resolved ask was answered strictly before its deadline with an option it offered. */
  predicate AskOk(ask: Ask) {
    && ask.options != []
    && ask.createdAt < ask.deadline
    && (ask.state == AskResolved <==> ask.answer.Some?)
    && (ask.answer.Some? ==> ask.answer.value.at < ask.deadline && ChoseOption(ask, ask.answer.value.resolution))
  }

  ghost predicate RowsOk(db: Db) {
    && (forall a :: a in db.asks ==> db.asks[a].task in db.tasks && AskOk(db.asks[a]))
    && (forall a, b :: a in db.asks && b in db.asks && db.asks[a].nonce == db.asks[b].nonce ==> a == b)
  }

  /** Withdrawing an ask ends its task, so a task has at most one withdrawn ask. */
  ghost predicate WithdrawalEnds(db: Db)
    requires RowsOk(db)
  {
    && (forall a :: a in WithdrawnAsks(db) ==> Terminal(db.tasks[db.asks[a].task].state))
    && OnePerTask(db, WithdrawnAsks(db))
  }

  ghost function WithdrawnAsks(db: Db): set<AskId> {
    set a | a in db.asks && Withdrawn(db.asks[a].state)
  }

  ghost predicate OnePerTask(db: Db, out: set<AskId>) {
    forall a, b :: a in out && b in out && a in db.asks && b in db.asks && db.asks[a].task == db.asks[b].task ==> a == b
  }

  ghost predicate Inv(db: Db) {
    Paired(db) && RowsOk(db) && WithdrawalEnds(db)
  }

  /** `finalize` is called with a terminal state; every other event is unrestricted. */
  predicate Legal(e: Event) {
    e.Finalize? ==> Terminal(e.to)
  }

  /** Terminal tasks and asks that left `pending` are unchanged. */
  ghost predicate Settled(db: Db, db': Db) {
    && (forall t :: t in db.tasks && Terminal(db.tasks[t].state) ==> t in db'.tasks && db'.tasks[t] == db.tasks[t])
    && (forall a :: a in db.asks && db.asks[a].state != AskPending ==> a in db'.asks && db'.asks[a] == db.asks[a])
  }

  // ---- Each transaction keeps it -------------------------------------------

  /** A guarded single-row update of a task that is neither suspended nor becoming so. */
  lemma TaskUpdateKeeps(db: Db, t: TaskId, task: Task)
    requires Inv(db) && t in db.tasks && task.state != AwaitingOperator
    requires db.tasks[t].state == Pending || db.tasks[t].state == Running
    ensures Inv(db.(tasks := db.tasks[t := task])) && Settled(db, db.(tasks := db.tasks[t := task]))
  {
    var db' := db.(tasks := db.tasks[t := task]);
    assert forall a, u :: PendingAsk(db', a, u) == PendingAsk(db, a, u);
    assert forall u :: InState(db', u, AwaitingOperator) == InState(db, u, AwaitingOperator);
  }

  lemma InsertKeeps(db: Db, t: TaskId, task: Task)
    requires Inv(db) && task.state == Pending && t !in db.tasks
    ensures var db' := db.(tasks := db.tasks[t := task]); Inv(db') && Settled(db, db')
  {
    var db' := db.(tasks := db.tasks[t := task]);
    assert forall a, u :: PendingAsk(db', a, u) == PendingAsk(db, a, u);
    assert forall u :: InState(db', u, AwaitingOperator) == InState(db, u, AwaitingOperator);
  }

  lemma SweepKeeps(db: Db, now: Time)
    requires Inv(db)
    ensures Inv(Sweeping(db, now)) && Settled(db, Sweeping(db, now))
  {
    var db' := Sweeping(db, now);
    assert forall a, u :: PendingAsk(db', a, u) == PendingAsk(db, a, u);
    assert forall u :: InState(db', u, AwaitingOperator) == InState(db, u, AwaitingOperator);
  }

  /** Changing only ask states and answers, and task states, keeps the row constraints. */
  lemma RowsKept(db: Db, db': Db)
    requires RowsOk(db) && db'.tasks.Keys == db.tasks.Keys && db'.asks.Keys == db.asks.Keys
    requires forall a :: a in db.asks ==>
      db'.asks[a].task == db.asks[a].task && db'.asks[a].nonce == db.asks[a].nonce && AskOk(db'.asks[a])
    ensures RowsOk(db')
  {
  }

  lemma CancelPairs(db: Db, t: TaskId)
    requires Paired(db)
    ensures Paired(Cancelling(db, t))
  {
    var db' := Cancelling(db, t);
    if t in db.tasks && Cancellable(db.tasks[t].state) {
      assert forall a, u :: PendingAsk(db', a, u) <==> PendingAsk(db, a, u) && u != t;
      assert forall u :: InState(db', u, AwaitingOperator) <==> InState(db, u, AwaitingOperator) && u != t;
    }
  }

  lemma CancelKeeps(db: Db, t: TaskId)
    requires Inv(db)
    ensures Inv(Cancelling(db, t)) && Settled(db, Cancelling(db, t))
  {
    CancelPairs(db, t);
    var db' := Cancelling(db, t);
    if t in db.tasks && Cancellable(db.tasks[t].state) {
      RowsKept(db, db');
      CancelWithdrawsOne(db, t);
    }
  }

  /** The task being cancelled had no withdrawn ask before and at most its pending one now. */
  lemma CancelWithdrawsOne(db: Db, t: TaskId)
    requires Inv(db) && t in db.tasks && Cancellable(db.tasks[t].state)
    ensures var db' := Cancelling(db, t);
            && OnePerTask(db', WithdrawnAsks(db'))
            && forall a :: a in WithdrawnAsks(db') ==> Terminal(db'.tasks[db'.asks[a].task].state)
  {
    var db' := Cancelling(db, t);
    assert forall a :: a in WithdrawnAsks(db') ==> PendingAsk(db, a, t) || (a in WithdrawnAsks(db) && db.asks[a].task != t);
  }

  lemma RaiseKeeps(db: Db, t: TaskId, ask: AskId, options: seq<Option<string>>, nonce: Hash, deadline: Time, now: Time)
    requires Inv(db)
    ensures var db' := Raising(db, t, ask, options, nonce, deadline, now); Inv(db') && Settled(db, db')
  {
    var db' := Raising(db, t, ask, options, nonce, deadline, now);
    if CanRaise(db, t, ask, options, nonce, deadline, now) {
      RaisePairs(db, t, ask, options, nonce, deadline, now);
      assert RowsOk(db');
      assert WithdrawnAsks(db') == WithdrawnAsks(db);
    }
  }

  lemma RaisePairs(db: Db, t: TaskId, ask: AskId, options: seq<Option<string>>, nonce: Hash, deadline: Time, now: Time)
    requires Paired(db) && CanRaise(db, t, ask, options, nonce, deadline, now)
    ensures Paired(Raising(db, t, ask, options, nonce, deadline, now))
  {
    var db' := Raising(db, t, ask, options, nonce, deadline, now);
    assert forall a, u :: PendingAsk(db', a, u) <==> PendingAsk(db, a, u) || (a == ask && u == t);
    assert forall u :: InState(db', u, AwaitingOperator) <==> InState(db, u, AwaitingOperator) || u == t;
    assert PendingAsk(db', ask, t);
  }

  lemma ResolveKeeps(db: Db, a: AskId, who: string, doc: Resolution, now: Time)
    requires Inv(db) && a in db.asks && Live(db.asks[a], now)
    ensures var db' := Resolving(db, a, who, doc, now); Inv(db') && Settled(db, db')
  {
    var db' := Resolving(db, a, who, doc, now);
    var t := db.asks[a].task;
    assert PendingAsk(db, a, t);
    if ResolveOutcome(db, a, doc) == Done {
      ResolvePairs(db, a, who, doc, now);
      RowsKept(db, db');
      assert WithdrawnAsks(db') == WithdrawnAsks(db);
    }
  }

  lemma ResolvePairs(db: Db, a: AskId, who: string, doc: Resolution, now: Time)
    requires Paired(db) && a in db.asks && Live(db.asks[a], now) && ResolveOutcome(db, a, doc) == Done
    ensures Paired(Resolving(db, a, who, doc, now))
  {
    var db' := Resolving(db, a, who, doc, now);
    var t := db.asks[a].task;
    assert PendingAsk(db, a, t);
    assert forall b, u :: PendingAsk(db', b, u) <==> PendingAsk(db, b, u) && b != a;
    assert forall u :: InState(db', u, AwaitingOperator) <==> InState(db, u, AwaitingOperator) && u != t;
  }

  lemma ExpirePairs(db: Db, took: set<AskId>, now: Time)
    requires Paired(db)
    ensures Paired(Expiring(db, took, now))
  {
    var db' := Expiring(db, took, now);
    assert forall a, u :: PendingAsk(db', a, u) <==> PendingAsk(db, a, u) && !Taken(db, took, a, now);
    assert forall a :: Taken(db, took, a, now) ==> PendingAsk(db, a, db.asks[a].task);
    assert forall u :: InState(db', u, AwaitingOperator) <==> InState(db, u, AwaitingOperator) && !TakenTask(db, took, u, now);
    forall u | InState(db', u, AwaitingOperator) ensures exists a :: PendingAsk(db', a, u) {
      var a :| PendingAsk(db, a, u);
      assert PendingAsk(db', a, u);
    }
  }

  lemma ExpireSettles(db: Db, took: set<AskId>, now: Time)
    ensures Settled(db, Expiring(db, took, now))
  {
  }

  lemma ExpireRows(db: Db, took: set<AskId>, now: Time)
    requires RowsOk(db)
    ensures RowsOk(Expiring(db, took, now))
  {
    RowsKept(db, Expiring(db, took, now));
  }

  lemma ExpireKeeps(db: Db, took: set<AskId>, now: Time)
    requires Inv(db)
    ensures Inv(Expiring(db, took, now)) && Settled(db, Expiring(db, took, now))
  {
    ExpirePairs(db, took, now);
    ExpireSettles(db, took, now);
    ExpireRows(db, took, now);
    ExpireWithdrawsOne(db, took, now);
  }

  /** Ask `a` is withdrawn by the step and its suspended task failed, or was withdrawn before. */
  ghost predicate NewOrOld(db: Db, db': Db, a: AskId)
    requires RowsOk(db) && a in db.asks
  {
    var t := db.asks[a].task;
    if a in WithdrawnAsks(db) then Terminal(db.tasks[t].state) && t in db'.tasks && db'.tasks[t] == db.tasks[t]
    else PendingAsk(db, a, t) && InState(db, t, AwaitingOperator) && InState(db', t, Failed)
  }

  lemma ExpireWithdraws(db: Db, took: set<AskId>, now: Time, a: AskId)
    requires Inv(db) && a in WithdrawnAsks(Expiring(db, took, now))
    ensures NewOrOld(db, Expiring(db, took, now), a)
  {
    var t := db.asks[a].task;
    if a !in WithdrawnAsks(db) {
      assert PendingAsk(db, a, t);
      assert Taken(db, took, a, now) && TakenTask(db, took, t, now);
    }
  }

  /** An expiring ask's task was suspended, so it had no withdrawn ask before and has one now. */
  lemma ExpireWithdrawsOne(db: Db, took: set<AskId>, now: Time)
    requires Inv(db)
    ensures var db' := Expiring(db, took, now);
            && OnePerTask(db', WithdrawnAsks(db'))
            && forall a :: a in WithdrawnAsks(db') ==> Terminal(db'.tasks[db'.asks[a].task].state)
  {
    var db' := Expiring(db, took, now);
    forall a | a in WithdrawnAsks(db') ensures NewOrOld(db, db', a) {
      ExpireWithdraws(db, took, now, a);
    }
    forall a, b | a in WithdrawnAsks(db') && b in WithdrawnAsks(db') && db'.asks[a].task == db'.asks[b].task ensures a == b {
      SameWithdrawal(db, db', a, b);
    }
  }

  lemma SameWithdrawal(db: Db, db': Db, a: AskId, b: AskId)
    requires Paired(db) && RowsOk(db) && WithdrawalEnds(db) && a in db.asks && b in db.asks && db.asks[a].task == db.asks[b].task
    requires NewOrOld(db, db', a) && NewOrOld(db, db', b)
    ensures a == b
  {
  }

  lemma StepKeeps(db: Db, e: Event)
    requires Inv(db) && Legal(e)
    ensures Inv(Step(db, e)) && Settled(db, Step(db, e))
  {
    match e
    case Insert(t, lane, owner, now) => if t !in db.tasks { InsertKeeps(db, t, Task(Pending, lane, now, owner, None)); }
    case Cancel(t) => CancelKeeps(db, t);
    case SweepCrashed(now) => SweepKeeps(db, now);
    case Raise(t, ask, options, nonce, deadline, now) => RaiseKeeps(db, t, ask, options, nonce, deadline, now);
    case Resolve(a, who, doc, now) => if a in db.asks && Live(db.asks[a], now) { ResolveKeeps(db, a, who, doc, now); }
    case ResolveNonce(nonce, c, doc, now) =>
      forall a | a in NonceMatches(db, nonce, c, now)
        ensures var db' := Resolving(db, a, Attribution(c), doc, now); Inv(db') && Settled(db, db')
      {
        ResolveKeeps(db, a, Attribution(c), doc, now);
      }
    case ExpireDue(took, now) => ExpireKeeps(db, took, now);
    case _ => if Step(db, e) != db { TaskUpdateKeeps(db, e.t, Step(db, e).tasks[e.t]); }
  }

  // ---- Runs ----------------------------------------------------------------

  /** The tables after the events of `es`, in commit order, from empty. */
  ghost function Run(es: seq<Event>): Db {
    if es == [] then EMPTY else Step(Run(es[..|es| - 1]), es[|es| - 1])
  }

  ghost predicate LegalRun(es: seq<Event>) {
    forall i :: 0 <= i < |es| ==> Legal(es[i])
  }

  /** In every reachable state a task is `awaiting_operator` exactly when it has one pending ask, every
      answer came in time with an offered choice, and a task has at most one expired or cancelled ask. */
  lemma {:induction false} RunInv(es: seq<Event>)
    requires LegalRun(es)
    ensures Inv(Run(es))
  {
    if es != [] {
      RunInv(es[..|es| - 1]);
      StepKeeps(Run(es[..|es| - 1]), es[|es| - 1]);
    }
  }

  /** Over every run an ask leaves `pending` at most once and no terminal state is left: what is settled
      after `es` is settled the same way after any continuation. */
  lemma {:induction false} RunSettles(es: seq<Event>, more: seq<Event>)
    requires LegalRun(es + more)
    ensures Settled(Run(es), Run(es + more))
  {
    if more == [] {
      assert es + more == es;
    } else {
      var init, last := more[..|more| - 1], more[|more| - 1];
      assert (es + more)[..|es + more| - 1] == es + init;
      assert forall i :: 0 <= i < |es + init| ==> (es + init)[i] == (es + more)[i];
      assert last == (es + more)[|es + more| - 1];
      RunSettles(es, init);
      RunInv(es + init);
      StepKeeps(Run(es + init), last);
    }
  }

  /** With the two tables paired, resolving a live ask never hits the "task cannot resume" error. */
  lemma ResolveNeverStranded(es: seq<Event>, a: AskId, doc: Resolution, now: Time)
    requires LegalRun(es) && a in Run(es).asks && Live(Run(es).asks[a], now)
    ensures ResolveOutcome(Run(es), a, doc) == if Offers(Run(es).asks[a], doc) then Done else Rejected
  {
    RunInv(es);
    assert PendingAsk(Run(es), a, Run(es).asks[a].task);
  }

  // ---- Claims --------------------------------------------------------------

  /** How often task `t` moved from `pending` to `running` in the run. */
  ghost function Claims(es: seq<Event>, t: TaskId): nat {
    if es == [] then 0
    else Claims(es[..|es| - 1], t) + (if InState(Run(es[..|es| - 1]), t, Pending) && InState(Run(es), t, Running) then 1 else 0)
  }

  ghost function ResolvedAsks(db: Db, t: TaskId): set<AskId> {
    set a | a in db.asks && db.asks[a].task == t && db.asks[a].state == AskResolved
  }

  /** A task newly `pending` is new or has one more resolved ask; only a pending task starts running. */
  ghost predicate Budgeted(db: Db, db': Db, t: TaskId) {
    && ResolvedAsks(db, t) <= ResolvedAsks(db', t)
    && (InState(db', t, Pending) && !InState(db, t, Pending) && t in db.tasks ==> ResolvedAsks(db, t) < ResolvedAsks(db', t))
    && (InState(db', t, Running) && !InState(db, t, Running) ==> InState(db, t, Pending))
    && (t in db'.tasks && t !in db.tasks ==> InState(db', t, Pending) && ResolvedAsks(db, t) == {})
    && (t in db.tasks ==> t in db'.tasks)
  }

  lemma ExpireBudgeted(db: Db, took: set<AskId>, now: Time, t: TaskId)
    ensures Budgeted(db, Expiring(db, took, now), t)
  {
  }

  lemma ResolvedSettled(db: Db, db': Db, t: TaskId)
    requires Settled(db, db')
    ensures ResolvedAsks(db, t) <= ResolvedAsks(db', t)
  {
  }

  lemma StepPaysForPending(db: Db, e: Event, t: TaskId)
    requires Inv(db) && Legal(e)
    ensures Budgeted(db, Step(db, e), t)
  {
    StepKeeps(db, e);
    ResolvedSettled(db, Step(db, e), t);
    match e
    case Resolve(a, who, doc, now) => if a in db.asks && Live(db.asks[a], now) { ResolvePays(db, a, who, doc, now, t); }
    case ResolveNonce(nonce, c, doc, now) =>
      forall a | a in NonceMatches(db, nonce, c, now) ensures Pays(db, Resolving(db, a, Attribution(c), doc, now), t) {
        ResolvePays(db, a, Attribution(c), doc, now, t);
      }
    case ExpireDue(took, now) => ExpireBudgeted(db, took, now, t);
    case _ =>
  }

  ghost predicate Pays(db: Db, db': Db, t: TaskId) {
    && db'.tasks.Keys == db.tasks.Keys
    && (InState(db', t, Pending) && !InState(db, t, Pending) ==> ResolvedAsks(db, t) < ResolvedAsks(db', t))
    && (InState(db', t, Running) ==> InState(db, t, Running))
  }

  lemma ResolvePays(db: Db, a: AskId, who: string, doc: Resolution, now: Time, t: TaskId)
    requires Inv(db) && a in db.asks && Live(db.asks[a], now)
    ensures Pays(db, Resolving(db, a, who, doc, now), t)
  {
    var db' := Resolving(db, a, who, doc, now);
    if ResolveOutcome(db, a, doc) == Done && t == db.asks[a].task {
      assert a in ResolvedAsks(db', t) && a !in ResolvedAsks(db, t);
      assert ResolvedAsks(db, t) <= ResolvedAsks(db', t);
    }
  }

  lemma ProperSubsetSmaller<T>(a: set<T>, b: set<T>)
    requires a <= b
    ensures |a| <= |b| && (a < b ==> |a| < |b|)
  {
    assert b == a + (b - a);
  }

  lemma {:induction false} ClaimBudget(es: seq<Event>, t: TaskId)
    requires LegalRun(es)
    ensures t !in Run(es).tasks ==> Claims(es, t) == 0
    ensures t in Run(es).tasks ==>
      Claims(es, t) + (if InState(Run(es), t, Pending) then 1 else 0) <= 1 + |ResolvedAsks(Run(es), t)|
  {
    if es != [] {
      var init, last := es[..|es| - 1], es[|es| - 1];
      ClaimBudget(init, t);
      RunInv(init);
      StepPaysForPending(Run(init), last, t);
      ProperSubsetSmaller(ResolvedAsks(Run(init), t), ResolvedAsks(Run(es), t));
    }
  }

  /** Over every run a task is claimed at most once more than the operator has answered for it. */
  lemma ClaimsBounded(es: seq<Event>, t: TaskId)
    requires LegalRun(es)
    ensures Claims(es, t) <= 1 + |ResolvedAsks(Run(es), t)|
  {
    ClaimBudget(es, t);
  }

  // ---- finalize's unchecked argument ---------------------------------------

  /** `finalize` keeps a paired database paired exactly when it does not move a running task
      to `awaiting_operator`, which its own guard lets through. */
  lemma FinalizePairedIff(db: Db, t: TaskId, to: TaskState)
    requires Paired(db)
    ensures Paired(Step(db, Finalize(t, to))) <==> !(InState(db, t, Running) && to == AwaitingOperator)
  {
    var db' := Step(db, Finalize(t, to));
    assert forall a, u :: PendingAsk(db', a, u) == PendingAsk(db, a, u);
    if InState(db, t, Running) && to == AwaitingOperator {
      assert InState(db', t, AwaitingOperator) && forall a :: !PendingAsk(db', a, t);
    } else {
      assert forall u :: InState(db', u, AwaitingOperator) == InState(db, u, AwaitingOperator);
    }
  }

  /** Such a call wedges the task: a claimed task finalized to `awaiting_operator` has no ask to end its wait. */
  lemma FinalizeCanWedge()
    ensures var db := Run([Insert(0, Fast, None, 0), Claim(0, 60), Finalize(0, AwaitingOperator)]);
            InState(db, 0, AwaitingOperator) && forall a :: !PendingAsk(db, a, 0)
  {
    var es := [Insert(0, Fast, None, 0), Claim(0, 60), Finalize(0, AwaitingOperator)];
    assert es[..2] == [Insert(0, Fast, None, 0), Claim(0, 60)];
    assert es[..2][..1] == [Insert(0, Fast, None, 0)];
    assert es[..2][..1][..0] == [];
    assert Run(es[..2][..1]).tasks == map[0 := Task(Pending, Fast, 0, None, None)];
  }

  // ---- Nonces --------------------------------------------------------------

  /** After every run a nonce matches at most one ask, and only the ask its task's own claimant may answer. */
  lemma NonceIdentifiesAsk(es: seq<Event>, nonce: Hash, c: Claimant, now: Time)
    requires LegalRun(es)
    ensures |NonceMatches(Run(es), nonce, c, now)| <= 1
    ensures forall c' :: c' != c && NonceMatches(Run(es), nonce, c, now) != {} ==> NonceMatches(Run(es), nonce, c', now) == {}
  {
    RunInv(es);
    var found := NonceMatches(Run(es), nonce, c, now);
    if found != {} {
      var a :| a in found;
      assert found == {a};
    }
  }

  // ---- What each guard lets through ----------------------------------------

  /** A cancel takes every task that has not ended, whatever else it was doing, and leaves an ended or unknown one alone. */
  lemma CancelTakesUnended(db: Db, t: TaskId)
    ensures t in db.tasks && db.tasks[t].state in {Pending, Running, AwaitingOperator} ==> InState(Step(db, Cancel(t)), t, Cancelled)
    ensures !(t in db.tasks && db.tasks[t].state in {Pending, Running, AwaitingOperator}) ==> Step(db, Cancel(t)) == db
    ensures t in db.tasks ==> (Terminal(db.tasks[t].state) <==> db.tasks[t].state !in {Pending, Running, AwaitingOperator})
  {
  }

  /** A pending ask is expired by a sweep exactly when the sweep took it and its deadline lies strictly before the
      reading; a sweep that takes every due ask expires every pending one that is late. */
  lemma ExpiresExactlyLate(db: Db, took: set<AskId>, now: Time, a: AskId)
    requires a in db.asks && db.asks[a].state == AskPending
    ensures a in Step(db, ExpireDue(took, now)).asks
    ensures Step(db, ExpireDue(took, now)).asks[a].state == (if a in took && db.asks[a].deadline < now then AskExpired else AskPending)
    ensures Step(db, ExpireDue(DueAt(db, now), now)).asks[a].state == if db.asks[a].deadline < now then AskExpired else AskPending
  {
  }

  /** After any run, a pending ask is resolved exactly when the answer comes strictly before its deadline and names
      one of its options; otherwise nothing changes. */
  lemma ResolvesExactlyInTime(es: seq<Event>, a: AskId, who: string, doc: Resolution, now: Time)
    requires LegalRun(es) && a in Run(es).asks && Run(es).asks[a].state == AskPending
    ensures var db := Run(es); var db' := Step(db, Resolve(a, who, doc, now)); var ask := db.asks[a];
      if now < ask.deadline && ChoseOption(ask, doc)
      then a in db'.asks && db'.asks[a] == ask.(state := AskResolved, answer := Some(Answer(now, who, doc))) && InState(db', ask.task, Pending)
      else db' == db
  {
    RunInv(es);
    assert PendingAsk(Run(es), a, Run(es).asks[a].task);
  }

  /** At one reading the operator's `tasks fail` takes a running task whose lease lies ahead, the crash sweep one whose
      lease lies behind, and neither one without a lease or with a lease at that very instant. */
  lemma LeaseDivides(db: Db, t: TaskId, now: Time)
    requires InState(db, t, Running)
    ensures var lease := db.tasks[t].lease;
      && (InState(Step(db, FailRunning(t, now)), t, Crashed) <==> lease.Some? && now < lease.value)
      && (InState(Step(db, SweepCrashed(now)), t, Crashed) <==> lease.Some? && lease.value < now)
      && (!InState(Step(db, FailRunning(t, now)), t, Crashed) ==> Step(db, FailRunning(t, now)) == db)
      && !(InState(Step(db, FailRunning(t, now)), t, Crashed) && InState(Step(db, SweepCrashed(now)), t, Crashed))
  {
  }
}
