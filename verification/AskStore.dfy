/**
 The transactions of db/src/asks.rs and db/src/tasks.rs as the statements they
 run, one after the other, on the two tables; an early return rolls back.
 */
module AskStore {
  import opened Lifecycle
  import opened AskSpec
  import opened Nul
  import AskRuns

  class Store {
    var tasks: map<TaskId, Task>
    var asks: map<AskId, Ask>
    var nextTask: TaskId
    var nextAsk: AskId

    ghost function View(): Db
      reads this
    {
      Db(tasks, asks)
    }

    /** The sequences are ahead of every id in use. */
    ghost predicate Valid()
      reads this
    {
      (forall t :: t in tasks ==> t < nextTask) && (forall a :: a in asks ==> a < nextAsk)
    }

    constructor ()
      ensures Valid() && View() == EMPTY
    {
      tasks, asks, nextTask, nextAsk := map[], map[], 0, 0;
    }

    /** A payload with a NUL anywhere is refused before any SQL. */
    method InsertPending(lane: Lane, owner: Option<Claimant>, payload: Json, now: Time) returns (id: Option<TaskId>)
      requires Valid()
      modifies this`tasks, this`nextTask
      ensures Valid() && (id.None? <==> ContainsNul(payload))
      ensures id.None? ==> View() == old(View())
      ensures id.Some? ==> id.value !in old(tasks) && View() == Step(old(View()), Insert(id.value, lane, owner, now))
    {
      if ContainsNul(payload) { return None; }
      id := Some(nextTask);
      tasks := tasks[nextTask := Task(Pending, lane, now, owner, None)];
      nextTask := nextTask + 1;
    }

    /** A pending task of the lane whose row no other transaction holds. */
    ghost predicate Claimable(t: TaskId, lane: Lane, locked: set<TaskId>)
      reads this
    {
      t in tasks && tasks[t].lane == lane && tasks[t].state == Pending && t !in locked
    }

    /** `locked` are the rows that SKIP LOCKED passes over. */
    method ClaimOne(lane: Lane, lease: Time, locked: set<TaskId>) returns (id: Option<TaskId>)
      requires Valid()
      modifies this`tasks, this`asks
      ensures Valid()
      ensures id.None? ==> View() == old(View()) && forall t :: !old(Claimable(t, lane, locked))
      ensures id.Some? ==>
        && old(Claimable(id.value, lane, locked))
        && (forall t :: old(Claimable(t, lane, locked)) ==> old(tasks)[id.value].createdAt <= old(tasks)[t].createdAt)
        && View() == Step(old(View()), Claim(id.value, lease))
    {
      var todo := tasks.Keys;
      id := None;
      while todo != {}
        invariant View() == old(View()) && todo <= tasks.Keys
        invariant id.Some? ==> Claimable(id.value, lane, locked)
        invariant forall t :: Claimable(t, lane, locked) && t !in todo ==>
          id.Some? && tasks[id.value].createdAt <= tasks[t].createdAt
        decreases |todo|
      {
        var t :| t in todo;
        todo := todo - {t};
        if tasks[t].lane == lane && tasks[t].state == Pending && t !in locked {
          if id.None? || tasks[t].createdAt < tasks[id.value].createdAt { id := Some(t); }
        }
      }
      if id.Some? {
        tasks := tasks[id.value := tasks[id.value].(state := Running, lease := Some(lease))];
      }
    }

    /** A task that is not running is left alone; a running one ends for good unless `to` is not terminal. */
    method Finalize(t: TaskId, to: TaskState)
      requires Valid()
      modifies this`tasks, this`asks
      ensures Valid()
      ensures View() == Step(old(View()), Event.Finalize(t, to))
      ensures InState(View(), t, Running) ==> to == Running
      ensures !InState(old(View()), t, Running) ==> View() == old(View())
      ensures AskRuns.Paired(old(View())) ==>
        (AskRuns.Paired(View()) <==> !(InState(old(View()), t, Running) && to == AwaitingOperator))
    {
      if AskRuns.Paired(View()) { AskRuns.FinalizePairedIff(View(), t, to); }
      if t in tasks && tasks[t].state == Running { tasks := tasks[t := tasks[t].(state := to)]; }
    }

    /** `asks::cancel_for_task`: afterwards no ask of `t` is pending, so a second sweep moves nothing; every
        other ask is untouched, and with the tables paired at most one moved. */
    method CancelForTask(t: TaskId) returns (moved: set<AskId>)
      requires Valid()
      modifies this`asks
      ensures Valid()
      ensures forall a :: a in moved <==> PendingAsk(old(View()), a, t)
      ensures asks.Keys == old(asks).Keys && forall a :: !PendingAsk(View(), a, t)
      ensures forall a :: a in old(asks) && a !in moved ==> asks[a] == old(asks)[a]
      ensures forall a :: a in old(asks) && a in moved ==> asks[a] == old(asks)[a].(state := AskCancelled)
      ensures moved == {} ==> View() == old(View())
      ensures AskRuns.Paired(old(View())) ==> (|moved| == if InState(old(View()), t, AwaitingOperator) then 1 else 0)
    {
      moved := WithdrawAsks(t);
      if AskRuns.Paired(old(View())) { OnePending(old(View()), t, moved); }
    }

    /** The guarded UPDATE itself. */
    method WithdrawAsks(t: TaskId) returns (moved: set<AskId>)
      requires Valid()
      modifies this`asks
      ensures Valid() && moved == PendingOf(old(View()), t) && asks == Withdrawing(old(View()), t)
    {
      moved := set a | a in asks && asks[a].task == t && asks[a].state == AskPending;
      asks := map a | a in asks :: if a in moved then asks[a].(state := AskCancelled) else asks[a];
    }


    /** `tasks::mark_cancelled`: both sweeps, the previous state, and the count of asks withdrawn. */
    method MarkCancelled(t: TaskId) returns (previous: Option<TaskState>, withdrawn: nat)
      requires Valid()
      modifies this`tasks, this`asks
      ensures Valid()
      ensures View() == Step(old(View()), Cancel(t))
      ensures previous.Some? <==> t in old(tasks) && Cancellable(old(tasks)[t].state)
      ensures previous.Some? ==>
        && previous.value == old(tasks)[t].state
        && withdrawn == |PendingOf(old(View()), t)|
      ensures previous.None? ==> withdrawn == 0
      ensures t in old(tasks) && old(tasks)[t].state in {Pending, Running, AwaitingOperator} ==>
        previous == Some(old(tasks)[t].state) && t in tasks && tasks[t].state == Cancelled
      ensures !(t in old(tasks) && old(tasks)[t].state in {Pending, Running, AwaitingOperator}) ==>
        previous == None && View() == old(View())
    {
      var savedAsks := asks;
      var first := WithdrawAsks(t);
      if t !in tasks || !Cancellable(tasks[t].state) {
        asks := savedAsks;
        return None, 0;
      }
      previous := Some(tasks[t].state);
      tasks := tasks[t := tasks[t].(state := Cancelled)];
      SweptTwice(old(View()), View(), t);
      var second := WithdrawAsks(t);
      withdrawn := |first| + |second|;
    }

    method MarkCancelledIfPending(t: TaskId) returns (moved: bool)
      requires Valid()
      modifies this`tasks, this`asks
      ensures Valid()
      ensures View() == Step(old(View()), CancelIfPending(t))
      ensures moved <==> InState(old(View()), t, Pending)
    {
      moved := t in tasks && tasks[t].state == Pending;
      if moved { tasks := tasks[t := tasks[t].(state := Cancelled)]; }
    }

    method MarkFailedRunning(t: TaskId, now: Time) returns (moved: bool)
      requires Valid()
      modifies this`tasks, this`asks
      ensures Valid()
      ensures View() == Step(old(View()), FailRunning(t, now))
      ensures moved <==> View() != old(View())
    {
      moved := t in tasks && tasks[t].state == Running && tasks[t].lease.Some? && tasks[t].lease.value > now;
      if moved {
        tasks := tasks[t := tasks[t].(state := Crashed)];
        assert tasks[t] != old(tasks)[t];
      }
    }

    method SweepCrashed(now: Time) returns (swept: set<TaskId>)
      requires Valid()
      modifies this`tasks, this`asks
      ensures Valid()
      ensures View() == Step(old(View()), Event.SweepCrashed(now))
      ensures forall t :: t in swept <==> t in tasks && tasks[t] != old(tasks)[t]
    {
      swept := set t | t in tasks && LeaseElapsed(tasks[t], now);
      tasks := map t | t in tasks :: if LeaseElapsed(tasks[t], now) then tasks[t].(state := Crashed) else tasks[t];
    }

    /** The sequence gives the INSERT its id before the constraints are checked, so a refused ask leaves a gap. */
    method Raise(t: TaskId, options: seq<Option<string>>, nonce: Hash, deadline: Time, now: Time) returns (ask: Option<AskId>)
      requires Valid()
      modifies this`tasks, this`asks, this`nextAsk
      ensures Valid() && old(nextAsk) !in old(asks)
      ensures View() == Step(old(View()), Event.Raise(t, old(nextAsk), options, nonce, deadline, now))
      ensures ask.Some? <==> CanRaise(old(View()), t, old(nextAsk), options, nonce, deadline, now)
      ensures ask.Some? ==> ask.value == old(nextAsk) && PendingAsk(View(), ask.value, t)
    {
      if t !in tasks || tasks[t].state != Running { return None; }
      var savedTasks := tasks;
      tasks := tasks[t := tasks[t].(state := AwaitingOperator, lease := None)];
      var id := nextAsk;
      nextAsk := nextAsk + 1;
      // The CHECK constraints and the two unique indexes of the INSERT.
      if options == [] || deadline <= now
        || (exists a :: a in asks && asks[a].nonce == nonce)
        || (exists a :: a in asks && asks[a].task == t && asks[a].state == AskPending)
      {
        tasks := savedTasks;
        return None;
      }
      asks := asks[id := Ask(t, options, nonce, AskPending, now, deadline, None)];
      ask := Some(id);
    }

    /** The shared tail of both resolvers: the guarded UPDATE has found ask `a`. */
    method FinishResolve(a: AskId, who: string, doc: Resolution, now: Time) returns (r: Outcome)
      requires Valid() && a in asks && Live(asks[a], now)
      modifies this`tasks, this`asks
      ensures Valid()
      ensures View() == Resolving(old(View()), a, who, doc, now)
      ensures r == ResolveOutcome(old(View()), a, doc)
      ensures AskRuns.Paired(old(View())) ==> r == if Offers(old(asks)[a], doc) then Done else Rejected
    {
      assert PendingAsk(View(), a, asks[a].task);
      var savedAsks := asks;
      asks := asks[a := asks[a].(state := AskResolved, answer := Some(Answer(now, who, doc)))];
      if !Offers(asks[a], doc) {
        asks := savedAsks;
        return Rejected;
      }
      var t := asks[a].task;
      if t !in tasks || tasks[t].state != AwaitingOperator {
        asks := savedAsks;
        return CannotResume;
      }
      tasks := tasks[t := tasks[t].(state := Pending)];
      r := Done;
    }

    method Resolve(a: AskId, who: string, doc: Resolution, now: Time) returns (r: Outcome)
      requires Valid()
      modifies this`tasks, this`asks
      ensures Valid()
      ensures View() == Step(old(View()), Event.Resolve(a, who, doc, now))
      ensures r == Lost <==> !(a in old(asks) && Live(old(asks)[a], now))
      ensures r == Done <==> View() != old(View())
      ensures AskRuns.Paired(old(View())) ==> r != CannotResume
    {
      if a !in asks || !Live(asks[a], now) { return Lost; }
      r := FinishResolve(a, who, doc, now);
      if r == Done { assert View().asks[a] != old(asks)[a]; }
    }

    /** Resolves the one ask the nonce and the claimant name; `ask` is that row. */
    method ResolveWithNonce(nonce: Hash, c: Claimant, doc: Resolution, now: Time) returns (r: Outcome, ghost ask: Option<AskId>)
      requires Valid()
      modifies this`tasks, this`asks
      ensures Valid()
      ensures r == Lost <==> NonceMatches(old(View()), nonce, c, now) == {}
      ensures r == Lost ==> View() == old(View()) && ask == None
      ensures r != Lost ==>
        && ask.Some? && ask.value in NonceMatches(old(View()), nonce, c, now)
        && View() == Resolving(old(View()), ask.value, Attribution(c), doc, now)
      ensures AskRuns.Inv(old(View())) ==> View() == Step(old(View()), ResolveNonce(nonce, c, doc, now)) && r != CannotResume
      ensures r == Done ==> ask.value in asks && asks[ask.value].answer.Some? && asks[ask.value].answer.value.who == c.channel + "/" + c.peer
    {
      ask := None;
      var found := set a | a in asks && asks[a].nonce == nonce && Live(asks[a], now)
        && asks[a].task in tasks && tasks[asks[a].task].owner == Some(c);
      assert found == NonceMatches(View(), nonce, c, now);
      if found == {} { return Lost, None; }
      var a :| a in found;
      ask := Some(a);
      ghost var db := View();
      assert AskRuns.Inv(db) ==> found == {a};
      r := FinishResolve(a, Attribution(c), doc, now);
    }

    /** `any_live_nonce_for_claimant` answers exactly whether resolution would accept one of the nonces. */
    method AnyLiveNonce(nonces: seq<Hash>, c: Claimant, now: Time) returns (found: bool)
      ensures found <==> exists n :: n in nonces && NonceMatches(View(), n, c, now) != {}
    {
      if nonces == [] { return false; }
      found := exists a :: a in asks && asks[a].nonce in nonces && LiveForClaimant(Db(tasks, asks), a, c, now);
      if found {
        ghost var a :| a in asks && asks[a].nonce in nonces && LiveForClaimant(View(), a, c, now);
        assert a in NonceMatches(View(), asks[a].nonce, c, now);
      } else {
        assert forall n :: n in nonces ==> NonceMatches(View(), n, c, now) == {};
      }
    }

    /** The loop of `expire_due`: fail each retired ask's task, reporting the asks whose task moved. */
    method FailTasksOf(due: set<AskId>) returns (out: set<AskId>)
      requires due <= asks.Keys && Valid()
      modifies this`tasks
      ensures Valid()
      ensures tasks == FailedSoFar(old(tasks), TasksOf(asks, due))
      ensures out <= due
      ensures EachSuspendsOwnTask(old(tasks), asks, due) ==> out == due
    {
      out := {};
      var todo := due;
      while todo != {}
        invariant todo <= due && out <= due - todo
        invariant tasks == FailedSoFar(old(tasks), TasksOf(asks, due - todo))
        invariant EachSuspendsOwnTask(old(tasks), asks, due) ==> out == due - todo
        decreases todo
      {
        var a :| a in todo;
        var t := asks[a].task;
        assert due - (todo - {a}) == (due - todo) + {a};
        FailOneMore(old(tasks), asks, due - todo, a);
        if t in tasks && tasks[t].state == AwaitingOperator {
          tasks := tasks[t := tasks[t].(state := Failed)];
          out := out + {a};
        }
        todo := todo - {a};
      }
      assert due - todo == due;
    }

    /** One transaction over the whole sweep; `out` are the asks reported for audit. */
    method ExpireDue(now: Time) returns (out: set<AskId>)
      requires Valid()
      modifies this`tasks, this`asks
      ensures Valid()
      ensures View() == Step(old(View()), Event.ExpireDue(DueAt(old(View()), now), now))
      ensures forall a :: a in out ==> a in old(asks) && Due(old(asks)[a], now)
      ensures AskRuns.Paired(old(View())) ==> out == set a | a in old(asks) && Due(old(asks)[a], now)
    {
      ghost var db := View();
      var due := set a | a in asks && Due(asks[a], now);
      asks := map a | a in asks :: if Due(asks[a], now) then asks[a].(state := AskExpired) else asks[a];
      out := FailTasksOf(due);
      FailedIsExpiring(db, now, due);
      assert TasksOf(asks, due) == TasksOf(db.asks, due);
      if AskRuns.Paired(db) { PairedSuspends(db, due, asks); }
    }
  }

  ghost function TasksOf(asks: map<AskId, Ask>, due: set<AskId>): set<TaskId> {
    set a | a in due && a in asks :: asks[a].task
  }

  /** The tasks table once the suspended tasks among `handled` have failed. */
  ghost function FailedSoFar(tasks: map<TaskId, Task>, handled: set<TaskId>): map<TaskId, Task> {
    map t | t in tasks :: if tasks[t].state == AwaitingOperator && t in handled then tasks[t].(state := Failed) else tasks[t]
  }

  /** No two asks of `due` share a task, and every task of theirs awaits the operator. */
  ghost predicate EachSuspendsOwnTask(tasks: map<TaskId, Task>, asks: map<AskId, Ask>, due: set<AskId>) {
    && (forall a :: a in due && a in asks ==> asks[a].task in tasks && tasks[asks[a].task].state == AwaitingOperator)
    && (forall a, b :: a in due && b in due && a in asks && b in asks && asks[a].task == asks[b].task ==> a == b)
  }

  lemma FailOneMore(tasks: map<TaskId, Task>, asks: map<AskId, Ask>, done: set<AskId>, a: AskId)
    requires a in asks && a !in done
    ensures var t := asks[a].task;
            var before, after := FailedSoFar(tasks, TasksOf(asks, done)), FailedSoFar(tasks, TasksOf(asks, done + {a}));
            && after == (if t in before && before[t].state == AwaitingOperator then before[t := before[t].(state := Failed)] else before)
            && (EachSuspendsOwnTask(tasks, asks, done + {a}) ==> t in before && before[t].state == AwaitingOperator)
  {
    assert TasksOf(asks, done + {a}) == TasksOf(asks, done) + {asks[a].task};
  }

  lemma FailedIsExpiring(db: Db, now: Time, due: set<AskId>)
    requires due == set a | a in db.asks && Due(db.asks[a], now)
    ensures FailedSoFar(db.tasks, TasksOf(db.asks, due)) == Expiring(db, due, now).tasks
  {
    assert forall a :: a in due <==> Taken(db, due, a, now);
    assert forall t :: t in TasksOf(db.asks, due) <==> TakenTask(db, due, t, now);
  }

  ghost function PendingOf(db: Db, t: TaskId): set<AskId> {
    set a | a in db.asks && PendingAsk(db, a, t)
  }

  ghost function Withdrawing(db: Db, t: TaskId): map<AskId, Ask> {
    map a | a in db.asks :: if PendingAsk(db, a, t) then db.asks[a].(state := AskCancelled) else db.asks[a]
  }

  /** Run alone, the second sweep finds nothing more. */
  lemma SweptTwice(db: Db, mid: Db, t: TaskId)
    requires mid.asks == Withdrawing(db, t)
    ensures PendingOf(mid, t) == {} && Withdrawing(mid, t) == mid.asks
  {
  }

  /** With the tables paired, a task has one pending ask or none. */
  lemma OnePending(db: Db, t: TaskId, found: set<AskId>)
    requires AskRuns.Paired(db) && forall a :: a in found <==> PendingAsk(db, a, t)
    ensures |found| == if InState(db, t, AwaitingOperator) then 1 else 0
  {
    if InState(db, t, AwaitingOperator) {
      var a: AskId :| PendingAsk(db, a, t);
      assert forall b :: b in found ==> b == a;
      assert found == {a};
    } else {
      assert found == {};
    }
  }

  /** With the tables paired, every due ask suspends a task of its own. */
  lemma PairedSuspends(db: Db, due: set<AskId>, asks: map<AskId, Ask>)
    requires AskRuns.Paired(db) && asks.Keys == db.asks.Keys
    requires forall a :: a in due ==> a in db.asks && db.asks[a].state == AskPending && asks[a].task == db.asks[a].task
    ensures EachSuspendsOwnTask(db.tasks, asks, due)
  {
    assert forall a :: a in due ==> PendingAsk(db, a, asks[a].task);
  }
}
