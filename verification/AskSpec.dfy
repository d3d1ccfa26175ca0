/**
 The `tasks` and `asks` tables and the effect of each committed transaction of
 db/src/tasks.rs and db/src/asks.rs on them. `now` is the database clock the
 transaction read; nothing relates the clocks of different transactions. An ask's
 nonce is represented by its stored hash.
 */
module AskSpec {
  import opened Lifecycle

  type TaskId = nat
  type AskId = nat
  type Time = int
  type Hash = string

  datatype Lane = Fast | Long

  datatype Claimant = Claimant(channel: string, peer: string)

  /** `owner` is the (channel, peer) of a channel task's payload. */
  datatype Task = Task(state: TaskState, lane: Lane, createdAt: Time, owner: Option<Claimant>, lease: Option<Time>)

  /** A resolution document: `choice` is None when the document names no string choice. */
  datatype Resolution = Resolution(choice: Option<string>, freeText: Option<string>)

  /** What a resolved row carries, all or nothing. */
  datatype Answer = Answer(at: Time, who: string, resolution: Resolution)

  /** An element of `options` is Some when it is a JSON string. */
  datatype Ask = Ask(task: TaskId, options: seq<Option<string>>, nonce: Hash, state: AskState,
                     createdAt: Time, deadline: Time, answer: Option<Answer>)

  datatype Db = Db(tasks: map<TaskId, Task>, asks: map<AskId, Ask>)

  const EMPTY := Db(map[], map[])

  datatype Outcome = Lost | Rejected | CannotResume | Done

  /** Ids come from sequences that a rollback does not rewind, so an event names the id it was given. An
      expiry names the rows its UPDATE took: an ask committed after its snapshot is left for the next one. */
  datatype Event =
    | Insert(t: TaskId, lane: Lane, owner: Option<Claimant>, now: Time)
    | Claim(t: TaskId, lease: Time)
    | Finalize(t: TaskId, to: TaskState)
    | Cancel(t: TaskId)
    | CancelIfPending(t: TaskId)
    | FailRunning(t: TaskId, now: Time)
    | SweepCrashed(now: Time)
    | Raise(t: TaskId, a: AskId, options: seq<Option<string>>, nonce: Hash, deadline: Time, now: Time)
    | Resolve(a: AskId, who: string, doc: Resolution, now: Time)
    | ResolveNonce(nonce: Hash, claimant: Claimant, doc: Resolution, now: Time)
    | ExpireDue(took: set<AskId>, now: Time)

  // ---- Row predicates ------------------------------------------------------

  predicate InState(db: Db, t: TaskId, s: TaskState) {
    t in db.tasks && db.tasks[t].state == s
  }

  predicate PendingAsk(db: Db, a: AskId, t: TaskId) {
    a in db.asks && db.asks[a].task == t && db.asks[a].state == AskPending
  }

  /** `state = 'pending' AND deadline_at > now()`. */
  predicate Live(ask: Ask, now: Time) {
    ask.state == AskPending && ask.deadline > now
  }

  /** `state = 'pending' AND deadline_at < now()`. */
  predicate Due(ask: Ask, now: Time) {
    ask.state == AskPending && ask.deadline < now
  }

  /** The shared WHERE tail of the two by-nonce statements: the ask is live and its
      task belongs to the claimant. */
  predicate LiveForClaimant(db: Db, a: AskId, c: Claimant, now: Time) {
    && a in db.asks
    && Live(db.asks[a], now)
    && db.asks[a].task in db.tasks
    && db.tasks[db.asks[a].task].owner == Some(c)
  }

  predicate Offers(ask: Ask, doc: Resolution) {
    doc.choice.Some? && doc.choice in ask.options
  }

  /** Ask `a` is due and among the rows the sweep took. */
  predicate Taken(db: Db, took: set<AskId>, a: AskId, now: Time) {
    a in took && a in db.asks && Due(db.asks[a], now)
  }

  predicate TakenTask(db: Db, took: set<AskId>, t: TaskId, now: Time) {
    exists a :: a in db.asks && Taken(db, took, a, now) && db.asks[a].task == t
  }

  function DueAt(db: Db, now: Time): set<AskId> {
    set a | a in db.asks && Due(db.asks[a], now)
  }

  function Attribution(c: Claimant): string {
    c.channel + "/" + c.peer
  }

  // ---- Transactions --------------------------------------------------------

  function SetState(db: Db, t: TaskId, s: TaskState): Db
    requires t in db.tasks
  {
    db.(tasks := db.tasks[t := db.tasks[t].(state := s)])
  }

  function Guarded(db: Db, t: TaskId, from: set<TaskState>, to: TaskState): Db {
    if t in db.tasks && db.tasks[t].state in from then SetState(db, t, to) else db
  }

  function Cancelling(db: Db, t: TaskId): Db {
    if t in db.tasks && Cancellable(db.tasks[t].state)
    then SetState(db, t, Cancelled).(
      asks := map a | a in db.asks :: if PendingAsk(db, a, t) then db.asks[a].(state := AskCancelled) else db.asks[a])
    else db
  }

  predicate CanRaise(db: Db, t: TaskId, ask: AskId, options: seq<Option<string>>, nonce: Hash, deadline: Time, now: Time) {
    && InState(db, t, Running)
    && ask !in db.asks
    && options != []
    && deadline > now
    && (forall a :: a in db.asks ==> db.asks[a].nonce != nonce)
    && (forall a :: a in db.asks ==> !PendingAsk(db, a, t))
  }

  function Raising(db: Db, t: TaskId, ask: AskId, options: seq<Option<string>>, nonce: Hash, deadline: Time, now: Time): Db {
    if CanRaise(db, t, ask, options, nonce, deadline, now)
    then db.(tasks := db.tasks[t := db.tasks[t].(state := AwaitingOperator, lease := None)],
             asks := db.asks[ask := Ask(t, options, nonce, AskPending, now, deadline, None)])
    else db
  }

  /** What resolving the live ask `a` would come to. */
  function ResolveOutcome(db: Db, a: AskId, doc: Resolution): Outcome
    requires a in db.asks
  {
    if !Offers(db.asks[a], doc) then Rejected
    else if !InState(db, db.asks[a].task, AwaitingOperator) then CannotResume
    else Done
  }

  function Resolving(db: Db, a: AskId, who: string, doc: Resolution, now: Time): Db
    requires a in db.asks
  {
    if ResolveOutcome(db, a, doc) == Done
    then SetState(db, db.asks[a].task, Pending).(
      asks := db.asks[a := db.asks[a].(state := AskResolved, answer := Some(Answer(now, who, doc)))])
    else db
  }

  function Expiring(db: Db, took: set<AskId>, now: Time): Db {
    db.(tasks := map t | t in db.tasks ::
          if db.tasks[t].state == AwaitingOperator && TakenTask(db, took, t, now) then db.tasks[t].(state := Failed) else db.tasks[t],
        asks := map a | a in db.asks :: if Taken(db, took, a, now) then db.asks[a].(state := AskExpired) else db.asks[a])
  }

  predicate LeaseElapsed(task: Task, now: Time) {
    task.state == Running && task.lease.Some? && task.lease.value < now
  }

  function Sweeping(db: Db, now: Time): Db {
    db.(tasks := map t | t in db.tasks ::
          if LeaseElapsed(db.tasks[t], now) then db.tasks[t].(state := Crashed) else db.tasks[t])
  }

  /** The asks a by-nonce resolution matches. */
  function NonceMatches(db: Db, nonce: Hash, c: Claimant, now: Time): set<AskId> {
    set a | a in db.asks && db.asks[a].nonce == nonce && LiveForClaimant(db, a, c, now)
  }

  /** The state after the transaction of event `e` commits or rolls back. */
  ghost function Step(db: Db, e: Event): Db {
    match e
    case Insert(t, lane, owner, now) =>
      if t in db.tasks then db else db.(tasks := db.tasks[t := Task(Pending, lane, now, owner, None)])
    case Claim(t, lease) =>
      if InState(db, t, Pending) then db.(tasks := db.tasks[t := db.tasks[t].(state := Running, lease := Some(lease))]) else db
    case Finalize(t, to) => Guarded(db, t, {Running}, to)
    case Cancel(t) => Cancelling(db, t)
    case CancelIfPending(t) => Guarded(db, t, {Pending}, Cancelled)
    case FailRunning(t, now) =>
      if InState(db, t, Running) && db.tasks[t].lease.Some? && db.tasks[t].lease.value > now then SetState(db, t, Crashed) else db
    case SweepCrashed(now) => Sweeping(db, now)
    case Raise(t, ask, options, nonce, deadline, now) => Raising(db, t, ask, options, nonce, deadline, now)
    case Resolve(a, who, doc, now) => if a in db.asks && Live(db.asks[a], now) then Resolving(db, a, who, doc, now) else db
    case ResolveNonce(nonce, c, doc, now) =>
      var found := NonceMatches(db, nonce, c, now);
      if found == {} then db else var a :| a in found; Resolving(db, a, Attribution(c), doc, now)
    case ExpireDue(took, now) => Expiring(db, took, now)
  }
}
