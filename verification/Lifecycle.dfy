/**
 The states of a `tasks` row and of an `asks` row, as the CHECK constraints of
 db/migrations/0023_asks.sql list them.
 */
module Lifecycle {

  datatype Option<+T> = None | Some(value: T)

  datatype TaskState =
    | Pending
    | Running
    | AwaitingOperator
    | Completed
    | Failed
    | Cancelled
    | Blocked
    | TimedOut
    | Crashed
    | Refused

  datatype AskState = AskPending | AskResolved | AskExpired | AskCancelled

  /** No lifecycle operation leaves a terminal state. */
  predicate Terminal(s: TaskState) {
    s != Pending && s != Running && s != AwaitingOperator
  }

  /** The states `mark_cancelled` may overwrite. */
  predicate Cancellable(s: TaskState) {
    s == Pending || s == Running || s == AwaitingOperator
  }
}
