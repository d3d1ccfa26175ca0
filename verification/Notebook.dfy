/**
 Concurrent appends to task notebooks (db/src/notebook.rs), one SQL statement at a time, and followers
 that poll `entries` from the last sequence number they saw.
 */
module Notebook {
  import opened Lifecycle

  datatype Row = Row(task: int, number: nat, payload: string)

  /** Where an append stands. A commit makes the row visible before it releases the lock. */
  datatype Pc = Begun | Locked | Reading(top: nat) | Inserted(mine: nat) | Published

  datatype Txn = Txn(task: int, payload: string, pc: Pc)

  /** A watcher of one task: the `after_seq` its client asked for, what it was given, and that of its next poll. */
  datatype Follower = Follower(task: int, start: int, given: seq<Row>, last: int)

  /** `table` holds the committed rows in the order they became visible. */
  datatype World = World(table: seq<Row>, txns: map<nat, Txn>, followers: map<nat, Follower>)

  datatype Act =
    | Begin(task: int, payload: string)
    | Lock
    | Snapshot
    | Insert
    | Refuse
    | Commit
    | Release
    | Abort
    | Watch(watched: int, start: int)
    | Poll(rows: seq<Row>)

  datatype Step = Step(who: nat, act: Act)

  const EMPTY := World([], map[], map[])

  // ---- Queries -------------------------------------------------------------

  /** The task's rows, in the order they became visible. */
  function Of(table: seq<Row>, task: int): seq<Row> {
    if table == [] then []
    else
      var init, last := table[..|table| - 1], table[|table| - 1];
      if last.task == task then Of(init, task) + [last] else Of(init, task)
  }

  /** `COALESCE(MAX(seq), 0)` over the task's rows. */
  function MaxSeq(rows: seq<Row>): nat {
    if rows == [] then 0
    else
      var m := MaxSeq(rows[..|rows| - 1]);
      if rows[|rows| - 1].number > m then rows[|rows| - 1].number else m
  }

  /** `WHERE task_id = $1 AND seq > $2`. */
  function After(rows: seq<Row>, after: int): seq<Row> {
    if rows == [] then []
    else
      var init, last := rows[..|rows| - 1], rows[|rows| - 1];
      if last.number > after then After(init, after) + [last] else After(init, after)
  }

  ghost predicate OrderedBySeq(rows: seq<Row>) {
    forall i, j :: 0 <= i < j < |rows| ==> rows[i].number <= rows[j].number
  }

  /** `out` is a possible answer of `entries`: those rows, `ORDER BY seq`. */
  ghost predicate Answers(out: seq<Row>, table: seq<Row>, task: int, after: int) {
    OrderedBySeq(out) && multiset(out) == multiset(After(Of(table, task), after))
  }

  // ---- Steps ---------------------------------------------------------------

  predicate Holding(t: Txn) {
    t.pc != Begun
  }

  predicate Free(w: World, task: int) {
    forall i :: i in w.txns && Holding(w.txns[i]) ==> w.txns[i].task != task
  }

  predicate At(w: World, i: nat, pc: Pc) {
    i in w.txns && w.txns[i].pc == pc
  }

  /** A visible row already has this number. */
  ghost predicate KeyTaken(w: World, task: int, number: nat) {
    exists k :: 0 <= k < |Of(w.table, task)| && Of(w.table, task)[k].number == number
  }

  /** Another append has inserted this number and not yet ended. */
  predicate KeyInFlight(w: World, i: nat, task: int, number: nat) {
    exists j :: j in w.txns && j != i && w.txns[j].task == task && w.txns[j].pc == Inserted(number)
  }

  /** The number append `i` is about to insert. */
  function NextOf(w: World, i: nat): nat
    requires i in w.txns && w.txns[i].pc.Reading?
  {
    w.txns[i].pc.top + 1
  }

  /** The primary key (task, number): an insert waits for one in flight and is refused if the number is taken.
      `locking` is the advisory lock; the shipped code has it. */
  ghost predicate Enabled(w: World, s: Step, locking: bool) {
    match s.act
    case Begin(_, _) => s.who !in w.txns
    case Lock => At(w, s.who, Begun) && (locking ==> Free(w, w.txns[s.who].task))
    case Snapshot => At(w, s.who, Locked)
    case Insert =>
      && s.who in w.txns && w.txns[s.who].pc.Reading?
      && !KeyTaken(w, w.txns[s.who].task, NextOf(w, s.who)) && !KeyInFlight(w, s.who, w.txns[s.who].task, NextOf(w, s.who))
    case Refuse => s.who in w.txns && w.txns[s.who].pc.Reading? && KeyTaken(w, w.txns[s.who].task, NextOf(w, s.who))
    case Commit => s.who in w.txns && w.txns[s.who].pc.Inserted?
    case Release => At(w, s.who, Published)
    case Abort => s.who in w.txns && w.txns[s.who].pc != Published
    case Watch(_, _) => s.who !in w.followers
    case Poll(rows) => s.who in w.followers && Answers(rows, w.table, w.followers[s.who].task, w.followers[s.who].last)
  }

  function Move(w: World, i: nat, pc: Pc): World
    requires i in w.txns
  {
    World(w.table, w.txns[i := Txn(w.txns[i].task, w.txns[i].payload, pc)], w.followers)
  }

  function RowOf(t: Txn): Row
    requires t.pc.Inserted?
  {
    Row(t.task, t.pc.mine, t.payload)
  }

  function Polled(f: Follower, rows: seq<Row>): Follower {
    Follower(f.task, f.start, f.given + rows, if rows == [] then f.last else rows[|rows| - 1].number)
  }

  ghost function Apply(w: World, s: Step, locking: bool): World
    requires Enabled(w, s, locking)
  {
    match s.act
    case Begin(task, payload) => World(w.table, w.txns[s.who := Txn(task, payload, Begun)], w.followers)
    case Lock => Move(w, s.who, Locked)
    case Snapshot => Move(w, s.who, Reading(MaxSeq(Of(w.table, w.txns[s.who].task))))
    case Insert => Move(w, s.who, Inserted(w.txns[s.who].pc.top + 1))
    case Refuse => World(w.table, w.txns - {s.who}, w.followers)
    case Commit => World(w.table + [RowOf(w.txns[s.who])], Move(w, s.who, Published).txns, w.followers)
    case Release => World(w.table, w.txns - {s.who}, w.followers)
    case Abort => World(w.table, w.txns - {s.who}, w.followers)
    case Watch(task, start) => World(w.table, w.txns, w.followers[s.who := Follower(task, start, [], start)])
    case Poll(rows) => World(w.table, w.txns, w.followers[s.who := Polled(w.followers[s.who], rows)])
  }

  /** The world after a run, if every step was enabled. */
  ghost function Exec(steps: seq<Step>, locking: bool): Option<World> {
    if steps == [] then Some(EMPTY)
    else
      match Exec(steps[..|steps| - 1], locking)
      case None => None
      case Some(w) => if Enabled(w, steps[|steps| - 1], locking) then Some(Apply(w, steps[|steps| - 1], locking)) else None
  }

  // ---- The invariant -------------------------------------------------------

  /** The rows are numbered 1, 2, 3, ... in this order. */
  ghost predicate Numbered(rows: seq<Row>) {
    forall i :: 0 <= i < |rows| ==> rows[i].number == i + 1
  }

  /** The maximum an append has read is at most the current one, and the number it has inserted is the next. */
  ghost predicate TxnOk(table: seq<Row>, t: Txn) {
    && (t.pc.Reading? ==> t.pc.top <= |Of(table, t.task)|)
    && (t.pc.Inserted? ==> t.pc.mine == |Of(table, t.task)| + 1)
  }

  /** `x` as a position among `n` rows. */
  function Clip(x: int, n: nat): (p: nat)
    ensures p <= n
  {
    if x < 0 then 0 else if x > n then n else x
  }

  /** The rows numbered after `from` and up to `to`. */
  ghost function Between(rows: seq<Row>, from: int, to: int): seq<Row>
    requires from <= to
  {
    rows[Clip(from, |rows|)..Clip(to, |rows|)]
  }

  /** The follower was given exactly the task's rows after its start and up to its cursor, which is still at the
      start or at a row. */
  ghost predicate FollowerOk(table: seq<Row>, f: Follower) {
    && (f.last == f.start || f.start < f.last <= |Of(table, f.task)|)
    && f.given == Between(Of(table, f.task), f.start, f.last)
  }

  /** At most one insert per task is in flight: the key makes the others wait. */
  ghost predicate OneInsert(txns: map<nat, Txn>) {
    forall i, j :: i in txns && j in txns && i != j && txns[i].pc.Inserted? && txns[j].pc.Inserted? ==> txns[i].task != txns[j].task
  }

  ghost predicate OneHolder(txns: map<nat, Txn>) {
    forall i, j :: i in txns && j in txns && i != j && Holding(txns[i]) && Holding(txns[j]) ==> txns[i].task != txns[j].task
  }

  /** What the primary key alone keeps. */
  ghost predicate Inv(w: World) {
    && (forall task :: Numbered(Of(w.table, task)))
    && OneInsert(w.txns)
    && (forall i :: i in w.txns ==> TxnOk(w.table, w.txns[i]))
    && (forall i :: i in w.followers ==> FollowerOk(w.table, w.followers[i]))
  }

  /** What the lock adds: one holder per task, and the maximum it read is still the maximum. */
  ghost predicate LockInv(w: World) {
    && OneHolder(w.txns)
    && forall i :: i in w.txns && w.txns[i].pc.Reading? ==> w.txns[i].pc.top == |Of(w.table, w.txns[i].task)|
  }

  lemma OfSnoc(table: seq<Row>, r: Row, task: int)
    ensures Of(table + [r], task) == if r.task == task then Of(table, task) + [r] else Of(table, task)
  {
    assert (table + [r])[..|table|] == table;
  }

  lemma {:induction false} MaxOfNumbered(rows: seq<Row>)
    requires Numbered(rows)
    ensures MaxSeq(rows) == |rows|
  {
    if rows != [] {
      var init := rows[..|rows| - 1];
      assert Numbered(init) by { assert forall i :: 0 <= i < |init| ==> init[i] == rows[i]; }
      MaxOfNumbered(init);
    }
  }

  lemma {:induction false} AfterOfNumbered(rows: seq<Row>, after: int)
    requires Numbered(rows)
    ensures After(rows, after) == rows[Clip(after, |rows|)..]
  {
    if rows != [] {
      var init, last := rows[..|rows| - 1], rows[|rows| - 1];
      assert Numbered(init) by { assert forall i :: 0 <= i < |init| ==> init[i] == rows[i]; }
      AfterOfNumbered(init, after);
      if after < |rows| {
        assert Clip(after, |rows|) == Clip(after, |init|);
        TailSnoc(rows, Clip(after, |rows|));
      }
    }
  }

  lemma TailSnoc<T>(s: seq<T>, c: nat)
    requires c < |s|
    ensures s[c..] == s[..|s| - 1][c..] + [s[|s| - 1]]
  {
    var init := s[..|s| - 1];
    assert forall k :: 0 <= k < |init| ==> init[k] == s[k];
  }

  ghost predicate Ascending(rows: seq<Row>) {
    forall i, j :: 0 <= i < j < |rows| ==> rows[i].number < rows[j].number
  }

  lemma SameLast(a: seq<Row>, b: seq<Row>)
    requires OrderedBySeq(a) && Ascending(b) && a != [] && b != []
    requires forall r :: r in a <==> r in b
    ensures a[|a| - 1] == b[|b| - 1]
  {
    var x, y := a[|a| - 1], b[|b| - 1];
    assert x in a && y in b;
    var i :| 0 <= i < |b| && b[i] == x;
    var j :| 0 <= j < |a| && a[j] == y;
    assert y.number <= x.number;
  }

  lemma MultisetInit(a: seq<Row>)
    requires a != []
    ensures multiset(a[..|a| - 1]) == multiset(a) - multiset{a[|a| - 1]}
  {
    assert a == a[..|a| - 1] + [a[|a| - 1]];
  }

  lemma SameElements(a: seq<Row>, b: seq<Row>)
    requires multiset(a) == multiset(b)
    ensures |a| == |b| && forall r :: r in a <==> r in b
  {
    assert |a| == |multiset(a)| == |multiset(b)| == |b|;
    assert forall r :: r in a <==> r in multiset(a);
    assert forall r :: r in b <==> r in multiset(b);
  }

  /** Sorting rows with distinct numbers has one outcome. */
  lemma {:induction false} SortedOnce(a: seq<Row>, b: seq<Row>)
    requires OrderedBySeq(a) && Ascending(b) && multiset(a) == multiset(b)
    ensures a == b
  {
    SameElements(a, b);
    if a != [] {
      SameLast(a, b);
      MultisetInit(a);
      MultisetInit(b);
      SortedOnce(a[..|a| - 1], b[..|b| - 1]);
      assert a == a[..|a| - 1] + [a[|a| - 1]] && b == b[..|b| - 1] + [b[|b| - 1]];
    }
  }

  /** A poll answers with exactly the rows numbered after its cursor, in the order they became visible. */
  lemma PollExact(table: seq<Row>, task: int, after: int, out: seq<Row>)
    requires Numbered(Of(table, task)) && Answers(out, table, task, after)
    ensures out == Of(table, task)[Clip(after, |Of(table, task)|)..]
  {
    var rows := Of(table, task);
    AfterOfNumbered(rows, after);
    assert Ascending(rows[Clip(after, |rows|)..]);
    SortedOnce(out, rows[Clip(after, |rows|)..]);
  }

  // ---- Every step keeps it -------------------------------------------------

  /** After a poll no visible row is left beyond the cursor. */
  lemma PollKeeps(table: seq<Row>, f: Follower, rows: seq<Row>)
    requires FollowerOk(table, f) && Numbered(Of(table, f.task)) && Answers(rows, table, f.task, f.last)
    ensures FollowerOk(table, Polled(f, rows)) && Clip(Polled(f, rows).last, |Of(table, f.task)|) == |Of(table, f.task)|
  {
    PollExact(table, f.task, f.last, rows);
    if rows == [] {
      NothingPolled(Of(table, f.task), f);
    } else {
      PollGives(Of(table, f.task), f, rows);
    }
  }

  lemma NothingPolled(all: seq<Row>, f: Follower)
    requires all[Clip(f.last, |all|)..] == []
    ensures Polled(f, []) == f && Clip(f.last, |all|) == |all|
  {
    assert |all[Clip(f.last, |all|)..]| == |all| - Clip(f.last, |all|);
    assert f.given + [] == f.given;
  }

  lemma PollGives(all: seq<Row>, f: Follower, rows: seq<Row>)
    requires Numbered(all) && f.start <= f.last && f.given == Between(all, f.start, f.last)
    requires rows == all[Clip(f.last, |all|)..] && rows != []
    ensures rows[|rows| - 1].number == |all| && f.start < |all| && f.given + rows == Between(all, f.start, |all|)
  {
    assert rows[|rows| - 1] == all[|all| - 1];
    SplitAt(all, Clip(f.start, |all|), Clip(f.last, |all|));
  }

  lemma SplitAt<T>(all: seq<T>, a: nat, b: nat)
    requires a <= b <= |all|
    ensures all[a..b] + all[b..] == all[a..|all|]
  {
  }

  lemma BetweenKept(rows: seq<Row>, r: Row, start: int, last: int)
    requires last == start || start < last <= |rows|
    ensures Between(rows + [r], start, last) == Between(rows, start, last)
  {
    if start < last { TakeOf(rows, r, Clip(start, |rows|), Clip(last, |rows|)); }
  }

  lemma TakeOf(rows: seq<Row>, r: Row, a: nat, b: nat)
    requires a <= b <= |rows|
    ensures (rows + [r])[a..b] == rows[a..b]
  {
  }

  /** A row that becomes visible changes nothing a follower was given. */
  lemma FollowerKept(table: seq<Row>, r: Row, f: Follower)
    requires FollowerOk(table, f)
    ensures FollowerOk(table + [r], f)
  {
    OfSnoc(table, r, f.task);
    BetweenKept(Of(table, f.task), r, f.start, f.last);
  }

  /** A commit adds the next number of its task and disturbs no other holder and no follower. */
  lemma CommitKeeps(w: World, i: nat)
    requires Inv(w) && i in w.txns && w.txns[i].pc.Inserted?
    ensures Inv(World(w.table + [RowOf(w.txns[i])], Move(w, i, Published).txns, w.followers))
  {
    var r := RowOf(w.txns[i]);
    var table := w.table + [r];
    assert TxnOk(w.table, w.txns[i]);
    forall task ensures Numbered(Of(table, task)) { OfSnoc(w.table, r, task); }
    forall j | j in w.txns && j != i ensures TxnOk(table, w.txns[j]) {
      OfSnoc(w.table, r, w.txns[j].task);
      assert TxnOk(w.table, w.txns[j]);
    }
    forall j | j in w.followers ensures FollowerOk(table, w.followers[j]) {
      FollowerKept(w.table, r, w.followers[j]);
    }
  }

  /** A number that is next to one read and not taken is the next number. */
  lemma FreeNumberIsNext(w: World, i: nat)
    requires Inv(w) && i in w.txns && w.txns[i].pc.Reading? && !KeyTaken(w, w.txns[i].task, NextOf(w, i))
    ensures NextOf(w, i) == |Of(w.table, w.txns[i].task)| + 1
  {
    assert TxnOk(w.table, w.txns[i]);
    NumberedTaken(w, w.txns[i].task, NextOf(w, i));
  }

  lemma NumberedTaken(w: World, task: int, n: nat)
    requires Numbered(Of(w.table, task)) && n >= 1
    ensures n <= |Of(w.table, task)| ==> KeyTaken(w, task, n)
  {
    if n <= |Of(w.table, task)| { assert Of(w.table, task)[n - 1].number == n; }
  }

  lemma InsertKeeps(w: World, i: nat)
    requires Inv(w) && Enabled(w, Step(i, Insert), false)
    ensures Inv(Move(w, i, Inserted(NextOf(w, i))))
  {
    FreeNumberIsNext(w, i);
    forall j | j in w.txns && j != i && w.txns[j].pc.Inserted? ensures w.txns[j].task != w.txns[i].task {
      assert TxnOk(w.table, w.txns[j]);
      assert w.txns[j].pc == Inserted(w.txns[j].pc.mine);
    }
  }

  lemma MoveKeeps(w: World, i: nat, pc: Pc)
    requires Inv(w) && i in w.txns && TxnOk(w.table, Txn(w.txns[i].task, w.txns[i].payload, pc)) && !pc.Inserted?
    ensures Inv(Move(w, i, pc))
  {
  }

  lemma BeginKeeps(w: World, i: nat, task: int, payload: string)
    requires Inv(w) && i !in w.txns
    ensures Inv(World(w.table, w.txns[i := Txn(task, payload, Begun)], w.followers))
  {
  }

  lemma SnapshotKeeps(w: World, i: nat)
    requires Inv(w) && i in w.txns
    ensures Inv(Move(w, i, Reading(MaxSeq(Of(w.table, w.txns[i].task)))))
  {
    MaxOfNumbered(Of(w.table, w.txns[i].task));
    MoveKeeps(w, i, Reading(MaxSeq(Of(w.table, w.txns[i].task))));
  }

  lemma EndKeeps(w: World, i: nat)
    requires Inv(w)
    ensures Inv(World(w.table, w.txns - {i}, w.followers))
  {
  }

  lemma FollowerStepKeeps(w: World, i: nat, f: Follower)
    requires Inv(w) && FollowerOk(w.table, f)
    ensures Inv(World(w.table, w.txns, w.followers[i := f]))
  {
  }

  lemma AppendStepKeeps(w: World, s: Step, locking: bool)
    requires Inv(w) && Enabled(w, s, locking) && (s.act.Lock? || s.act.Snapshot? || s.act.Insert? || s.act.Commit?)
    ensures Inv(Apply(w, s, locking))
  {
    match s.act
    case Lock => MoveKeeps(w, s.who, Locked);
    case Snapshot => SnapshotKeeps(w, s.who);
    case Insert => InsertKeeps(w, s.who);
    case Commit => CommitKeeps(w, s.who);
  }

  lemma StepKeeps(w: World, s: Step, locking: bool)
    requires Inv(w) && Enabled(w, s, locking)
    ensures Inv(Apply(w, s, locking))
  {
    if s.act.Begin? {
      BeginKeeps(w, s.who, s.act.task, s.act.payload);
    } else if s.act.Watch? {
      FollowerStepKeeps(w, s.who, Follower(s.act.watched, s.act.start, [], s.act.start));
    } else if s.act.Poll? {
      PollKeeps(w.table, w.followers[s.who], s.act.rows);
      FollowerStepKeeps(w, s.who, Polled(w.followers[s.who], s.act.rows));
    } else if s.act.Refuse? || s.act.Release? || s.act.Abort? {
      EndKeeps(w, s.who);
    } else {
      AppendStepKeeps(w, s, locking);
    }
  }

  /** With the lock no other append of the task is past its begin, so nothing moves the maximum. */
  lemma CommitKeepsLock(w: World, i: nat)
    requires LockInv(w) && i in w.txns && w.txns[i].pc.Inserted?
    ensures LockInv(World(w.table + [RowOf(w.txns[i])], Move(w, i, Published).txns, w.followers))
  {
    var r := RowOf(w.txns[i]);
    forall j | j in w.txns && j != i && w.txns[j].pc.Reading? ensures Of(w.table + [r], w.txns[j].task) == Of(w.table, w.txns[j].task) {
      OfSnoc(w.table, r, w.txns[j].task);
    }
  }

  lemma StepKeepsLock(w: World, s: Step)
    requires Inv(w) && LockInv(w) && Enabled(w, s, true)
    ensures LockInv(Apply(w, s, true))
  {
    if s.act == Commit { CommitKeepsLock(w, s.who); }
    if s.act == Snapshot { MaxOfNumbered(Of(w.table, w.txns[s.who].task)); }
  }

  lemma {:induction false} RunKeeps(steps: seq<Step>, locking: bool)
    ensures Exec(steps, locking).Some? ==> Inv(Exec(steps, locking).value) && (locking ==> LockInv(Exec(steps, locking).value))
  {
    if steps != [] {
      var init, last := steps[..|steps| - 1], steps[|steps| - 1];
      RunKeeps(init, locking);
      if Exec(init, locking).Some? && Enabled(Exec(init, locking).value, last, locking) {
        StepKeeps(Exec(init, locking).value, last, locking);
        if locking { StepKeepsLock(Exec(init, locking).value, last); }
      }
    }
  }

  // ---- What every run promises ---------------------------------------------

  /** In every reachable state each task's committed numbers are 1..n, and they became visible in that order;
      the primary key alone sees to that. */
  lemma NumbersGapFree(steps: seq<Step>, locking: bool, task: int)
    requires Exec(steps, locking).Some?
    ensures Numbered(Of(Exec(steps, locking).value.table, task))
  {
    RunKeeps(steps, locking);
  }

  /** What the lock buys: an append that has read its maximum can always insert. The key never refuses it and
      never makes it wait. */
  lemma LockedInsertNeverRefused(steps: seq<Step>, i: nat)
    requires Exec(steps, true).Some? && i in Exec(steps, true).value.txns && Exec(steps, true).value.txns[i].pc.Reading?
    ensures Enabled(Exec(steps, true).value, Step(i, Insert), true) && !Enabled(Exec(steps, true).value, Step(i, Refuse), true)
  {
    RunKeeps(steps, true);
    var w := Exec(steps, true).value;
    assert Numbered(Of(w.table, w.txns[i].task));
    forall j | j in w.txns && j != i && w.txns[j].pc.Inserted? ensures w.txns[j].task != w.txns[i].task {
      assert Holding(w.txns[i]) && Holding(w.txns[j]);
    }
  }

  /** Wherever its client asked it to start, a follower has been given, in order and once each, exactly the rows
      numbered after that and up to its cursor: none is skipped, and none is given from before the start. */
  lemma FollowerNeverSkips(steps: seq<Step>, locking: bool, i: nat)
    requires Exec(steps, locking).Some? && i in Exec(steps, locking).value.followers
    ensures var w := Exec(steps, locking).value;
      var f := w.followers[i];
      && f.start <= f.last && f.given == Between(Of(w.table, f.task), f.start, f.last)
      && (f.start >= |Of(w.table, f.task)| ==> f.given == [])
      && (f.last > f.start ==> f.last <= |Of(w.table, f.task)|)
  {
    RunKeeps(steps, locking);
    var w := Exec(steps, locking).value;
    assert FollowerOk(w.table, w.followers[i]);
  }

  /** The table only grows at its end, so what was visible stays visible under its number. */
  lemma StepAppends(w: World, s: Step, locking: bool)
    requires Enabled(w, s, locking)
    ensures w.table <= Apply(w, s, locking).table
    ensures |Apply(w, s, locking).table| <= |w.table| + 1
  {
  }

  lemma {:induction false} OfGrows(a: seq<Row>, b: seq<Row>, task: int)
    requires a <= b
    ensures Of(a, task) <= Of(b, task)
    decreases |b|
  {
    if a != b {
      var init := b[..|b| - 1];
      OfGrows(a, init, task);
    }
  }

  /** The number `append` returns names the caller's row, now and after any further step. */
  lemma ReturnedNumberNamesRow(w: World, i: nat, later: seq<Row>)
    requires Inv(w) && i in w.txns && w.txns[i].pc.Inserted?
    requires w.table + [RowOf(w.txns[i])] <= later
    ensures var r := RowOf(w.txns[i]);
      r.number <= |Of(later, r.task)| && Of(later, r.task)[r.number - 1] == r
  {
    var r := RowOf(w.txns[i]);
    assert TxnOk(w.table, w.txns[i]);
    OfSnoc(w.table, r, r.task);
    OfGrows(w.table + [r], later, r.task);
  }

  // ---- Why the lock --------------------------------------------------------

  /** Appends 0 and 1, on one task, both stand at `pc` and nothing is committed yet. */
  ghost predicate BothAt(w: World, task: int, a: string, b: string, pc: Pc) {
    && w.table == [] && 0 in w.txns && 1 in w.txns
    && w.txns[0] == Txn(task, a, pc) && w.txns[1] == Txn(task, b, pc)
  }

  predicate OnlyBoth(w: World) {
    w.txns.Keys == {0, 1}
  }

  /** Both make the same move. */
  lemma BothMove(steps: seq<Step>, task: int, a: string, b: string, pc: Pc, act: Act, pc': Pc) returns (longer: seq<Step>)
    requires Exec(steps, false).Some? && BothAt(Exec(steps, false).value, task, a, b, pc)
    requires OnlyBoth(Exec(steps, false).value) && (act, pc, pc') in [(Lock, Begun, Locked), (Snapshot, Locked, Reading(0))]
    ensures Exec(longer, false).Some? && BothAt(Exec(longer, false).value, task, a, b, pc') && OnlyBoth(Exec(longer, false).value)
  {
    ExecSnoc(steps, Step(0, act), false);
    ExecSnoc(steps + [Step(0, act)], Step(1, act), false);
    longer := steps + [Step(0, act)] + [Step(1, act)];
  }

  lemma BothBegin(task: int, a: string, b: string) returns (steps: seq<Step>)
    ensures Exec(steps, false).Some? && BothAt(Exec(steps, false).value, task, a, b, Begun) && OnlyBoth(Exec(steps, false).value)
  {
    ExecSnoc([], Step(0, Begin(task, a)), false);
    ExecSnoc([] + [Step(0, Begin(task, a))], Step(1, Begin(task, b)), false);
    steps := [] + [Step(0, Begin(task, a))] + [Step(1, Begin(task, b))];
  }

  /** Append 0 inserts and commits; append 1 still holds the maximum it read before. */
  lemma OneCommits(steps: seq<Step>, task: int, a: string, b: string) returns (longer: seq<Step>)
    requires Exec(steps, false).Some? && BothAt(Exec(steps, false).value, task, a, b, Reading(0)) && OnlyBoth(Exec(steps, false).value)
    ensures Exec(longer, false).Some?
    ensures var w := Exec(longer, false).value; w.table == [Row(task, 1, a)] && 1 in w.txns && w.txns[1] == Txn(task, b, Reading(0))
  {
    assert Of([], task) == [];
    ExecSnoc(steps, Step(0, Insert), false);
    ExecSnoc(steps + [Step(0, Insert)], Step(0, Commit), false);
    longer := steps + [Step(0, Insert)] + [Step(0, Commit)];
  }

  /** Without the advisory lock an append can be refused because the number it read for was taken meanwhile. */
  lemma UnlockedAppendRefused(task: int, a: string, b: string) returns (steps: seq<Step>)
    ensures Exec(steps, false).Some? && Enabled(Exec(steps, false).value, Step(1, Refuse), false)
    ensures Exec(steps, false).value.txns[1] == Txn(task, b, Reading(0))
  {
    steps := BothBegin(task, a, b);
    steps := BothMove(steps, task, a, b, Begun, Lock, Locked);
    steps := BothMove(steps, task, a, b, Locked, Snapshot, Reading(0));
    steps := OneCommits(steps, task, a, b);
    OfSnoc([], Row(task, 1, a), task);
    assert [] + [Row(task, 1, a)] == [Row(task, 1, a)];
    assert Of(Exec(steps, false).value.table, task)[0].number == 1;
  }

  lemma ExecSnoc(steps: seq<Step>, s: Step, locking: bool)
    requires Exec(steps, locking).Some? && Enabled(Exec(steps, locking).value, s, locking)
    ensures Exec(steps + [s], locking) == Some(Apply(Exec(steps, locking).value, s, locking))
  {
    assert (steps + [s])[..|steps|] == steps;
  }
}
