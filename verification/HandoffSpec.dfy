/**
 What the handoff cache of core/src/handoff.rs holds after any run of puts and purges: per task the
 stashed bodies in insertion order, and the tracked tasks in insertion order.
 */
module HandoffSpec {
  import opened Lifecycle
  import opened Fingerprint
  import opened Sequences

  const PER_TASK_BYTE_BUDGET: nat := 64 * 1024 * 1024
  const MAX_TRACKED_TASKS: nat := 4096
  const USIZE_MAX: nat := WORD - 1

  type Usize = n: nat | n <= USIZE_MAX

  type Body = seq<Byte>
  type Ref = string
  /** `HandoffRef::of`: any function of the body. */
  type Namer = Body -> Ref

  datatype Entry = Entry(ref: Ref, body: Body)
  type Shelf = seq<Entry>

  datatype Cache = Cache(tasks: seq<int>, shelves: map<int, Shelf>)

  datatype Op = Put(task: int, body: Body) | Purge(task: int)

  const EMPTY := Cache([], map[])

  // ---- One task's shelf ----------------------------------------------------

  function Size(s: Shelf): nat {
    if s == [] then 0 else |s[0].body| + Size(s[1..])
  }

  predicate Names(s: Shelf, r: Ref) {
    exists i :: 0 <= i < |s| && s[i].ref == r
  }

  function Lookup(s: Shelf, r: Ref): (b: Option<Body>)
    ensures b.Some? <==> Names(s, r)
    ensures b.Some? ==> Entry(r, b.value) in s
  {
    if s == [] then None
    else if s[0].ref == r then Some(s[0].body)
    else
      assert s == [s[0]] + s[1..];
      assert Names(s[1..], r) ==> Names(s, r) by {
        if i :| 0 <= i < |s[1..]| && s[1..][i].ref == r { assert s[i + 1].ref == r; }
      }
      Lookup(s[1..], r)
  }

  ghost predicate Distinct(s: Shelf) {
    forall i, j :: 0 <= i < j < |s| ==> s[i].ref != s[j].ref
  }

  predicate Fits(s: Shelf) {
    Size(s) <= PER_TASK_BYTE_BUDGET || |s| == 1
  }

  /** Drop the oldest until the rest fits; never the newest. */
  function Trim(s: Shelf): Shelf
    decreases |s|
  {
    if Size(s) > PER_TASK_BYTE_BUDGET && |s| > 1 then Trim(s[1..]) else s
  }

  /** `kept` is the longest suffix of `all` that fits, and holds its newest entry. */
  ghost predicate LongestFit(all: Shelf, kept: Shelf) {
    && 0 < |kept| <= |all| && kept == all[|all| - |kept|..] && Fits(kept)
    && forall n :: 0 <= n < |all| - |kept| ==> !Fits(all[n..])
  }

  lemma {:induction false} TrimIsLongest(s: Shelf)
    requires s != []
    ensures LongestFit(s, Trim(s))
    decreases |s|
  {
    if !Fits(s) && |s| > 1 {
      TrimIsLongest(s[1..]);
      var k := |s| - |Trim(s)|;
      SuffixOfTail(s, k);
      forall n | 0 <= n < k ensures !Fits(s[n..]) {
        if n == 0 {
          assert s[0..] == s;
        } else {
          SuffixOfTail(s, n);
          assert !Fits(s[1..][n - 1..]);
        }
      }
    } else {
      assert s[0..] == s;
    }
  }

  lemma SuffixOfTail<T>(s: seq<T>, n: nat)
    requires 1 <= n <= |s|
    ensures s[1..][n - 1..] == s[n..]
  {
  }

  lemma {:induction false} SizeSnoc(s: Shelf, e: Entry)
    ensures Size(s + [e]) == Size(s) + |e.body|
  {
    if s != [] {
      SizeSnoc(s[1..], e);
      assert (s + [e])[1..] == s[1..] + [e];
    } else {
      assert (s + [e])[1..] == [];
    }
  }

  /** Trimming after every insertion is trimming once at the end: what an earlier put dropped would not fit later. */
  lemma {:induction false} TrimOnce(s: Shelf, e: Entry)
    ensures Trim(Trim(s) + [e]) == Trim(s + [e])
    decreases |s|
  {
    if Size(s) > PER_TASK_BYTE_BUDGET && |s| > 1 {
      TrimOnce(s[1..], e);
      SizeSnoc(s, e);
      assert (s + [e])[1..] == s[1..] + [e];
    }
  }

  /** Every body is stored under its own name. */
  ghost predicate Addressed(name: Namer, s: Shelf) {
    forall i :: 0 <= i < |s| ==> s[i].ref == name(s[i].body)
  }

  ghost predicate ShelfOk(name: Namer, s: Shelf) {
    s != [] && Distinct(s) && Fits(s) && Addressed(name, s)
  }

  lemma NewestKept(all: Shelf, kept: Shelf)
    requires LongestFit(all, kept)
    ensures kept[|kept| - 1] == all[|all| - 1]
  {
  }

  lemma AppendOk(name: Namer, s: Shelf, e: Entry)
    requires Distinct(s) && Addressed(name, s) && !Names(s, e.ref) && e.ref == name(e.body)
    ensures Distinct(s + [e]) && Addressed(name, s + [e])
  {
  }

  lemma SuffixOk(name: Namer, all: Shelf, kept: Shelf)
    requires Distinct(all) && Addressed(name, all) && LongestFit(all, kept)
    ensures ShelfOk(name, kept)
  {
    assert forall i :: 0 <= i < |kept| ==> kept[i] == all[|all| - |kept| + i];
  }

  // ---- The operations ------------------------------------------------------

  function ShelfAt(c: Cache, task: int): Shelf {
    if task in c.shelves then c.shelves[task] else []
  }

  /** The newest `MAX_TRACKED_TASKS` tasks. */
  function Newest(tasks: seq<int>): seq<int> {
    if |tasks| > MAX_TRACKED_TASKS then tasks[|tasks| - MAX_TRACKED_TASKS..] else tasks
  }

  function Without(tasks: seq<int>, task: int): seq<int> {
    if tasks == [] then []
    else if tasks[0] == task then Without(tasks[1..], task)
    else [tasks[0]] + Without(tasks[1..], task)
  }

  function PutSpec(name: Namer, c: Cache, task: int, body: Body): Cache {
    if Names(ShelfAt(c, task), name(body)) then c
    else
      var grown := c.shelves[task := Trim(ShelfAt(c, task) + [Entry(name(body), body)])];
      if task in c.shelves then Cache(c.tasks, grown)
      else
        var tasks := Newest(c.tasks + [task]);
        Cache(tasks, map t | t in grown && t in tasks :: grown[t])
  }

  function PurgeSpec(c: Cache, task: int): Cache {
    Cache(Without(c.tasks, task), c.shelves - {task})
  }

  function Perform(name: Namer, c: Cache, op: Op): Cache {
    match op
    case Put(task, body) => PutSpec(name, c, task, body)
    case Purge(task) => PurgeSpec(c, task)
  }

  function Run(name: Namer, ops: seq<Op>): Cache {
    if ops == [] then EMPTY else Perform(name, Run(name, ops[..|ops| - 1]), ops[|ops| - 1])
  }

  // ---- What every run keeps ------------------------------------------------

  /** The queue lists exactly the tracked tasks, once each. */
  ghost predicate QueueOk(tasks: seq<int>, shelves: map<int, Shelf>) {
    && NoRepeats(tasks) && |tasks| <= MAX_TRACKED_TASKS
    && forall t :: t in tasks <==> t in shelves
  }

  ghost predicate CacheOk(name: Namer, c: Cache) {
    QueueOk(c.tasks, c.shelves) && forall t :: t in c.shelves ==> ShelfOk(name, c.shelves[t])
  }

  lemma GrownOk(name: Namer, s: Shelf, body: Body)
    requires s == [] || ShelfOk(name, s)
    requires !Names(s, name(body))
    ensures ShelfOk(name, Trim(s + [Entry(name(body), body)]))
  {
    var all := s + [Entry(name(body), body)];
    AppendOk(name, s, Entry(name(body), body));
    TrimIsLongest(all);
    SuffixOk(name, all, Trim(all));
  }

  lemma NewestOk(tasks: seq<int>, task: int)
    requires NoRepeats(tasks) && task !in tasks && |tasks| <= MAX_TRACKED_TASKS
    ensures NoRepeats(Newest(tasks + [task])) && |Newest(tasks + [task])| <= MAX_TRACKED_TASKS
    ensures task in Newest(tasks + [task])
    ensures forall t :: t in Newest(tasks + [task]) ==> t in tasks || t == task
    ensures |tasks| < MAX_TRACKED_TASKS ==> Newest(tasks + [task]) == tasks + [task]
    ensures |tasks| == MAX_TRACKED_TASKS ==> Newest(tasks + [task]) == tasks[1..] + [task]
  {
    var all := tasks + [task];
    var n := |Newest(all)|;
    assert forall i :: 0 <= i < n ==> Newest(all)[i] == all[|all| - n + i];
    assert Newest(all)[n - 1] == task;
  }

  lemma {:induction false} WithoutExact(tasks: seq<int>, task: int)
    requires NoRepeats(tasks)
    ensures forall t :: t in Without(tasks, task) <==> t in tasks && t != task
    ensures NoRepeats(Without(tasks, task)) && |Without(tasks, task)| <= |tasks|
  {
    if tasks != [] {
      WithoutExact(tasks[1..], task);
      assert tasks == [tasks[0]] + tasks[1..];
      assert forall i :: 0 <= i < |tasks[1..]| ==> tasks[1..][i] == tasks[i + 1];
      assert tasks[0] !in tasks[1..];
    }
  }

  /** Dropping a task keeps the others in the order they were inserted. */
  lemma {:induction false} WithoutKeepsOrder(tasks: seq<int>, task: int, i: nat, j: nat) returns (a: nat, b: nat)
    requires i < j < |Without(tasks, task)|
    ensures a < b < |tasks| && tasks[a] == Without(tasks, task)[i] && tasks[b] == Without(tasks, task)[j]
    decreases |tasks|
  {
    var rest := Without(tasks[1..], task);
    if tasks[0] == task {
      a, b := WithoutKeepsOrder(tasks[1..], task, i, j);
      a, b := a + 1, b + 1;
    } else if i > 0 {
      a, b := WithoutKeepsOrder(tasks[1..], task, i - 1, j - 1);
      a, b := a + 1, b + 1;
    } else {
      a := 0;
      b := WithoutFrom(tasks[1..], task, j - 1);
      b := b + 1;
    }
  }

  lemma {:induction false} WithoutFrom(tasks: seq<int>, task: int, j: nat) returns (b: nat)
    requires j < |Without(tasks, task)|
    ensures b < |tasks| && tasks[b] == Without(tasks, task)[j]
    decreases |tasks|
  {
    if tasks[0] == task {
      b := WithoutFrom(tasks[1..], task, j);
      b := b + 1;
    } else if j == 0 {
      b := 0;
    } else {
      b := WithoutFrom(tasks[1..], task, j - 1);
      b := b + 1;
    }
  }

  lemma PutKeepsOk(name: Namer, c: Cache, task: int, body: Body)
    requires CacheOk(name, c)
    ensures CacheOk(name, PutSpec(name, c, task, body))
  {
    if !Names(ShelfAt(c, task), name(body)) {
      GrownOk(name, ShelfAt(c, task), body);
      if task !in c.shelves { NewestOk(c.tasks, task); }
    }
  }

  lemma PurgeKeepsOk(name: Namer, c: Cache, task: int)
    requires CacheOk(name, c)
    ensures CacheOk(name, PurgeSpec(c, task))
  {
    WithoutExact(c.tasks, task);
  }

  /** After any run the queue lists exactly the tracked tasks, at most 4096 of them, and each shelf holds
      distinct refs within the budget, or one body. */
  lemma {:induction false} RunOk(name: Namer, ops: seq<Op>)
    ensures CacheOk(name, Run(name, ops))
  {
    if ops != [] {
      var c := Run(name, ops[..|ops| - 1]);
      RunOk(name, ops[..|ops| - 1]);
      match ops[|ops| - 1]
      case Put(task, body) => PutKeepsOk(name, c, task, body);
      case Purge(task) => PurgeKeepsOk(name, c, task);
    }
  }

  /** The bodies inserted for `task` since it was last untracked, evicted or not. */
  function Inserted(name: Namer, ops: seq<Op>, task: int): Shelf {
    if ops == [] then []
    else
      var init, op := ops[..|ops| - 1], ops[|ops| - 1];
      var past := Inserted(name, init, task);
      if task !in Run(name, ops).shelves then []
      else if op.Put? && op.task == task && !Names(ShelfAt(Run(name, init), task), name(op.body)) then past + [Entry(name(op.body), op.body)]
      else past
  }

  lemma TrimEmpty()
    ensures Trim([]) == []
  {
  }

  /** A step on another task leaves this one's shelf alone, or drops the task whole. */
  lemma StepIsolated(name: Namer, c: Cache, op: Op, task: int)
    requires CacheOk(name, c) && op.task != task
    ensures task in Perform(name, c, op).shelves ==> task in c.shelves && Perform(name, c, op).shelves[task] == c.shelves[task]
    ensures task in c.shelves && task !in Perform(name, c, op).shelves ==>
      op.Put? && op.task !in c.shelves && |c.tasks| == MAX_TRACKED_TASKS && c.tasks[0] == task
  {
    if op.Put? && !Names(ShelfAt(c, op.task), name(op.body)) && op.task !in c.shelves {
      NewestOk(c.tasks, op.task);
    }
  }

  /** Each shelf is exactly the longest fitting suffix of everything inserted for the task. */
  lemma {:induction false} RunKeepsNewest(name: Namer, ops: seq<Op>, task: int)
    ensures ShelfAt(Run(name, ops), task) == Trim(Inserted(name, ops, task))
    ensures task in Run(name, ops).shelves ==> LongestFit(Inserted(name, ops, task), ShelfAt(Run(name, ops), task))
  {
    if ops == [] {
      TrimEmpty();
    } else {
      var init, op := ops[..|ops| - 1], ops[|ops| - 1];
      RunKeepsNewest(name, init, task);
      RunOk(name, init);
      RunOk(name, ops);
      if task !in Run(name, ops).shelves {
        TrimEmpty();
      } else if op.task == task {
        StepOwn(name, Run(name, init), op, Inserted(name, init, task));
      } else {
        StepIsolated(name, Run(name, init), op, task);
      }
      if task in Run(name, ops).shelves {
        assert Inserted(name, ops, task) != [] by { TrimEmpty(); }
        TrimIsLongest(Inserted(name, ops, task));
      }
    }
  }

  lemma StepOwn(name: Namer, c: Cache, op: Op, past: Shelf)
    requires CacheOk(name, c) && op.task in Perform(name, c, op).shelves && ShelfAt(c, op.task) == Trim(past)
    ensures op.Put?
    ensures ShelfAt(Perform(name, c, op), op.task) ==
      if Names(Trim(past), name(op.body)) then Trim(past) else Trim(past + [Entry(name(op.body), op.body)])
  {
    if op.Put? {
      TrimOnce(past, Entry(name(op.body), op.body));
    }
  }

  // ---- Retrieval -----------------------------------------------------------

  function Stored(c: Cache, task: int, r: Ref): Option<Body> {
    Lookup(ShelfAt(c, task), r)
  }

  ghost predicate Injective(name: Namer) {
    forall a, b :: name(a) == name(b) ==> a == b
  }

  lemma LookupUnique(s: Shelf, i: nat)
    requires Distinct(s) && i < |s|
    ensures Lookup(s, s[i].ref) == Some(s[i].body)
  {
    assert Names(s, s[i].ref);
    var b := Lookup(s, s[i].ref).value;
    var j :| 0 <= j < |s| && s[j] == Entry(s[i].ref, b);
  }

  lemma NewestRetrievable(name: Namer, s: Shelf, body: Body)
    requires (s == [] || ShelfOk(name, s)) && !Names(s, name(body))
    ensures Lookup(Trim(s + [Entry(name(body), body)]), name(body)) == Some(body)
  {
    var all := s + [Entry(name(body), body)];
    TrimIsLongest(all);
    var kept := Trim(all);
    NewestKept(all, kept);
    GrownOk(name, s, body);
    LookupUnique(kept, |kept| - 1);
  }

  /** After a put the ref names the body, unless the ref already named a different one. */
  lemma PutRetrievable(name: Namer, c: Cache, task: int, body: Body)
    requires CacheOk(name, c)
    ensures Stored(PutSpec(name, c, task, body), task, name(body)) == Some(body) <==>
      !exists other :: other != body && Stored(c, task, name(body)) == Some(other)
    ensures Injective(name) ==> Stored(PutSpec(name, c, task, body), task, name(body)) == Some(body)
  {
    var s := ShelfAt(c, task);
    if Names(s, name(body)) {
      var b := Lookup(s, name(body)).value;
      var i :| 0 <= i < |s| && s[i] == Entry(name(body), b);
      assert s[i].ref == name(s[i].body);
    } else {
      NewestRetrievable(name, s, body);
      if task !in c.shelves { NewestOk(c.tasks, task); }
    }
  }

  // ---- Slices --------------------------------------------------------------

  datatype Slice = Slice(bytes: Body, eof: bool)

  function AtMost(a: nat, b: nat): nat {
    if a < b then a else b
  }

  /** The slice `get_slice` cuts; the end is computed with a saturating addition. */
  function SliceOf(body: Body, offset: Usize, len: Usize): Slice {
    var start := AtMost(offset, |body|);
    var end := AtMost(AtMost(offset + len, USIZE_MAX), |body|);
    Slice(body[start..end], end >= |body|)
  }

  /** What a slice holds: from `offset` on, as many bytes as were asked for or as there are, and eof exactly when the
      end of the request reaches the end of the body. */
  ghost predicate CutsFrom(body: Body, offset: nat, len: nat, s: Slice) {
    && |s.bytes| == (if offset >= |body| then 0 else if len < |body| - offset then len else |body| - offset)
    && (forall k :: 0 <= k < |s.bytes| ==> s.bytes[k] == body[offset + k])
    && (s.eof <==> offset + len >= |body|)
  }

  lemma SliceCuts(body: Body, offset: Usize, len: Usize)
    requires |body| <= USIZE_MAX
    ensures CutsFrom(body, offset, len, SliceOf(body, offset, len))
  {
  }

  lemma WholeSlice(body: Body)
    ensures |body| <= USIZE_MAX ==> SliceOf(body, 0, USIZE_MAX) == Slice(body, true)
  {
  }

  /** Reading on from `offset`, page `k` asking for `len(k)` bytes, until a page says eof. */
  function ReadOn(body: Body, offset: nat, len: nat -> Usize, k: nat): Body
    requires |body| <= USIZE_MAX && offset <= |body| && forall i :: len(i) > 0
    decreases |body| - offset
  {
    var s := SliceOf(body, offset, len(k));
    if s.eof then s.bytes else s.bytes + ReadOn(body, offset + |s.bytes|, len, k + 1)
  }

  /** Pages of any positive lengths concatenate to the rest of the body. */
  lemma {:induction false} PagesRestoreBody(body: Body, offset: nat, len: nat -> Usize, k: nat)
    requires |body| <= USIZE_MAX && offset <= |body| && forall i :: len(i) > 0
    ensures ReadOn(body, offset, len, k) == body[offset..]
    decreases |body| - offset
  {
    var s := SliceOf(body, offset, len(k));
    if !s.eof {
      PagesRestoreBody(body, offset + |s.bytes|, len, k + 1);
      assert body[offset..] == s.bytes + body[offset + |s.bytes|..];
    }
  }
}
