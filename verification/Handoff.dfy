/**
 The cache of core/src/handoff.rs itself: buckets with an order queue, a map of bodies and a running
 total, changed in place by `put` and `purge_task`.
 */
module Handoff {
  import opened Lifecycle
  import opened HandoffSpec
  import opened Sequences

  datatype Bucket = Bucket(order: seq<Ref>, bodies: map<Ref, Body>, total: nat)

  /** The order queue lists exactly the stored refs, once each. */
  ghost predicate Listed(b: Bucket) {
    && (forall i :: 0 <= i < |b.order| ==> b.order[i] in b.bodies)
    && (forall r :: r in b.bodies ==> r in b.order)
    && (forall i, j :: 0 <= i < j < |b.order| ==> b.order[i] != b.order[j])
  }

  ghost function ShelfOf(b: Bucket): Shelf
    requires Listed(b)
  {
    seq(|b.order|, i requires 0 <= i < |b.order| => Entry(b.order[i], b.bodies[b.order[i]]))
  }

  /** The total is the sum of the stored lengths. */
  ghost predicate BucketOk(b: Bucket) {
    Listed(b) && b.total == Size(ShelfOf(b))
  }

  function PopFront(b: Bucket): Bucket
    requires b.order != [] && b.order[0] in b.bodies && |b.bodies[b.order[0]]| <= b.total
  {
    Bucket(b.order[1..], b.bodies - {b.order[0]}, b.total - |b.bodies[b.order[0]]|)
  }

  function PushBack(b: Bucket, r: Ref, body: Body): Bucket {
    Bucket(b.order + [r], b.bodies[r := body], b.total + |body|)
  }

  lemma TailListed(b: Bucket, p: Bucket)
    requires Listed(b) && b.order != [] && p.order == b.order[1..] && p.bodies == b.bodies - {b.order[0]}
    ensures Listed(p)
  {
    assert forall i :: 0 <= i < |p.order| ==> p.order[i] == b.order[i + 1];
    forall r | r in p.bodies ensures r in p.order {
      var i :| 0 <= i < |b.order| && b.order[i] == r;
      assert p.order[i - 1] == r;
    }
  }

  lemma PopFrontShelf(b: Bucket)
    requires BucketOk(b) && b.order != []
    ensures |b.bodies[b.order[0]]| <= b.total && BucketOk(PopFront(b)) && ShelfOf(PopFront(b)) == ShelfOf(b)[1..]
  {
    assert ShelfOf(b)[0].body == b.bodies[b.order[0]];
    var p := PopFront(b);
    TailListed(b, p);
    assert ShelfOf(p) == ShelfOf(b)[1..];
  }

  lemma PushBackShelf(b: Bucket, r: Ref, body: Body)
    requires BucketOk(b) && r !in b.bodies
    ensures BucketOk(PushBack(b, r, body)) && ShelfOf(PushBack(b, r, body)) == ShelfOf(b) + [Entry(r, body)]
  {
    var p := PushBack(b, r, body);
    assert p.order[|b.order|] == r;
    forall q | q in p.bodies ensures q in p.order {
      if q != r { assert q in b.order; }
    }
    assert ShelfOf(p) == ShelfOf(b) + [Entry(r, body)];
    SizeSnoc(ShelfOf(b), Entry(r, body));
  }

  /** The eviction loop: oldest first, never the newest. */
  method EvictOldest(b: Bucket) returns (kept: Bucket)
    requires BucketOk(b)
    ensures BucketOk(kept) && ShelfOf(kept) == Trim(ShelfOf(b))
  {
    kept := b;
    while kept.total > PER_TASK_BYTE_BUDGET && |kept.order| > 1
      invariant BucketOk(kept) && Trim(ShelfOf(kept)) == Trim(ShelfOf(b))
      decreases |kept.order|
    {
      PopFrontShelf(kept);
      assert |ShelfOf(kept)| == |kept.order|;
      kept := PopFront(kept);
    }
    assert |ShelfOf(kept)| == |kept.order|;
  }

  lemma ShelfAtIndex(b: Bucket, i: nat)
    requires Listed(b) && i < |b.order|
    ensures Distinct(ShelfOf(b)) && ShelfOf(b)[i] == Entry(b.order[i], b.bodies[b.order[i]])
  {
  }

  /** Lookup in the bucket's map is lookup on its shelf. */
  lemma BucketLookup(b: Bucket, r: Ref)
    requires Listed(b)
    ensures Lookup(ShelfOf(b), r) == if r in b.bodies then Some(b.bodies[r]) else None
  {
    if r in b.bodies {
      var i :| 0 <= i < |b.order| && b.order[i] == r;
      ShelfAtIndex(b, i);
      LookupUnique(ShelfOf(b), i);
    } else {
      NotNamed(b, r);
    }
  }

  lemma NotNamed(b: Bucket, r: Ref)
    requires Listed(b) && r !in b.bodies
    ensures !Names(ShelfOf(b), r)
  {
  }

  ghost predicate AllOk(buckets: map<int, Bucket>) {
    forall t :: t in buckets ==> BucketOk(buckets[t])
  }

  ghost function ViewOf(order: seq<int>, buckets: map<int, Bucket>): Cache
    requires AllOk(buckets)
  {
    Cache(order, map t | t in buckets :: ShelfOf(buckets[t]))
  }

  function BucketAt(buckets: map<int, Bucket>, task: int): Bucket {
    if task in buckets then buckets[task] else Bucket([], map[], 0)
  }

  lemma BucketAtShelf(buckets: map<int, Bucket>, order: seq<int>, task: int)
    requires AllOk(buckets)
    ensures BucketOk(BucketAt(buckets, task)) && ShelfOf(BucketAt(buckets, task)) == ShelfAt(ViewOf(order, buckets), task)
  {
  }

  /** `kept` is what the task's bucket becomes when `body` is added. */
  ghost predicate Grows(name: Namer, order: seq<int>, buckets: map<int, Bucket>, task: int, body: Body, kept: Bucket) {
    && AllOk(buckets) && BucketOk(kept)
    && var s := ShelfAt(ViewOf(order, buckets), task);
    && !Names(s, name(body)) && ShelfOf(kept) == Trim(s + [Entry(name(body), body)])
  }

  lemma OldTaskRefines(name: Namer, order: seq<int>, buckets: map<int, Bucket>, task: int, body: Body, kept: Bucket)
    requires Grows(name, order, buckets, task, body, kept) && task in buckets
    ensures AllOk(buckets[task := kept])
    ensures ViewOf(order, buckets[task := kept]) == PutSpec(name, ViewOf(order, buckets), task, body)
  {
  }

  function Restricted(buckets: map<int, Bucket>, order: seq<int>): map<int, Bucket> {
    map t | t in buckets && t in order :: buckets[t]
  }

  lemma NewTaskQueued(name: Namer, order: seq<int>, buckets: map<int, Bucket>, task: int, kept: Bucket)
    requires AllOk(buckets) && QueueOk(order, ViewOf(order, buckets).shelves) && task !in buckets
    ensures NoRepeats(order + [task]) && forall t :: t in order + [task] <==> t in buckets[task := kept]
  {
    assert forall t :: t in ViewOf(order, buckets).shelves <==> t in buckets;
  }

  lemma ShelvesUpdated(order: seq<int>, buckets: map<int, Bucket>, task: int, kept: Bucket)
    requires AllOk(buckets) && BucketOk(kept)
    ensures AllOk(buckets[task := kept])
    ensures ViewOf(order, buckets[task := kept]).shelves == ViewOf(order, buckets).shelves[task := ShelfOf(kept)]
  {
  }

  lemma ShelvesRestricted(order: seq<int>, buckets: map<int, Bucket>, tasks: seq<int>)
    requires AllOk(buckets)
    ensures AllOk(Restricted(buckets, tasks))
    ensures var all := ViewOf(order, buckets).shelves;
            ViewOf(tasks, Restricted(buckets, tasks)).shelves == map t | t in all && t in tasks :: all[t]
  {
  }

  lemma NewTaskRefines(name: Namer, order: seq<int>, buckets: map<int, Bucket>, task: int, body: Body, kept: Bucket)
    requires Grows(name, order, buckets, task, body, kept) && task !in buckets
    ensures AllOk(Restricted(buckets[task := kept], Newest(order + [task])))
    ensures ViewOf(Newest(order + [task]), Restricted(buckets[task := kept], Newest(order + [task]))) ==
      PutSpec(name, ViewOf(order, buckets), task, body)
  {
    ShelvesUpdated(order, buckets, task, kept);
    ShelvesRestricted(order, buckets[task := kept], Newest(order + [task]));
  }

  /** The backstop loop: oldest-inserted tasks go, whole. */
  method EvictTasks(order: seq<int>, buckets: map<int, Bucket>) returns (order': seq<int>, buckets': map<int, Bucket>)
    requires NoRepeats(order) && forall t :: t in order <==> t in buckets
    ensures order' == Newest(order) && buckets' == Restricted(buckets, Newest(order))
  {
    order', buckets' := order, buckets;
    ghost var k := 0;
    while |order'| > MAX_TRACKED_TASKS
      invariant 0 <= k <= |order| && order' == order[k..]
      invariant k > 0 ==> |order'| >= MAX_TRACKED_TASKS
      invariant forall t :: t in order' <==> t in buckets'
      invariant forall t :: t in buckets' ==> t in buckets && buckets'[t] == buckets[t]
      decreases |order'|
    {
      var victim := order'[0];
      HeadGone(order, k);
      buckets' := buckets' - {victim};
      order' := order'[1..];
      k := k + 1;
    }
    assert order' == Newest(order);
    RestrictedIs(buckets, buckets', order');
  }

  lemma RestrictedIs(buckets: map<int, Bucket>, rest: map<int, Bucket>, order: seq<int>)
    requires forall t :: t in order <==> t in rest
    requires forall t :: t in rest ==> t in buckets && rest[t] == buckets[t]
    ensures rest == Restricted(buckets, order)
  {
    var r := Restricted(buckets, order);
    assert forall t :: t in rest <==> t in r;
    assert forall t :: t in rest ==> r[t] == rest[t];
  }

  lemma HeadGone(order: seq<int>, k: nat)
    requires NoRepeats(order) && k < |order|
    ensures order[k..][1..] == order[k + 1..]
    ensures forall t :: t in order[k + 1..] <==> t in order[k..] && t != order[k]
  {
    var rest := order[k + 1..];
    assert order[k..] == [order[k]] + rest;
    assert forall i :: 0 <= i < |rest| ==> rest[i] == order[k + 1 + i];
  }

  datatype StashOutcome = StashOutcome(ref: Ref, byteLen: nat)

  class HandoffCache {
    const name: Namer
    var buckets: map<int, Bucket>
    var order: seq<int>

    ghost predicate Valid()
      reads this
    {
      AllOk(buckets) && CacheOk(name, View())
    }

    ghost function View(): Cache
      requires AllOk(buckets)
      reads this
    {
      ViewOf(order, buckets)
    }

    constructor (name: Namer)
      ensures Valid() && View() == EMPTY && this.name == name
    {
      this.name := name;
      buckets, order := map[], [];
    }

    /** Stash a body: what the cache then holds is the specified state, and the invariants stay. */
    method Put(task: int, body: Body) returns (r: Ref)
      requires Valid()
      modifies this
      ensures Valid() && r == name(body) && View() == PutSpec(name, old(View()), task, body)
    {
      r := name(body);
      PutKeepsOk(name, View(), task, body);
      var isNewTask := task !in buckets;
      var bucket := BucketAt(buckets, task);
      BucketAtShelf(buckets, order, task);
      BucketLookup(bucket, r);
      if r in bucket.bodies { return; }
      PushBackShelf(bucket, r, body);
      var kept := EvictOldest(PushBack(bucket, r, body));
      var grown := buckets[task := kept];
      if isNewTask {
        NewTaskQueued(name, order, buckets, task, kept);
        NewTaskRefines(name, order, buckets, task, body, kept);
        var order', buckets' := EvictTasks(order + [task], grown);
        order, buckets := order', buckets';
      } else {
        OldTaskRefines(name, order, buckets, task, body, kept);
        buckets := grown;
      }
    }

    /** Up to `len` bytes of the body from `offset`, if the body is still there. */
    method GetSlice(task: int, r: Ref, offset: Usize, len: Usize) returns (s: Option<Slice>)
      requires Valid()
      ensures s == match Stored(View(), task, r) { case None => None case Some(body) => Some(SliceOf(body, offset, len)) }
      ensures s.Some? <==> Stored(View(), task, r).Some?
      ensures s.Some? ==> |s.value.bytes| <= len
      ensures s.Some? && |Stored(View(), task, r).value| <= USIZE_MAX ==> CutsFrom(Stored(View(), task, r).value, offset, len, s.value)
    {
      if task !in buckets { return None; }
      BucketLookup(buckets[task], r);
      if r !in buckets[task].bodies { return None; }
      var body := buckets[task].bodies[r];
      if |body| <= USIZE_MAX { SliceCuts(body, offset, len); }
      s := Some(SliceOf(body, offset, len));
    }

    /** The whole body, as one slice. */
    method Whole(task: int, r: Ref) returns (b: Option<Body>)
      requires Valid()
      ensures Stored(View(), task, r).None? ==> b.None?
      ensures Stored(View(), task, r).Some? && |Stored(View(), task, r).value| <= USIZE_MAX ==> b == Stored(View(), task, r)
    {
      var s := GetSlice(task, r, 0, USIZE_MAX);
      if s.None? { return None; }
      WholeSlice(Stored(View(), task, r).value);
      b := Some(s.value.bytes);
    }

    /** Drop everything stashed for a task. */
    method PurgeTask(task: int)
      requires Valid()
      modifies this
      ensures Valid() && View() == PurgeSpec(old(View()), task)
    {
      PurgeKeepsOk(name, View(), task);
      buckets := buckets - {task};
      order := Without(order, task);
      assert View() == PurgeSpec(old(View()), task);
    }

    /** Stash a serialized result over `cap` bytes; leave a smaller one, and the cache, alone. */
    method StashIfOversized(task: int, body: Body, cap: nat) returns (o: Option<StashOutcome>)
      requires Valid()
      modifies this
      ensures Valid() && (o.None? <==> |body| <= cap)
      ensures o.None? ==> View() == old(View())
      ensures o.Some? ==> o.value == StashOutcome(name(body), |body|) && View() == PutSpec(name, old(View()), task, body)
    {
      if |body| <= cap { return None; }
      var r := Put(task, body);
      o := Some(StashOutcome(r, |body|));
    }
  }
}
