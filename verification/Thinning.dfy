/**
 The counter of core/src/audit_thinning.rs that decides row by row, holding only counts and the
 causes of the current stretch; it is proved to say what BurstSpec says of the whole history.
 */
module Thinning {
  import opened Lifecycle
  import opened BurstSpec

  /** The first eight distinct causes of a stretch, in order of arrival. */
  function SeenIn<C(==)>(w: seq<C>): (s: seq<C>)
    ensures |s| <= MAX_CAUSES_PER_STRETCH
  {
    if w == [] then []
    else
      var s := SeenIn(Init(w));
      if Last(w) !in s && |s| < MAX_CAUSES_PER_STRETCH then s + [Last(w)] else s
  }

  /** The bounded list decides what the whole stretch would. */
  lemma {:induction false} SeenDecides<C>(w: seq<C>, c: C)
    ensures (c !in SeenIn(w) && |SeenIn(w)| < MAX_CAUSES_PER_STRETCH) <==> (c !in Elements(w) && |Elements(w)| < MAX_CAUSES_PER_STRETCH)
  {
    SeenExact(w);
  }

  lemma {:induction false} SeenExact<C>(w: seq<C>)
    ensures |SeenIn(w)| < MAX_CAUSES_PER_STRETCH ==> Elements(SeenIn(w)) == Elements(w)
    ensures Elements(SeenIn(w)) <= Elements(w) && |Elements(SeenIn(w))| == |SeenIn(w)|
    ensures |SeenIn(w)| <= |Elements(w)|
  {
    if w != [] {
      var s, c := SeenIn(Init(w)), Last(w);
      SeenExact(Init(w));
      assert w == Init(w) + [c];
      assert Elements(w) == Elements(Init(w)) + {c};
      assert Elements(s + [c]) == Elements(s) + {c};
      SubsetSize(Elements(SeenIn(w)), Elements(w));
    }
  }

  lemma {:induction false} SubsetSize<C>(a: set<C>, b: set<C>)
    requires a <= b
    ensures |a| <= |b|
  {
    if a != {} {
      var x :| x in a;
      SubsetSize(a - {x}, b - {x});
    }
  }

  /** Row `n` is a 2^k-th line past the first sixteen: the causes start afresh. */
  predicate Afresh(n: nat) {
    n >= REPORT_EACH_UP_TO && ShouldReport(n)
  }

  /** Where the stretch of the row before row `n` started. */
  function StartBefore(n: nat): (s: nat)
    ensures s <= n
  {
    if n == 0 then 0 else StretchStart(n - 1)
  }

  lemma StartStep(n: nat)
    ensures StretchStart(n) == if Afresh(n) then n else StartBefore(n)
  {
    SixteenIsPower();
    if n >= 2 { PowerStep(n); }
  }

  /** The causes of the stretch the burst's last row belongs to. */
  function Stretch<C>(b: seq<C>): seq<C> {
    b[StartBefore(|b|)..]
  }

  /** The causes row `|b|` of the burst finds in its stretch. */
  function Joined<C>(b: seq<C>): seq<C> {
    if Afresh(|b|) then [] else Stretch(b)
  }

  lemma SliceSnoc<C>(b: seq<C>, c: C, s: nat)
    requires s <= |b|
    ensures (b + [c])[s..|b|] == b[s..] && (b + [c])[s..] == b[s..] + [c]
  {
  }

  lemma StretchSnoc<C>(b: seq<C>, c: C)
    ensures Stretch(b + [c]) == Joined(b) + [c]
    ensures Joined(b) == (b + [c])[StretchStart(|b|)..|b|]
  {
    StartStep(|b|);
    SliceSnoc(b, c, StretchStart(|b|));
  }

  lemma SinceDecided<C>(b: seq<C>, c: C)
    ensures NewCause(b + [c], |b|) <==> c !in SeenIn(Joined(b)) && |SeenIn(Joined(b))| < MAX_CAUSES_PER_STRETCH
    ensures SeenIn(Stretch(b + [c])) == SeenIn(Joined(b)) + if NewCause(b + [c], |b|) then [c] else []
  {
    StretchSnoc(b, c);
    SeenDecides(Joined(b), c);
    InitLast(Joined(b), c);
  }

  function SaturatingSince(now: int, earlier: int): nat {
    if now > earlier then now - earlier else 0
  }

  function Max(a: int, b: int): int {
    if a < b then b else a
  }

  /** The counters of a burst. */
  datatype Counts<C> = Counts(n: nat, reported: nat, seen: seq<C>, since: nat)

  /** The counters stand for the burst `b`. */
  ghost predicate CountsFor<C>(b: seq<C>, k: Counts<C>) {
    && k.reported <= k.n == |b| && k.reported == LinesUpTo(b, |b|)
    && k.seen == SeenIn(Stretch(b)) && k.since == StartBefore(k.n) + 1
  }

  /** The tally says where a row of cause `c` stands when it joins burst `b`. */
  ghost predicate Describes<C>(t: BurstTally, b: seq<C>, c: C) {
    && t.nth == |b| + 1
    && t.newCauseSince == Since(b + [c], |b|)
    && t.unsaidBefore == |b| - LinesUpTo(b + [c], |b|)
  }

  function EndedOf<C>(k: Counts<C>): Option<EndedBurst> {
    if k.n > k.reported then Some(EndedBurst(k.n, k.n - k.reported)) else None
  }

  /** One row of cause `c` takes the counters from `k` to `k'` and is given tally `t`. */
  ghost predicate RowStep<C>(k: Counts<C>, k': Counts<C>, c: C, t: BurstTally) {
    var seen := if Afresh(k.n) then [] else k.seen;
    var isNew := c !in seen && |seen| < MAX_CAUSES_PER_STRETCH;
    && k'.since == (if Afresh(k.n) then k.n + 1 else k.since)
    && k'.seen == (if isNew then seen + [c] else seen)
    && k'.n == k.n + 1 && k'.reported == k.reported + (if HasOwnLine(t) then 1 else 0)
    && t.nth == k.n + 1 && t.unsaidBefore == k.n - k.reported
    && t.newCauseSince == if isNew && !ShouldReport(k.n) then Some(k'.since) else None
  }

  /** A row's reason for a line, and the causes after it. */
  lemma CausesAfter<C>(b: seq<C>, c: C, k: Counts<C>, k': Counts<C>, t: BurstTally)
    requires CountsFor(b, k) && RowStep(k, k', c, t)
    ensures k'.seen == SeenIn(Stretch(b + [c])) && k'.since == StartBefore(k.n + 1) + 1
    ensures t.newCauseSince == Since(b + [c], k.n)
  {
    StartStep(k.n);
    assert StartBefore(k.n + 1) == StretchStart(k.n);
    SinceDecided(b, c);
  }

  /** Counting one more row keeps the counters true, and the tally says where the row stands. */
  lemma TracksRow<C>(b: seq<C>, c: C, k: Counts<C>, k': Counts<C>, t: BurstTally)
    requires CountsFor(b, k) && RowStep(k, k', c, t)
    ensures CountsFor(b + [c], k') && Describes(t, b, c)
  {
    CausesAfter(b, c, k, k', t);
    TallyLine(b + [c], k.n, t);
    LinesStable(b, [c], k.n);
    LinesStep(b + [c], k.n);
  }

  /** The counters when burst `b` has ended: it leaves what its rows left unsaid. */
  lemma EndedCounts<C>(b: seq<C>, k: Counts<C>)
    requires CountsFor(b, k)
    ensures Leftover(b) == EndedOf(k) && UnsaidOf(EndedOf(k)) == k.n - k.reported
    ensures CountsFor<C>([], Counts(0, 0, [], 1))
  {
  }

  /** A row at `now` ends the current burst. */
  predicate QuietAt<C>(h: seq<Row<C>>, now: int) {
    h != [] && now - Latest(h) >= BURST_QUIET_GAP
  }

  /** The burst a row at `now` joins. */
  function JoinedBurst<C>(h: seq<Row<C>>, now: int): seq<C> {
    if QuietAt(h, now) then [] else Burst(h)
  }

  /** What ends when a row arrives at `now`. */
  function EndsAt<C(==)>(h: seq<Row<C>>, now: int): Option<EndedBurst> {
    if QuietAt(h, now) then Leftover(Burst(h)) else None
  }

  function UnsaidOf(e: Option<EndedBurst>): nat {
    match e case None => 0 case Some(b) => b.unsaid
  }

  ghost predicate Clocked<C>(h: seq<Row<C>>, last: Option<int>) {
    last == if h == [] then None else Some(Latest(h))
  }

  lemma RowAppended<C>(h: seq<Row<C>>, row: Row<C>)
    ensures Burst(h + [row]) == JoinedBurst(h, row.at) + [row.cause]
    ensures Latest(h + [row]) == if h == [] then row.at else Max(Latest(h), row.at)
    ensures Verdict(h + [row]).ended == EndsAt(h, row.at)
  {
    InitLast(h, row);
    if h == [] { assert Burst<C>([]) == []; }
  }

  lemma AnnouncedAppended<C>(h: seq<Row<C>>, row: Row<C>)
    ensures TotalUnsaid(Announced(h + [row])) == TotalUnsaid(Announced(h)) + UnsaidOf(EndsAt(h, row.at))
  {
    RowAppended(h, row);
    InitLast(h, row);
    match Verdict(h + [row]).ended
    case Some(e) => InitLast(Announced(h), e);
    case None => assert Announced(h + [row]) == Announced(h);
  }

  /** The verdict on an appended row, from the burst it joins. */
  lemma VerdictAppended<C>(h: seq<Row<C>>, row: Row<C>, b: seq<C>, t: BurstTally)
    requires b == JoinedBurst(h, row.at)
    requires Describes(t, b, row.cause) && t.ended == EndsAt(h, row.at)
    ensures t == Verdict(h + [row])
  {
    RowAppended(h, row);
  }

  /** The fields stand for the history. */
  ghost predicate Stands<C>(h: seq<Row<C>>, k: Counts<C>, last: Option<int>, unreported: nat) {
    CountsFor(Burst(h), k) && Clocked(h, last) && unreported == TotalUnsaid(Announced(h))
  }

  /** After the counters step and the clock moves, they stand for the longer history, and the tally is its verdict. */
  lemma RefuseCorrect<C>(h: seq<Row<C>>, row: Row<C>, k: Counts<C>, k': Counts<C>, last: Option<int>, last': Option<int>, unreported: nat, t: BurstTally)
    requires CountsFor(JoinedBurst(h, row.at), k) && RowStep(k, k', row.cause, t) && t.ended == EndsAt(h, row.at)
    requires Clocked(h, last) && last' == Some(if last.Some? then Max(last.value, row.at) else row.at)
    requires unreported == TotalUnsaid(Announced(h)) + UnsaidOf(t.ended)
    ensures Stands(h + [row], k', last', unreported) && t == Verdict(h + [row])
  {
    var b := JoinedBurst(h, row.at);
    TracksRow(b, row.cause, k, k', t);
    RowAppended(h, row);
    AnnouncedAppended(h, row);
    VerdictAppended(h, row, b, t);
  }

  class Thinning<C(==, !new)> {
    var inBurst: nat
    var reportedInBurst: nat
    var seen: seq<C>
    var causesSince: nat
    var last: Option<int>
    var unreportedBefore: nat
    ghost var history: seq<Row<C>>

    ghost function Now(): Counts<C>
      reads this
    {
      Counts(inBurst, reportedInBurst, seen, causesSince)
    }

    ghost predicate Valid()
      reads this
    {
      Stands(history, Now(), last, unreportedBefore)
    }

    constructor ()
      ensures Valid() && history == []
    {
      inBurst, reportedInBurst, seen, causesSince, last, unreportedBefore := 0, 0, [], 1, None, 0;
      history := [];
    }

    /** Rows refused minus rows reported, over every burst. */
    method UnreportedRows() returns (n: nat)
      requires Valid()
      ensures n == Unreported(history) == |history| - Reported(history)
    {
      Conservation(history);
      n := unreportedBefore + (inBurst - reportedInBurst);
    }

    /** Counts one refused row; its tally is what the whole history calls for. */
    method Refuse(now: int, cause: C) returns (tally: BurstTally)
      requires Valid()
      modifies this
      ensures Valid() && history == old(history) + [Row(now, cause)]
      ensures tally == Verdict(history)
    {
      ghost var h, row, l := history, Row(now, cause), last;
      var ended := EndIfQuiet(now);
      ghost var k := Now();
      tally := CountRow(cause, ended);
      last := Some(if last.Some? then Max(last.value, now) else now);
      history := h + [row];
      RefuseCorrect(h, row, k, Now(), l, last, unreportedBefore, tally);
    }

    /** The first half of `refuse`: a quiet gap ends the burst. */
    method EndIfQuiet(now: int) returns (ended: Option<EndedBurst>)
      requires Valid()
      modifies this`inBurst, this`reportedInBurst, this`seen, this`causesSince, this`unreportedBefore
      ensures CountsFor(JoinedBurst(history, now), Now())
      ensures ended == EndsAt(history, now) && unreportedBefore == old(unreportedBefore) + UnsaidOf(ended)
    {
      EndedCounts(Burst(history), Now());
      var quiet := last.Some? && SaturatingSince(now, last.value) >= BURST_QUIET_GAP;
      assert quiet <==> QuietAt(history, now);
      ended := None;
      if quiet { ended := EndBurst(); }
    }

    /** The burst is over. */
    method EndBurst() returns (ended: Option<EndedBurst>)
      requires reportedInBurst <= inBurst
      modifies this`inBurst, this`reportedInBurst, this`seen, this`causesSince, this`unreportedBefore
      ensures Now() == Counts(0, 0, [], 1) && ended == EndedOf(old(Now()))
      ensures unreportedBefore == old(unreportedBefore) + UnsaidOf(ended)
    {
      var unsaid := inBurst - reportedInBurst;
      ended := None;
      if unsaid > 0 { ended := Some(EndedBurst(inBurst, unsaid)); }
      unreportedBefore := unreportedBefore + unsaid;
      inBurst, reportedInBurst, seen, causesSince := 0, 0, [], 1;
    }

    /** The second half of `refuse`: the row joins the burst. */
    method CountRow(cause: C, ended: Option<EndedBurst>) returns (tally: BurstTally)
      requires reportedInBurst <= inBurst
      modifies this`inBurst, this`reportedInBurst, this`seen, this`causesSince
      ensures RowStep(old(Now()), Now(), cause, tally) && tally.ended == ended
    {
      var n := inBurst;
      var line := ShouldReport(n);
      if line && n >= REPORT_EACH_UP_TO {
        seen, causesSince := [], n + 1;
      }
      var newCause := cause !in seen && |seen| < MAX_CAUSES_PER_STRETCH;
      if newCause { seen := seen + [cause]; }
      tally := BurstTally(n + 1, if newCause && !line then Some(causesSince) else None, n - reportedInBurst, ended);
      inBurst := inBurst + 1;
      reportedInBurst := reportedInBurst + if HasOwnLine(tally) then 1 else 0;
    }
  }
}
