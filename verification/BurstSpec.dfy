/**
 Which refused audit rows get a line of their own (core/src/audit_thinning.rs), defined on the whole
 history of refusals rather than on counters.
 */
module BurstSpec {
  import opened Lifecycle
  import opened Sequences

  const REPORT_EACH_UP_TO: nat := 16
  const MAX_CAUSES_PER_STRETCH: nat := 8
  /** 60 seconds, in nanoseconds. */
  const BURST_QUIET_GAP: nat := 60_000_000_000

  // ---- Powers of two -------------------------------------------------------

  /** `n` is `p` doubled some number of times. */
  predicate DoubledFrom(n: nat, p: nat)
    requires p >= 1
    decreases n - p
  {
    p == n || (p < n && DoubledFrom(n, 2 * p))
  }

  predicate IsPowerOfTwo(n: nat) {
    DoubledFrom(n, 1)
  }

  /** The last of p, 2p, 4p, ... that is at most `n`. */
  function FloorFrom(n: nat, p: nat): (f: nat)
    requires 1 <= p <= n
    ensures p <= f <= n < 2 * f
    decreases n - p
  {
    if n < 2 * p then p else FloorFrom(n, 2 * p)
  }

  /** The largest power of two that is at most `n`. */
  function FloorPower(n: nat): (p: nat)
    requires n >= 1
    ensures p <= n < 2 * p
  {
    FloorFrom(n, 1)
  }

  /** How often `p` can be doubled without exceeding `n`. */
  function LogFrom(n: nat, p: nat): nat
    requires 1 <= p <= n
    decreases n - p
  {
    if n < 2 * p then 0 else 1 + LogFrom(n, 2 * p)
  }

  /** `ilog2`. */
  function Log2(n: nat): nat
    requires n >= 1
  {
    LogFrom(n, 1)
  }

  lemma {:induction false} FloorIsDoubled(n: nat, p: nat)
    requires 1 <= p <= n
    ensures DoubledFrom(FloorFrom(n, p), p)
    decreases n - p
  {
    if n >= 2 * p { FloorIsDoubled(n, 2 * p); }
  }

  lemma FloorIsPower(n: nat)
    requires n >= 1
    ensures IsPowerOfTwo(FloorPower(n))
  {
    FloorIsDoubled(n, 1);
  }

  lemma {:induction false} DoubledStep(n: nat, p: nat)
    requires 1 <= p < n
    ensures FloorFrom(n, p) == if DoubledFrom(n, p) then n else FloorFrom(n - 1, p)
    ensures LogFrom(n, p) == LogFrom(n - 1, p) + if DoubledFrom(n, p) then 1 else 0
    decreases n - p
  {
    if n > 2 * p {
      DoubledStep(n, 2 * p);
    } else if n == 2 * p {
      assert DoubledFrom(n, 2 * p) && FloorFrom(n, 2 * p) == n && LogFrom(n, 2 * p) == 0;
    }
  }

  /** The logarithm and the largest power below move exactly at the powers of two. */
  lemma PowerStep(n: nat)
    requires n >= 2
    ensures FloorPower(n) == if IsPowerOfTwo(n) then n else FloorPower(n - 1)
    ensures Log2(n) == Log2(n - 1) + if IsPowerOfTwo(n) then 1 else 0
  {
    DoubledStep(n, 1);
  }

  lemma SixteenIsPower()
    ensures IsPowerOfTwo(REPORT_EACH_UP_TO) && Log2(REPORT_EACH_UP_TO) == 4
  {
    assert DoubledFrom(16, 8) && DoubledFrom(16, 4) && DoubledFrom(16, 2);
    assert LogFrom(16, 8) == 1 && LogFrom(16, 4) == 2 && LogFrom(16, 2) == 3;
  }

  // ---- One burst -----------------------------------------------------------

  predicate ShouldReport(n: nat) {
    n < REPORT_EACH_UP_TO || IsPowerOfTwo(n)
  }

  /** The index where the stretch of row `i` starts: the last 2^k-th line, or the burst's start before the first. */
  function StretchStart(i: nat): (s: nat)
    ensures s <= i
  {
    if i < REPORT_EACH_UP_TO then 0 else FloorPower(i)
  }

  function Elements<C(==)>(s: seq<C>): set<C> {
    set c | c in s
  }

  /** Row `i`'s cause is new in its stretch, and fewer than eight causes came before it there. */
  predicate NewCause<C(==)>(b: seq<C>, i: nat)
    requires i < |b|
  {
    var before := Elements(b[StretchStart(i)..i]);
    b[i] !in before && |before| < MAX_CAUSES_PER_STRETCH
  }

  /** Row `i` of burst `b` gets a line of its own. */
  predicate OwnLine<C(==)>(b: seq<C>, i: nat)
    requires i < |b|
  {
    ShouldReport(i) || NewCause(b, i)
  }

  /** How many of the burst's first `n` rows got a line. */
  function LinesUpTo<C(==)>(b: seq<C>, n: nat): (r: nat)
    requires n <= |b|
    ensures r <= n
  {
    if n == 0 then 0 else LinesUpTo(b, n - 1) + if OwnLine(b, n - 1) then 1 else 0
  }

  function Unsaid<C(==)>(b: seq<C>): nat {
    |b| - LinesUpTo(b, |b|)
  }

  /** The powers of two in [16, n - 1]. */
  function Powers(n: nat): nat {
    if n <= REPORT_EACH_UP_TO then 0 else Powers(n - 1) + if IsPowerOfTwo(n - 1) then 1 else 0
  }

  function Min(a: nat, b: nat): nat {
    if a < b then a else b
  }

  /** `unreported_of`. */
  function UnreportedOf(refused: nat): int {
    var each := Min(refused, REPORT_EACH_UP_TO);
    var powers := if refused > REPORT_EACH_UP_TO then Log2(refused - 1) - Log2(REPORT_EACH_UP_TO) + 1 else 0;
    refused - each - powers
  }

  lemma {:induction false} PowersClosed(n: nat)
    requires n > REPORT_EACH_UP_TO
    ensures Powers(n) == Log2(n - 1) - Log2(REPORT_EACH_UP_TO) + 1
  {
    SixteenIsPower();
    if n > REPORT_EACH_UP_TO + 1 {
      PowersClosed(n - 1);
      PowerStep(n - 1);
    } else {
      assert Powers(16) == 0;
    }
  }

  /** A row's verdict depends on the rows up to it only. */
  lemma OwnLineStable<C>(b: seq<C>, tail: seq<C>, i: nat)
    requires i < |b|
    ensures OwnLine(b + tail, i) == OwnLine(b, i) && NewCause(b + tail, i) == NewCause(b, i)
  {
    assert (b + tail)[StretchStart(i)..i] == b[StretchStart(i)..i];
  }

  lemma LinesStep<C>(b: seq<C>, n: nat)
    requires n < |b|
    ensures LinesUpTo(b, n + 1) == LinesUpTo(b, n) + if OwnLine(b, n) then 1 else 0
  {
  }

  lemma {:induction false} LinesStable<C>(b: seq<C>, tail: seq<C>, n: nat)
    requires n <= |b|
    ensures LinesUpTo(b + tail, n) == LinesUpTo(b, n)
  {
    if n > 0 {
      LinesStable(b, tail, n - 1);
      LinesStableStep(b, b + tail, n - 1);
    }
  }

  lemma LinesStableStep<C>(b: seq<C>, longer: seq<C>, n: nat)
    requires n < |b| && b <= longer && LinesUpTo(longer, n) == LinesUpTo(b, n)
    ensures LinesUpTo(longer, n + 1) == LinesUpTo(b, n + 1)
  {
    assert longer == b + longer[|b|..];
    OwnLineStable(b, longer[|b|..], n);
    LinesStep(b, n);
    LinesStep(longer, n);
  }

  lemma UnsaidSnoc<C>(b: seq<C>, c: C)
    ensures LinesUpTo(b + [c], |b|) == LinesUpTo(b, |b|)
    ensures Unsaid(b + [c]) == Unsaid(b) + if OwnLine(b + [c], |b|) then 0 else 1
  {
    LinesStable(b, [c], |b|);
  }

  /** Distinct causes in the stretch that holds row `n - 1`. */
  function StretchCauses<C(==)>(b: seq<C>, n: nat): set<C>
    requires 0 < n <= |b|
  {
    Elements(b[StretchStart(n - 1)..n])
  }

  /** Adding row `n` to its stretch. */
  lemma StretchGrows<C>(b: seq<C>, n: nat)
    requires REPORT_EACH_UP_TO < n < |b| && !IsPowerOfTwo(n)
    ensures StretchStart(n) == StretchStart(n - 1)
    ensures Elements(b[StretchStart(n)..n]) == StretchCauses(b, n)
    ensures StretchCauses(b, n + 1) == StretchCauses(b, n) + {b[n]}
  {
    PowerStep(n);
    assert b[StretchStart(n)..n + 1] == b[StretchStart(n)..n] + [b[n]];
  }

  lemma StretchOpens<C>(b: seq<C>, n: nat)
    requires REPORT_EACH_UP_TO <= n < |b| && IsPowerOfTwo(n)
    ensures StretchStart(n) == n && StretchCauses(b, n + 1) == {b[n]}
  {
    PowerStep(n);
    assert StretchStart(n) == n;
    assert b[n..n + 1] == [b[n]];
  }

  /** The first `n` rows stay within the budget: in the open stretch each line spent one of its eight causes. */
  ghost predicate WithinBudget<C>(b: seq<C>, n: nat)
    requires n <= |b|
  {
    && Min(n, REPORT_EACH_UP_TO) + Powers(n) <= LinesUpTo(b, n)
    && (n <= REPORT_EACH_UP_TO ==> LinesUpTo(b, n) == n)
    && (n > REPORT_EACH_UP_TO ==>
      Powers(n) >= 1 && LinesUpTo(b, n) <= REPORT_EACH_UP_TO + 8 * (Powers(n) - 1) + Min(8, |StretchCauses(b, n)|))
  }

  lemma BudgetAtPower<C>(b: seq<C>, n: nat)
    requires REPORT_EACH_UP_TO <= n < |b| && IsPowerOfTwo(n) && WithinBudget(b, n)
    ensures WithinBudget(b, n + 1)
  {
    StretchOpens(b, n);
    assert Powers(n + 1) == Powers(n) + 1;
    assert LinesUpTo(b, n + 1) == LinesUpTo(b, n) + 1;
  }

  lemma BudgetBetween<C>(b: seq<C>, n: nat)
    requires REPORT_EACH_UP_TO < n < |b| && !IsPowerOfTwo(n) && WithinBudget(b, n)
    ensures WithinBudget(b, n + 1)
  {
    StretchGrows(b, n);
    assert Powers(n + 1) == Powers(n);
    var seen := StretchCauses(b, n);
    assert LinesUpTo(b, n + 1) == LinesUpTo(b, n) + if b[n] !in seen && |seen| < 8 then 1 else 0;
    assert b[n] in seen ==> seen + {b[n]} == seen;
    assert b[n] !in seen ==> |seen + {b[n]}| == |seen| + 1;
  }

  lemma BudgetEarly<C>(b: seq<C>, n: nat)
    requires n < |b| && n < REPORT_EACH_UP_TO && WithinBudget(b, n)
    ensures WithinBudget(b, n + 1)
  {
    assert LinesUpTo(b, n + 1) == LinesUpTo(b, n) + 1;
  }

  lemma BudgetStep<C>(b: seq<C>, n: nat)
    requires n < |b| && WithinBudget(b, n)
    ensures WithinBudget(b, n + 1)
  {
    SixteenIsPower();
    if n < REPORT_EACH_UP_TO {
      BudgetEarly(b, n);
    } else if IsPowerOfTwo(n) {
      BudgetAtPower(b, n);
    } else {
      BudgetBetween(b, n);
    }
  }

  lemma {:induction false} LinesBudget<C>(b: seq<C>, n: nat)
    requires n <= |b|
    ensures WithinBudget(b, n)
  {
    if n == 0 {
      BudgetAtStart(b);
    } else {
      LinesBudget(b, n - 1);
      BudgetStep(b, n - 1);
    }
  }

  lemma BudgetAtStart<C>(b: seq<C>)
    ensures WithinBudget(b, 0)
  {
  }

  /** A burst of n rows reports between min(n,16)+p and min(n,16)+8p of them, whatever the causes. */
  lemma BurstBounds<C>(b: seq<C>)
    ensures Min(|b|, REPORT_EACH_UP_TO) + Powers(|b|) <= LinesUpTo(b, |b|)
    ensures LinesUpTo(b, |b|) <= Min(|b|, REPORT_EACH_UP_TO) + MAX_CAUSES_PER_STRETCH * Powers(|b|)
  {
    LinesBudget(b, |b|);
  }

  ghost predicate OneCause<C(!new)>(b: seq<C>) {
    forall i, j :: 0 <= i < |b| && 0 <= j < |b| ==> b[i] == b[j]
  }

  lemma OneCauseThinned<C(!new)>(b: seq<C>, i: nat)
    requires OneCause(b) && i < |b| && !ShouldReport(i)
    ensures !NewCause(b, i)
  {
    FloorIsPower(i);
    var s := StretchStart(i);
    assert s < i && b[s..i][i - 1 - s] == b[i - 1];
  }

  lemma {:induction false} OneCauseLines<C(!new)>(b: seq<C>, n: nat)
    requires OneCause(b) && n <= |b|
    ensures LinesUpTo(b, n) == Min(n, REPORT_EACH_UP_TO) + Powers(n)
  {
    if n > 0 {
      OneCauseLines(b, n - 1);
      if !ShouldReport(n - 1) { OneCauseThinned(b, n - 1); }
    }
  }

  /** With one cause throughout, the unreported count is exactly the closed form. */
  lemma UniformUnsaid<C(!new)>(b: seq<C>)
    requires OneCause(b)
    ensures Unsaid(b) == UnreportedOf(|b|)
  {
    OneCauseLines(b, |b|);
    if |b| > REPORT_EACH_UP_TO { PowersClosed(|b|); }
  }

  /** `i` is the burst's last row that got a line. */
  ghost predicate LastLine<C(!new)>(b: seq<C>, i: nat) {
    i < |b| && OwnLine(b, i) && forall j: nat :: i < j < |b| ==> !OwnLine(b, j)
  }

  /** Reading the number on the last reported row tells the burst's size to a factor of two. */
  lemma SizeWithinTwice<C(!new)>(b: seq<C>, i: nat)
    requires LastLine(b, i)
    ensures |b| < 2 * (i + 1)
  {
    var top := |b| - 1;
    if top >= REPORT_EACH_UP_TO {
      var p := FloorPower(top);
      FloorIsPower(top);
      assert OwnLine(b, p);
    } else {
      assert OwnLine(b, top);
    }
  }

  lemma {:induction false} LastLineExists<C(!new)>(b: seq<C>, n: nat) returns (i: nat)
    requires 0 < n <= |b| && forall j: nat :: n <= j < |b| ==> !OwnLine(b, j)
    ensures LastLine(b, i)
    decreases n
  {
    if OwnLine(b, n - 1) {
      i := n - 1;
    } else {
      assert n > 1;
      i := LastLineExists(b, n - 1);
    }
  }

  // ---- Many bursts ---------------------------------------------------------

  datatype Row<C> = Row(at: int, cause: C)

  datatype EndedBurst = EndedBurst(rows: nat, unsaid: nat)

  datatype BurstTally = BurstTally(nth: nat, newCauseSince: Option<nat>, unsaidBefore: nat, ended: Option<EndedBurst>)

  /** `has_own_line`. */
  predicate HasOwnLine(t: BurstTally) {
    t.nth <= REPORT_EACH_UP_TO || ShouldReport(t.nth - 1) || t.newCauseSince.Some?
  }

  function Init<T>(s: seq<T>): seq<T>
    requires s != []
  {
    s[..|s| - 1]
  }

  function Last<T>(s: seq<T>): T
    requires s != []
  {
    s[|s| - 1]
  }

  /** The latest clock reading so far: a backward step does not move it. */
  function Latest<C>(h: seq<Row<C>>): int
    requires h != []
  {
    if |h| == 1 then h[0].at
    else if Latest(Init(h)) < Last(h).at then Last(h).at else Latest(Init(h))
  }

  /** The last row of `h` opens a burst: it is the first, or it came a quiet gap after all before it. */
  predicate Opens<C>(h: seq<Row<C>>)
    requires h != []
  {
    |h| == 1 || Last(h).at - Latest(Init(h)) >= BURST_QUIET_GAP
  }

  /** The causes of the current burst. */
  function Burst<C>(h: seq<Row<C>>): seq<C> {
    if h == [] then [] else (if Opens(h) then [] else Burst(Init(h))) + [Last(h).cause]
  }

  /** All bursts, the current one last. */
  function Bursts<C>(h: seq<Row<C>>): (bs: seq<seq<C>>)
    ensures h != [] ==> bs != [] && Last(bs) == Burst(h)
  {
    if h == [] then []
    else if Opens(h) then Bursts(Init(h)) + [[Last(h).cause]]
    else Init(Bursts(Init(h))) + [Last(Bursts(Init(h))) + [Last(h).cause]]
  }

  /** The rows of the last row's burst that came before it. */
  function BurstBefore<C>(h: seq<Row<C>>): seq<C>
    requires h != []
  {
    if Opens(h) then [] else Burst(Init(h))
  }

  /** The row since which row `i`'s cause is new, if that is why it has a line. */
  function Since<C(==)>(b: seq<C>, i: nat): Option<nat>
    requires i < |b|
  {
    if NewCause(b, i) && !ShouldReport(i) then Some(StretchStart(i) + 1) else None
  }

  /** What there is to say of a burst that ended. */
  function Leftover<C(==)>(b: seq<C>): Option<EndedBurst> {
    if Unsaid(b) > 0 then Some(EndedBurst(|b|, Unsaid(b))) else None
  }

  /** What the last row of `h` should say. */
  function Verdict<C(==)>(h: seq<Row<C>>): BurstTally
    requires h != []
  {
    var b := Burst(h);
    var i := |b| - 1;
    BurstTally(|b|, Since(b, i), i - LinesUpTo(b, i), if Opens(h) then Leftover(Burst(Init(h))) else None)
  }

  /** How many rows of the history got no line. */
  function Unreported<C(==)>(h: seq<Row<C>>): nat {
    if h == [] then 0 else Unreported(Init(h)) + if HasOwnLine(Verdict(h)) then 0 else 1
  }

  function Reported<C(==)>(h: seq<Row<C>>): nat {
    if h == [] then 0 else Reported(Init(h)) + if HasOwnLine(Verdict(h)) then 1 else 0
  }

  /** What the rows so far said about ended bursts, in order. */
  function Announced<C(==)>(h: seq<Row<C>>): seq<EndedBurst> {
    if h == [] then []
    else Announced(Init(h)) + match Verdict(h).ended { case Some(e) => [e] case None => [] }
  }

  /** The reports due for a list of ended bursts. */
  function Due<C(==)>(bs: seq<seq<C>>): seq<EndedBurst> {
    if bs == [] then []
    else Due(Init(bs)) + if Unsaid(Last(bs)) > 0 then [EndedBurst(|Last(bs)|, Unsaid(Last(bs)))] else []
  }

  function TotalUnsaid(es: seq<EndedBurst>): nat {
    if es == [] then 0 else TotalUnsaid(Init(es)) + Last(es).unsaid
  }

  function Causes<C>(h: seq<Row<C>>): seq<C> {
    if h == [] then [] else Causes(Init(h)) + [Last(h).cause]
  }

  lemma InitLast<T>(s: seq<T>, x: T)
    ensures Init(s + [x]) == s && Last(s + [x]) == x
  {
  }

  lemma TallyLine<C>(b: seq<C>, i: nat, t: BurstTally)
    requires i < |b| && t.nth == i + 1 && t.newCauseSince == Since(b, i)
    ensures HasOwnLine(t) <==> OwnLine(b, i)
  {
  }

  lemma BurstStep<C>(h: seq<Row<C>>)
    requires h != []
    ensures Burst(h) == BurstBefore(h) + [Last(h).cause]
  {
  }

  /** A row has a line exactly when its place in its burst gives it one. */
  lemma VerdictLine<C>(h: seq<Row<C>>)
    requires h != []
    ensures HasOwnLine(Verdict(h)) <==> OwnLine(Burst(h), |Burst(h)| - 1)
  {
    VerdictPlace(h);
    TallyLine(Burst(h), |Burst(h)| - 1, Verdict(h));
  }

  lemma VerdictPlace<C>(h: seq<Row<C>>)
    requires h != []
    ensures |Burst(h)| > 0 && Verdict(h).nth == |Burst(h)| && Verdict(h).newCauseSince == Since(Burst(h), |Burst(h)| - 1)
  {
  }

  lemma UnsaidStep<C>(h: seq<Row<C>>)
    requires h != []
    ensures Unsaid(Burst(h)) == Unsaid(BurstBefore(h)) + if HasOwnLine(Verdict(h)) then 0 else 1
  {
    BurstStep(h);
    VerdictLine(h);
    UnsaidSnoc(BurstBefore(h), Last(h).cause);
  }

  /** The bursts cut the history without loss or reordering. */
  lemma {:induction false} BurstsPartition<C>(h: seq<Row<C>>)
    ensures Flatten(Bursts(h)) == Causes(h)
  {
    if h != [] {
      var bs := Bursts(Init(h));
      BurstsPartition(Init(h));
      if Opens(h) {
        FlattenSnoc(bs, [Last(h).cause]);
      } else {
        LastBurstGrows(bs, Last(h).cause);
      }
    }
  }

  lemma LastBurstGrows<C>(bs: seq<seq<C>>, c: C)
    requires bs != []
    ensures Flatten(Init(bs) + [Last(bs) + [c]]) == Flatten(bs) + [c]
  {
    FlattenSnoc(Init(bs), Last(bs) + [c]);
    Regroup(Flatten(Init(bs)), Last(bs), [c]);
  }

  /** Every ended burst with unsaid rows is said once, in order, and nothing else is. */
  lemma {:induction false} EachEndedBurstSaidOnce<C>(h: seq<Row<C>>)
    ensures Announced(h) == if h == [] then [] else Due(Init(Bursts(h)))
  {
    if h != [] {
      var bs := Bursts(Init(h));
      EachEndedBurstSaidOnce(Init(h));
      if Opens(h) {
        InitLast(bs, [Last(h).cause]);
        if bs == [] { assert Init(h) == [] && Burst<C>([]) == []; }
      } else {
        InitLast(Init(bs), Last(bs) + [Last(h).cause]);
      }
    }
  }

  /** The row that says it is its burst's first, and has a line of its own. */
  lemma EndedSaidOnOwnLine<C>(h: seq<Row<C>>)
    requires h != [] && Verdict(h).ended.Some?
    ensures Verdict(h).nth == 1 && HasOwnLine(Verdict(h)) && |h| > 1
    ensures Verdict(h).ended.value == EndedBurst(|Burst(Init(h))|, Unsaid(Burst(Init(h))))
  {
    assert Burst<C>([]) == [];
  }

  /** Rows refused are the rows reported plus the rows left out, and those were either announced when
      their burst ended or belong to the burst still open. */
  lemma {:induction false} Conservation<C>(h: seq<Row<C>>)
    ensures Unreported(h) == |h| - Reported(h)
    ensures Unreported(h) == TotalUnsaid(Announced(h)) + Unsaid(Burst(h))
  {
    if h != [] {
      Conservation(Init(h));
      UnsaidStep(h);
      match Verdict(h).ended
      case Some(e) => InitLast(Announced(Init(h)), e);
      case None => assert Announced(h) == Announced(Init(h));
    }
  }

  // ---- Backward clock ------------------------------------------------------

  /** The history as a clock that never steps back would have read it. */
  function Smoothed<C>(h: seq<Row<C>>): (r: seq<Row<C>>)
    ensures |r| == |h|
  {
    if h == [] then [] else Smoothed(Init(h)) + [Row(Latest(h), Last(h).cause)]
  }

  /** A clock that steps back reads as no gap: the bursts are those of the running maximum. */
  lemma {:induction false} BackwardStepsIgnored<C>(h: seq<Row<C>>)
    ensures Bursts(Smoothed(h)) == Bursts(h) && Burst(Smoothed(h)) == Burst(h)
    ensures h != [] ==> Latest(Smoothed(h)) == Latest(h)
  {
    if h != [] {
      BackwardStepsIgnored(Init(h));
      InitLast(Smoothed(Init(h)), Row(Latest(h), Last(h).cause));
      assert Opens(Smoothed(h)) == Opens(h);
    }
  }
}
