/**
 The runs of the redactor are determined by the hits: overlapping hits merge into one redacted region,
 adjacent ones stay apart, and a region's marker names exactly the hits that a chain of overlaps joins.
 */
module RedactRuns {
  import opened Fingerprint
  import opened LeakSpec
  import opened Redact

  // ---- The runs are unique -------------------------------------------------

  /** The runs of the spans taken one by one. */
  function MergeAll(spans: seq<Span>): seq<Run> {
    if spans == [] then [] else AddSpan(MergeAll(spans[..|spans| - 1]), spans[|spans| - 1])
  }

  /** Taking the last span off its run. */
  function DropLast(runs: seq<Run>): seq<Run>
    requires runs != [] && runs[|runs| - 1].spans != []
  {
    var init, r := runs[..|runs| - 1], runs[|runs| - 1];
    if |r.spans| == 1 then init
    else init + [Run(r.start, MaxEnd(r.spans[..|r.spans| - 1]), r.spans[..|r.spans| - 1])]
  }

  ghost predicate Apart(runs: seq<Run>) {
    forall j, k :: 0 <= j < k < |runs| ==> runs[j].end <= runs[k].start
  }

  lemma ShorterGrown(r: Run)
    requires Grown(r) && |r.spans| > 1
    ensures var s := r.spans[..|r.spans| - 1];
            Grown(Run(r.start, MaxEnd(s), s)) && MaxEnd(s) <= r.end && r.spans[|s|].off < MaxEnd(s)
  {
    var s := r.spans[..|r.spans| - 1];
    forall k | 1 <= k < |s| ensures s[k].off < MaxEnd(s[..k]) {
      assert s[..k] == r.spans[..k];
    }
    assert r.spans[..|s|] == s;
  }

  lemma DropLastGrown(runs: seq<Run>)
    requires runs != [] && AllGrown(runs) && Apart(runs)
    ensures AllGrown(DropLast(runs)) && Apart(DropLast(runs))
  {
    var init, r := runs[..|runs| - 1], runs[|runs| - 1];
    assert AllGrown(init) && Apart(init);
    if |r.spans| > 1 {
      ShorterGrown(r);
      GrownSnoc(init, Run(r.start, MaxEnd(r.spans[..|r.spans| - 1]), r.spans[..|r.spans| - 1]));
    }
  }

  lemma GrownSnoc(init: seq<Run>, r: Run)
    requires AllGrown(init) && Apart(init) && Grown(r) && forall k :: 0 <= k < |init| ==> init[k].end <= r.start
    ensures AllGrown(init + [r]) && Apart(init + [r])
  {
  }

  lemma DropLastSpans(runs: seq<Run>)
    requires runs != [] && AllGrown(runs)
    ensures AllSpans(runs) == AllSpans(DropLast(runs)) + [runs[|runs| - 1].spans[|runs[|runs| - 1].spans| - 1]]
  {
    var init, r := runs[..|runs| - 1], runs[|runs| - 1];
    var last := r.spans[|r.spans| - 1];
    assert r.spans == r.spans[..|r.spans| - 1] + [last];
    if |r.spans| > 1 { AllSpansSnoc(init, Run(r.start, MaxEnd(r.spans[..|r.spans| - 1]), r.spans[..|r.spans| - 1])); }
  }

  /** Adding the span back gives the runs back. */
  lemma DropLastAdds(runs: seq<Run>)
    requires runs != [] && AllGrown(runs) && Apart(runs)
    ensures var r := runs[|runs| - 1]; AddSpan(DropLast(runs), r.spans[|r.spans| - 1]) == runs
  {
    var init, r := runs[..|runs| - 1], runs[|runs| - 1];
    InitAndLast(runs);
    if |r.spans| == 1 {
      LoneAdds(init, r);
    } else {
      LastAdds(init, r);
    }
  }

  lemma InitAndLast(runs: seq<Run>)
    requires runs != []
    ensures runs == runs[..|runs| - 1] + [runs[|runs| - 1]]
    ensures Apart(runs) && |runs| > 1 ==> runs[|runs| - 2].end <= runs[|runs| - 1].start
  {
  }

  lemma LoneAdds(init: seq<Run>, r: Run)
    requires Grown(r) && |r.spans| == 1 && (init != [] ==> init[|init| - 1].end <= r.start)
    ensures AddSpan(init, r.spans[0]) == init + [r]
  {
    LoneSpan(r);
  }

  lemma LastAdds(init: seq<Run>, r: Run)
    requires Grown(r) && |r.spans| > 1
    ensures var s := r.spans[..|r.spans| - 1]; AddSpan(init + [Run(r.start, MaxEnd(s), s)], r.spans[|r.spans| - 1]) == init + [r]
  {
    var s, x := r.spans[..|r.spans| - 1], r.spans[|r.spans| - 1];
    ShorterGrown(r);
    assert r.spans == s + [x];
    RegrowLast(init, r.start, s, x);
  }

  lemma LoneSpan(r: Run)
    requires Grown(r) && |r.spans| == 1
    ensures r == Run(r.spans[0].off, r.spans[0].off + r.spans[0].len, [r.spans[0]])
  {
    assert r.spans == [r.spans[0]] && [r.spans[0]] == [] + [r.spans[0]];
    MaxEndSnoc([], r.spans[0]);
  }

  lemma RegrowLast(init: seq<Run>, start: nat, s: seq<Span>, x: Span)
    requires x.off < MaxEnd(s)
    ensures AddSpan(init + [Run(start, MaxEnd(s), s)], x) == init + [Run(start, MaxEnd(s + [x]), s + [x])]
  {
    MaxEndSnoc(s, x);
    AddToLast(init, Run(start, MaxEnd(s), s), x);
  }

  lemma AddToLast(init: seq<Run>, r: Run, s: Span)
    requires s.off < r.end
    ensures AddSpan(init + [r], s) == init + [Run(r.start, if s.off + s.len > r.end then s.off + s.len else r.end, r.spans + [s])]
  {
    assert (init + [r])[..|init|] == init;
  }

  lemma {:induction false} GrownRunsAreMergeAll(runs: seq<Run>, spans: seq<Span>)
    requires AllGrown(runs) && Apart(runs) && AllSpans(runs) == spans
    ensures runs == MergeAll(spans)
    decreases |spans|
  {
    if runs == [] {
      assert spans == [];
    } else {
      DropLastGrown(runs);
      DropLastSpans(runs);
      DropLastAdds(runs);
      assert spans[..|spans| - 1] == AllSpans(DropLast(runs));
      GrownRunsAreMergeAll(DropLast(runs), spans[..|spans| - 1]);
    }
  }

  /** The hits determine the runs, and with them every marker and the whole output. */
  lemma RunsDetermined(runs1: seq<Run>, runs2: seq<Run>, spans: seq<Span>)
    requires Merges(runs1, spans) && Merges(runs2, spans)
    ensures runs1 == runs2
  {
    GrownRunsAreMergeAll(runs1, spans);
    GrownRunsAreMergeAll(runs2, spans);
  }

  /** Two calls on the same input, whatever order their tables are walked in, write the same bytes. */
  lemma OutputDetermined(sha: Sha, ps: Patterns, input: seq<Byte>, hits1: seq<Span>, runs1: seq<Run>, hits2: seq<Span>, runs2: seq<Run>)
    requires ExactHits(sha, ps, input, hits1) && Merges(runs1, hits1) && Fits(runs1, 0, |input|)
    requires ExactHits(sha, ps, input, hits2) && Merges(runs2, hits2) && Fits(runs2, 0, |input|)
    ensures hits1 == hits2 && Weave(input, runs1, 0) == Weave(input, runs2, 0)
  {
    SameHits(sha, ps, input, hits1, hits2);
    RunsDetermined(runs1, runs2, hits1);
  }

  lemma SameMembers(sha: Sha, ps: Patterns, input: seq<Byte>, a: seq<Span>, b: seq<Span>, s: Span)
    requires ExactHits(sha, ps, input, a) && ExactHits(sha, ps, input, b)
    ensures s in a ==> s in b
  {
    if s in a { assert Found(sha, ps, input, s); }
  }

  lemma SameHits(sha: Sha, ps: Patterns, input: seq<Byte>, a: seq<Span>, b: seq<Span>)
    requires ExactHits(sha, ps, input, a) && ExactHits(sha, ps, input, b)
    ensures a == b
  {
    forall s ensures s in a <==> s in b {
      SameMembers(sha, ps, input, a, b, s);
      SameMembers(sha, ps, input, b, a, s);
    }
    SortedUnique(a, b);
  }

  /** A sorted sequence is determined by its members. */
  lemma {:induction false} SortedUnique(a: seq<Span>, b: seq<Span>)
    requires Sorted(a) && Sorted(b) && forall s :: s in a <==> s in b
    ensures a == b
  {
    EmptyTogether(a, b);
    EmptyTogether(b, a);
    if a != [] {
      FirstAgrees(a, b);
      TailMembers(a);
      TailMembers(b);
      SortedUnique(a[1..], b[1..]);
      assert a == [a[0]] + a[1..] && b == [b[0]] + b[1..];
    }
  }

  lemma EmptyTogether(a: seq<Span>, b: seq<Span>)
    requires forall s :: s in a ==> s in b
    ensures a != [] ==> b != []
  {
    if a != [] { assert a[0] in b; }
  }

  lemma FirstAgrees(a: seq<Span>, b: seq<Span>)
    requires Sorted(a) && Sorted(b) && a != [] && b != [] && forall s :: s in a <==> s in b
    ensures a[0] == b[0]
  {
    assert a[0] in a && b[0] in b;
    var i :| 0 <= i < |b| && b[i] == a[0];
    var j :| 0 <= j < |a| && a[j] == b[0];
  }

  lemma TailMembers(a: seq<Span>)
    requires Sorted(a) && a != []
    ensures Sorted(a[1..]) && forall s :: s in a[1..] <==> s in a && s != a[0]
  {
    assert a == [a[0]] + a[1..];
    assert forall k :: 0 <= k < |a[1..]| ==> a[1..][k] == a[k + 1];
  }

  // ---- Sharing a marker is being joined by overlaps ------------------------

  /** The two windows have a byte in common; windows that only touch do not. */
  predicate Overlap(s: Span, u: Span) {
    s.off < u.off + u.len && u.off < s.off + s.len
  }

  /** Each hit of the chain overlaps the next. */
  ghost predicate Chain(hits: seq<Span>, c: seq<Span>) {
    && c != [] && (forall k :: 0 <= k < |c| ==> c[k] in hits)
    && forall k :: 0 <= k < |c| - 1 ==> Overlap(c[k], c[k + 1])
  }

  ghost predicate Joined(hits: seq<Span>, s: Span, u: Span) {
    exists c :: Chain(hits, c) && c[0] == s && c[|c| - 1] == u
  }

  /** The two hits are redacted under one marker. */
  ghost predicate ShareRun(runs: seq<Run>, s: Span, u: Span) {
    exists k :: 0 <= k < |runs| && s in runs[k].spans && u in runs[k].spans
  }

  ghost predicate NonEmpty(hits: seq<Span>) {
    forall s :: s in hits ==> s.len > 0
  }

  lemma {:induction false} MaxEndBounds(spans: seq<Span>, s: Span)
    requires s in spans
    ensures s.off + s.len <= MaxEnd(spans)
  {
    var init, last := spans[..|spans| - 1], spans[|spans| - 1];
    assert spans == init + [last];
    if s in init { MaxEndBounds(init, s); }
  }

  lemma {:induction false} MaxEndReached(spans: seq<Span>) returns (k: nat)
    requires spans != []
    ensures k < |spans| && spans[k].off + spans[k].len == MaxEnd(spans)
  {
    var init, last := spans[..|spans| - 1], spans[|spans| - 1];
    k := |spans| - 1;
    if last.off + last.len <= MaxEnd(init) && init != [] {
      k := MaxEndReached(init);
    }
  }

  /** The spans of one run are a stretch of the hits, so they are in order too. */
  lemma {:induction false} RunSpans(runs: seq<Run>, hits: seq<Span>, k: nat)
    requires AllSpans(runs) == hits && Sorted(hits) && k < |runs|
    ensures Sorted(runs[k].spans) && forall s :: s in runs[k].spans ==> s in hits
    decreases |runs|
  {
    var init, r := runs[..|runs| - 1], runs[|runs| - 1];
    var before := AllSpans(init);
    assert hits == before + r.spans;
    if k < |init| {
      assert forall i :: 0 <= i < |before| ==> before[i] == hits[i];
      RunSpans(init, before, k);
    } else {
      assert forall i :: 0 <= i < |r.spans| ==> r.spans[i] == hits[|before| + i];
    }
  }

  lemma {:induction false} EveryHitHasRun(runs: seq<Run>, s: Span) returns (k: nat)
    requires s in AllSpans(runs)
    ensures k < |runs| && s in runs[k].spans
    decreases |runs|
  {
    var init, r := runs[..|runs| - 1], runs[|runs| - 1];
    k := |runs| - 1;
    if s !in r.spans { k := EveryHitHasRun(init, s); }
  }

  /** A hit lies within its run. */
  lemma WithinRun(runs: seq<Run>, hits: seq<Span>, k: nat, s: Span)
    requires Merges(runs, hits) && Sorted(hits) && k < |runs| && s in runs[k].spans
    ensures runs[k].start <= s.off && s.off + s.len <= runs[k].end && s in hits
  {
    RunSpans(runs, hits, k);
    MaxEndBounds(runs[k].spans, s);
    assert Grown(runs[k]);
    var i :| 0 <= i < |runs[k].spans| && runs[k].spans[i] == s;
    assert i > 0 ==> Before(runs[k].spans[0], runs[k].spans[i]);
  }

  /** Hits of different runs do not overlap. */
  lemma OverlapSameRun(runs: seq<Run>, hits: seq<Span>, j: nat, k: nat, s: Span, u: Span)
    requires Merges(runs, hits) && Sorted(hits) && j < |runs| && k < |runs|
    requires s in runs[j].spans && u in runs[k].spans && Overlap(s, u)
    ensures j == k
  {
    WithinRun(runs, hits, j, s);
    WithinRun(runs, hits, k, u);
  }

  lemma {:induction false} ChainStaysInRun(runs: seq<Run>, hits: seq<Span>, c: seq<Span>, k: nat)
    requires Merges(runs, hits) && Sorted(hits) && NonEmpty(hits) && Chain(hits, c) && k < |runs| && c[0] in runs[k].spans
    ensures c[|c| - 1] in runs[k].spans
    decreases |c|
  {
    if |c| > 1 {
      var j := EveryHitHasRun(runs, c[1]);
      assert Overlap(c[0], c[1]);
      OverlapSameRun(runs, hits, k, j, c[0], c[1]);
      var rest := c[1..];
      assert forall i :: 0 <= i < |rest| ==> rest[i] == c[i + 1];
      assert Chain(hits, rest) by {
        forall i | 0 <= i < |rest| - 1 ensures Overlap(rest[i], rest[i + 1]) { assert Overlap(c[i + 1], c[i + 2]); }
      }
      ChainStaysInRun(runs, hits, rest, k);
    }
  }

  lemma ChainSnoc(hits: seq<Span>, c: seq<Span>, s: Span)
    requires Chain(hits, c) && s in hits && Overlap(c[|c| - 1], s)
    ensures Chain(hits, c + [s]) && (c + [s])[0] == c[0] && (c + [s])[|c|] == s
  {
    var d := c + [s];
    forall k | 0 <= k < |d| - 1 ensures Overlap(d[k], d[k + 1]) {
      if k < |c| - 1 { assert Overlap(c[k], c[k + 1]); }
    }
  }

  lemma {:induction false} ChainReversed(hits: seq<Span>, c: seq<Span>) returns (d: seq<Span>)
    requires Chain(hits, c)
    ensures Chain(hits, d) && d[0] == c[|c| - 1] && d[|d| - 1] == c[0]
    decreases |c|
  {
    if |c| == 1 {
      d := c;
    } else {
      var rest := c[1..];
      assert forall i :: 0 <= i < |rest| ==> rest[i] == c[i + 1];
      assert Chain(hits, rest) by {
        forall i | 0 <= i < |rest| - 1 ensures Overlap(rest[i], rest[i + 1]) { assert Overlap(c[i + 1], c[i + 2]); }
      }
      d := ChainReversed(hits, rest);
      assert Overlap(c[0], c[1]);
      ChainSnoc(hits, d, c[0]);
      d := d + [c[0]];
    }
  }

  lemma {:induction false} ChainsJoin(hits: seq<Span>, c: seq<Span>, d: seq<Span>) returns (e: seq<Span>)
    requires Chain(hits, c) && Chain(hits, d) && c[|c| - 1] == d[0]
    ensures Chain(hits, e) && e[0] == c[0] && e[|e| - 1] == d[|d| - 1]
    decreases |d|
  {
    if |d| == 1 {
      e := c;
    } else {
      var init := d[..|d| - 1];
      assert forall i :: 0 <= i < |init| ==> init[i] == d[i];
      assert Chain(hits, init) by {
        forall i | 0 <= i < |init| - 1 ensures Overlap(init[i], init[i + 1]) { assert Overlap(d[i], d[i + 1]); }
      }
      e := ChainsJoin(hits, c, init);
      assert Overlap(d[|d| - 2], d[|d| - 1]);
      ChainSnoc(hits, e, d[|d| - 1]);
      e := e + [d[|d| - 1]];
    }
  }

  /** Every hit of a run is joined to the run's first. */
  lemma {:induction false} JoinedToFirst(runs: seq<Run>, hits: seq<Span>, k: nat, i: nat) returns (c: seq<Span>)
    requires Merges(runs, hits) && Sorted(hits) && NonEmpty(hits) && k < |runs| && i < |runs[k].spans|
    ensures Chain(hits, c) && c[0] == runs[k].spans[0] && c[|c| - 1] == runs[k].spans[i]
    decreases i
  {
    RunSpans(runs, hits, k);
    var spans := runs[k].spans;
    assert spans[i] in spans && Grown(runs[k]);
    if i == 0 {
      c := [spans[0]];
    } else {
      var m := EarlierOverlap(spans, i);
      c := JoinedToFirst(runs, hits, k, m);
      ChainSnoc(hits, c, spans[i]);
      c := c + [spans[i]];
    }
  }

  /** A span that starts before the end reached so far overlaps the one that reached it. */
  lemma EarlierOverlap(spans: seq<Span>, i: nat) returns (m: nat)
    requires Sorted(spans) && 1 <= i < |spans| && spans[i].off < MaxEnd(spans[..i]) && spans[i].len > 0
    ensures m < i && Overlap(spans[m], spans[i])
  {
    m := MaxEndReached(spans[..i]);
    assert spans[..i][m] == spans[m] && Before(spans[m], spans[i]);
  }

  /** Of any outcome of `Redact`: two hits are redacted under one marker if and only if a chain of hits, each
      overlapping the next, joins them. In particular hits that only touch are not, unless others bridge them. */
  lemma ShareMarkerIffJoined(sha: Sha, ps: Patterns, input: seq<Byte>, hits: seq<Span>, runs: seq<Run>, s: Span, u: Span)
    requires ExactHits(sha, ps, input, hits) && Merges(runs, hits) && s in hits && u in hits
    ensures ShareRun(runs, s, u) <==> Joined(hits, s, u)
  {
    assert NonEmpty(hits) by {
      forall h | h in hits ensures h.len > 0 { assert Found(sha, ps, input, h); }
    }
    if ShareRun(runs, s, u) { SharedIsJoined(runs, hits, s, u); }
    if Joined(hits, s, u) {
      var c :| Chain(hits, c) && c[0] == s && c[|c| - 1] == u;
      var k := EveryHitHasRun(runs, s);
      ChainStaysInRun(runs, hits, c, k);
    }
  }

  lemma SharedIsJoined(runs: seq<Run>, hits: seq<Span>, s: Span, u: Span)
    requires Merges(runs, hits) && Sorted(hits) && NonEmpty(hits) && ShareRun(runs, s, u)
    ensures Joined(hits, s, u)
  {
    var k :| 0 <= k < |runs| && s in runs[k].spans && u in runs[k].spans;
    var i :| 0 <= i < |runs[k].spans| && runs[k].spans[i] == s;
    var j :| 0 <= j < |runs[k].spans| && runs[k].spans[j] == u;
    var c := JoinedToFirst(runs, hits, k, i);
    var d := ChainReversed(hits, c);
    var e := JoinedToFirst(runs, hits, k, j);
    var all := ChainsJoin(hits, d, e);
  }

  /** The marker of a run names each digest of its own hits once, and no other. */
  lemma MarkerNamesOwnHits(runs: seq<Run>, k: nat, d: Digest)
    requires k < |runs|
    ensures d in FirstSeen(runs[k].spans) <==> exists s :: s in runs[k].spans && s.sha256 == d
  {
    var spans := runs[k].spans;
    if d in FirstSeen(spans) {
      var i :| 0 <= i < |spans| && spans[i].sha256 == d;
      assert spans[i] in spans;
    }
  }
}
