/**
 The all-hits redactor of leak-scan/src/redact.rs: collect every matching window,
 merge overlapping windows into runs, and splice one marker per run.
 */
module Redact {
  import opened Fingerprint
  import opened LeakSpec
  import opened Sequences

  /** A confirmed window. `RedactHit` carries the same three values. */
  datatype Span = Span(off: nat, len: nat, sha256: Digest)

  /** A merged region and the spans it came from, in scan order. */
  datatype Run = Run(start: nat, end: nat, spans: seq<Span>)

  // ---- What the scan collects ----------------------------------------------

  /** `raw` lists exactly the matching windows of an accepted length, with their digests, each once. */
  ghost predicate Lists(sha: Sha, ps: Patterns, input: seq<Byte>, raw: seq<Span>, accepted: set<nat>) {
    && (forall s :: s in raw ==> Found(sha, ps, input, s) && s.len in accepted)
    && (forall off: nat, len: nat :: Occurs(sha, ps, input, off, len) && len in accepted ==> Span(off, len, sha(input[off..off + len])) in raw)
    && Distinct(raw)
  }

  ghost predicate Found(sha: Sha, ps: Patterns, input: seq<Byte>, s: Span) {
    Occurs(sha, ps, input, s.off, s.len) && s.sha256 == sha(input[s.off..s.off + s.len])
  }

  ghost predicate Distinct(raw: seq<Span>) {
    forall i, j :: 0 <= i < j < |raw| ==> raw[i] != raw[j]
  }

  /** Every offset of one window length: the rolling scan finds exactly the matching ones, in order. */
  method ScanLength(sha: Sha, ps: Patterns, input: seq<Byte>, len: nat, targets: Targets) returns (spans: seq<Span>)
    requires 0 < len <= |input|
    requires forall fp: U64, d: Digest :: Holds(targets, fp, d) <==> SecretFingerprint(len, fp, d) in ps
    ensures Lists(sha, ps, input, spans, {len})
  {
    spans := [];
    var pow := PowBase(len);
    var cur := Poly(input[0..len]);
    var i := 0;
    while true
      invariant 0 <= i <= |input| - len
      invariant cur == Fp64(input[i..i + len])
      invariant ListsBelow(sha, ps, input, spans, len, i)
      decreases |input| - i
    {
      var window := input[i..i + len];
      assert Print(sha, window) == SecretFingerprint(len, cur, sha(window));
      assert Occurs(sha, ps, input, i, len) <==> Holds(targets, cur, sha(window));
      if cur in targets && sha(window) in targets[cur] {
        FoundHere(sha, ps, input, spans, len, i);
        spans := spans + [Span(i, len, sha(window))];
      } else {
        NotHere(sha, ps, input, spans, len, i);
      }
      if i + len >= |input| { break; }
      RollCorrect(window, input[i + len]);
      Shifted(input, i, len);
      cur := Roll(cur, input[i], pow, input[i + len]);
      i := i + 1;
    }
    BelowIsAll(sha, ps, input, spans, len);
  }

  lemma Shifted(input: seq<Byte>, i: nat, len: nat)
    requires 0 < len && i + len < |input|
    ensures input[i + 1..i + 1 + len] == input[i..i + len][1..] + [input[i + len]]
  {
  }

  /** The spans of length `len` found so far are those at offsets below `n`, in order. */
  ghost predicate ListsBelow(sha: Sha, ps: Patterns, input: seq<Byte>, spans: seq<Span>, len: nat, n: nat) {
    && (forall s :: s in spans ==> Found(sha, ps, input, s) && s.len == len && s.off < n)
    && (forall off: nat :: off < n && Occurs(sha, ps, input, off, len) ==> Span(off, len, sha(input[off..off + len])) in spans)
    && Distinct(spans)
  }

  lemma FoundHere(sha: Sha, ps: Patterns, input: seq<Byte>, spans: seq<Span>, len: nat, i: nat)
    requires ListsBelow(sha, ps, input, spans, len, i) && Occurs(sha, ps, input, i, len)
    ensures ListsBelow(sha, ps, input, spans + [Span(i, len, sha(input[i..i + len]))], len, i + 1)
  {
  }

  lemma NotHere(sha: Sha, ps: Patterns, input: seq<Byte>, spans: seq<Span>, len: nat, i: nat)
    requires ListsBelow(sha, ps, input, spans, len, i) && !Occurs(sha, ps, input, i, len)
    ensures ListsBelow(sha, ps, input, spans, len, i + 1)
  {
  }

  lemma BelowIsAll(sha: Sha, ps: Patterns, input: seq<Byte>, spans: seq<Span>, len: nat)
    requires 0 < len <= |input| && ListsBelow(sha, ps, input, spans, len, |input| - len + 1)
    ensures Lists(sha, ps, input, spans, {len})
  {
  }

  lemma ListsJoin(sha: Sha, ps: Patterns, input: seq<Byte>, a: seq<Span>, b: seq<Span>, s: set<nat>, len: nat)
    requires Lists(sha, ps, input, a, s) && Lists(sha, ps, input, b, {len}) && len !in s
    ensures Lists(sha, ps, input, a + b, s + {len})
  {
  }

  /** All matching windows, in whatever order the lengths come. */
  method Collect(sha: Sha, ps: Patterns, input: seq<Byte>) returns (raw: seq<Span>)
    ensures forall s :: s in raw ==> Found(sha, ps, input, s)
    ensures forall off: nat, len: nat :: Occurs(sha, ps, input, off, len) ==> Span(off, len, sha(input[off..off + len])) in raw
    ensures Distinct(raw)
  {
    var byLen := IndexPatterns(ps, 1, |input|);
    raw := [];
    var todo := byLen.Keys;
    while todo != {}
      invariant todo <= byLen.Keys && Lists(sha, ps, input, raw, byLen.Keys - todo)
      decreases |todo|
    {
      var len :| len in todo;
      assert forall fp: U64, d: Digest :: Holds(byLen[len], fp, d) <==> HoldsLen(byLen, len, fp, d);
      var spans := ScanLength(sha, ps, input, len, byLen[len]);
      ListsJoin(sha, ps, input, raw, spans, byLen.Keys - todo, len);
      assert byLen.Keys - (todo - {len}) == byLen.Keys - todo + {len};
      raw := raw + spans;
      todo := todo - {len};
    }
    assert byLen.Keys - {} == byLen.Keys;
    forall off: nat, len: nat | Occurs(sha, ps, input, off, len) ensures len in byLen {
      var p := Print(sha, input[off..off + len]);
      assert HoldsLen(byLen, p.len, p.fp64, p.sha256);
    }
  }

  // ---- Sort ----------------------------------------------------------------

  /** Earlier start first; on a tie the longer span first. */
  predicate Before(a: Span, b: Span) {
    a.off < b.off || (a.off == b.off && a.len > b.len)
  }

  ghost predicate Sorted(s: seq<Span>) {
    forall i, j :: 0 <= i < j < |s| ==> Before(s[i], s[j])
  }

  /** No two spans share both offset and length. */
  ghost predicate KeysDistinct(s: seq<Span>) {
    forall i, j :: 0 <= i < j < |s| ==> s[i].off != s[j].off || s[i].len != s[j].len
  }

  function InsertSpan(x: Span, s: seq<Span>): (r: seq<Span>)
    ensures |r| == |s| + 1
    ensures forall y :: y in r <==> y == x || y in s
    decreases |s|
  {
    if s == [] then [x]
    else if Before(s[0], x) then [s[0]] + InsertSpan(x, s[1..])
    else [x] + s
  }

  function SortSpans(s: seq<Span>): (r: seq<Span>)
    ensures |r| == |s|
    ensures forall y :: y in r <==> y in s
  {
    if s == [] then [] else InsertSpan(s[0], SortSpans(s[1..]))
  }

  lemma {:induction false} InsertKeepsSorted(x: Span, s: seq<Span>)
    requires Sorted(s) && forall y :: y in s ==> y.off != x.off || y.len != x.len
    ensures Sorted(InsertSpan(x, s))
    decreases |s|
  {
    if s != [] && Before(s[0], x) {
      InsertKeepsSorted(x, s[1..]);
      var r := InsertSpan(x, s[1..]);
      forall j | 0 <= j < |r| ensures Before(s[0], r[j]) {
        assert r[j] in r;
        if r[j] != x { assert r[j] in s[1..]; }
      }
    } else if s != [] {
      assert Before(x, s[0]);
    }
  }

  /** Sorting spans with distinct keys puts them in strict scan order and loses none. */
  lemma {:induction false} SortIsSorted(s: seq<Span>)
    requires KeysDistinct(s)
    ensures Sorted(SortSpans(s))
  {
    if s != [] {
      SortIsSorted(s[1..]);
      forall y | y in SortSpans(s[1..]) ensures y.off != s[0].off || y.len != s[0].len {
        assert y in s[1..];
      }
      InsertKeepsSorted(s[0], SortSpans(s[1..]));
    }
  }

  // ---- Merge ---------------------------------------------------------------

  /** Position `p` lies in one of the spans. */
  ghost predicate Covered(spans: seq<Span>, p: nat) {
    exists k :: 0 <= k < |spans| && spans[k].off <= p < spans[k].off + spans[k].len
  }

  ghost predicate InRuns(runs: seq<Run>, p: nat) {
    exists k :: 0 <= k < |runs| && runs[k].start <= p < runs[k].end
  }

  /** Runs are non-empty, in order, and do not overlap. */
  ghost predicate Ordered(runs: seq<Run>) {
    && (forall k :: 0 <= k < |runs| ==> runs[k].start < runs[k].end && runs[k].spans != [])
    && (forall j, k :: 0 <= j < k < |runs| ==> runs[j].end <= runs[k].start)
  }

  function AllSpans(runs: seq<Run>): seq<Span> {
    if runs == [] then [] else AllSpans(runs[..|runs| - 1]) + runs[|runs| - 1].spans
  }

  /** The greatest end of the spans. */
  function MaxEnd(spans: seq<Span>): nat {
    if spans == [] then 0
    else
      var m, s := MaxEnd(spans[..|spans| - 1]), spans[|spans| - 1];
      if s.off + s.len > m then s.off + s.len else m
  }

  /** A run reaches from its first span's start to the greatest end of its own spans, and each later span starts
      strictly before the end that the ones before it reach. */
  ghost predicate Grown(r: Run) {
    && r.spans != [] && r.start == r.spans[0].off && r.end == MaxEnd(r.spans)
    && forall k :: 1 <= k < |r.spans| ==> r.spans[k].off < MaxEnd(r.spans[..k])
  }

  ghost predicate AllGrown(runs: seq<Run>) {
    forall k :: 0 <= k < |runs| ==> Grown(runs[k])
  }

  /** The runs carry all spans in order, are exactly their union, and each is grown from its own: overlapping
      spans extend a run, and one that only touches the run before it starts another. */
  ghost predicate Merges(runs: seq<Run>, spans: seq<Span>) {
    && Ordered(runs)
    && AllSpans(runs) == spans
    && SameUnion(runs, spans)
    && AllGrown(runs)
  }

  ghost predicate SameUnion(runs: seq<Run>, spans: seq<Span>) {
    forall p: nat :: InRuns(runs, p) <==> Covered(spans, p)
  }

  /** Folding one more span into the runs. */
  function AddSpan(runs: seq<Run>, s: Span): seq<Run> {
    LastAfter(runs, s).0 + [LastAfter(runs, s).1]
  }

  lemma CoveredSnoc(spans: seq<Span>, s: Span, p: nat)
    ensures Covered(spans + [s], p) <==> Covered(spans, p) || s.off <= p < s.off + s.len
  {
    if Covered(spans, p) {
      var k :| 0 <= k < |spans| && spans[k].off <= p < spans[k].off + spans[k].len;
      assert (spans + [s])[k] == spans[k];
    }
    assert (spans + [s])[|spans|] == s;
  }

  lemma InRunsSnoc(runs: seq<Run>, r: Run, p: nat)
    ensures InRuns(runs + [r], p) <==> InRuns(runs, p) || r.start <= p < r.end
  {
    if InRuns(runs, p) {
      var k :| 0 <= k < |runs| && runs[k].start <= p < runs[k].end;
      assert (runs + [r])[k] == runs[k];
    }
    assert (runs + [r])[|runs|] == r;
  }

  lemma AllSpansSnoc(runs: seq<Run>, r: Run)
    ensures AllSpans(runs + [r]) == AllSpans(runs) + r.spans
  {
    assert (runs + [r])[..|runs|] == runs;
  }

  /** A span that starts inside the last run extends it. */
  lemma ExtendUnion(init: seq<Run>, last: Run, spans: seq<Span>, s: Span, last': Run)
    requires SameUnion(init + [last], spans) && last.start <= s.off < last.end
    requires last'.start == last.start && last'.end == (if s.off + s.len > last.end then s.off + s.len else last.end)
    ensures SameUnion(init + [last'], spans + [s])
  {
    forall p: nat ensures InRuns(init + [last'], p) <==> Covered(spans + [s], p) {
      ExtendCovers(init, last, s, last', p);
      CoveredSnoc(spans, s, p);
    }
  }

  lemma ExtendCovers(init: seq<Run>, last: Run, s: Span, last': Run, p: nat)
    requires last.start <= s.off < last.end
    requires last'.start == last.start && last'.end == (if s.off + s.len > last.end then s.off + s.len else last.end)
    ensures InRuns(init + [last'], p) <==> InRuns(init + [last], p) || s.off <= p < s.off + s.len
  {
    InRunsSnoc(init, last, p);
    InRunsSnoc(init, last', p);
  }

  lemma OrderedSnoc(init: seq<Run>, r: Run)
    ensures Ordered(init + [r]) <==>
      && Ordered(init) && r.start < r.end && r.spans != []
      && forall k :: 0 <= k < |init| ==> init[k].end <= r.start
  {
    var all := init + [r];
    assert all[|init|] == r && forall k :: 0 <= k < |init| ==> all[k] == init[k];
  }

  /** A span that starts at or after the end of the last run starts a run of its own. */
  lemma StartUnion(runs: seq<Run>, spans: seq<Span>, s: Span, r: Run)
    requires SameUnion(runs, spans) && r.start == s.off && r.end == s.off + s.len
    ensures SameUnion(runs + [r], spans + [s])
  {
    forall p: nat ensures InRuns(runs + [r], p) <==> Covered(spans + [s], p) {
      InRunsSnoc(runs, r, p);
      CoveredSnoc(spans, s, p);
    }
  }

  /** The run that `AddSpan` leaves last, and the runs before it. */
  function LastAfter(runs: seq<Run>, s: Span): (seq<Run>, Run) {
    if runs != [] && s.off < runs[|runs| - 1].end then
      var last := runs[|runs| - 1];
      (runs[..|runs| - 1], Run(last.start, if s.off + s.len > last.end then s.off + s.len else last.end, last.spans + [s]))
    else (runs, Run(s.off, s.off + s.len, [s]))
  }

  /** A span that starts no earlier than the last run keeps the runs in order and their union right. */
  lemma AddSpanMerges(runs: seq<Run>, spans: seq<Span>, s: Span)
    requires Ordered(runs) && SameUnion(runs, spans) && s.len > 0 && (runs != [] ==> runs[|runs| - 1].start <= s.off)
    ensures Ordered(AddSpan(runs, s)) && SameUnion(AddSpan(runs, s), spans + [s])
    ensures LastAfter(runs, s).1.start <= s.off
  {
    var (init, r) := LastAfter(runs, s);
    OrderedSnoc(init, r);
    if runs != [] && s.off < runs[|runs| - 1].end {
      var last := runs[|runs| - 1];
      assert runs == init + [last];
      OrderedSnoc(init, last);
      ExtendUnion(init, last, spans, s, r);
    } else {
      StartUnion(runs, spans, s, r);
    }
  }

  lemma MaxEndSnoc(spans: seq<Span>, s: Span)
    ensures MaxEnd(spans + [s]) == if s.off + s.len > MaxEnd(spans) then s.off + s.len else MaxEnd(spans)
  {
    assert (spans + [s])[..|spans|] == spans;
  }

  lemma GrownOne(s: Span)
    requires s.len > 0
    ensures Grown(Run(s.off, s.off + s.len, [s]))
  {
    assert [s] == [] + [s];
    MaxEndSnoc([], s);
  }

  lemma GrownExtends(r: Run, s: Span)
    requires Grown(r) && s.off < r.end
    ensures Grown(Run(r.start, if s.off + s.len > r.end then s.off + s.len else r.end, r.spans + [s]))
  {
    MaxEndSnoc(r.spans, s);
    var longer := r.spans + [s];
    forall k | 1 <= k < |longer| ensures longer[k].off < MaxEnd(longer[..k]) {
      assert longer[..k] == r.spans[..k];
      assert k == |r.spans| ==> r.spans[..k] == r.spans;
    }
  }

  lemma AddSpanGrown(runs: seq<Run>, s: Span)
    requires AllGrown(runs) && s.len > 0
    ensures AllGrown(AddSpan(runs, s))
  {
    if runs != [] && s.off < runs[|runs| - 1].end {
      GrownExtends(runs[|runs| - 1], s);
    } else {
      GrownOne(s);
    }
  }

  /** Every span is kept, in order, whichever run it lands in. */
  lemma AddSpanKeepsSpans(runs: seq<Run>, s: Span)
    ensures AllSpans(AddSpan(runs, s)) == AllSpans(runs) + [s]
  {
    var (init, r) := LastAfter(runs, s);
    AllSpansSnoc(init, r);
    if runs != [] && s.off < runs[|runs| - 1].end {
      AllSpansSnoc(init, runs[|runs| - 1]);
      assert runs == init + [runs[|runs| - 1]];
    }
  }

  lemma TakeSnoc(spans: seq<Span>, i: nat)
    requires i < |spans|
    ensures spans[..i + 1] == spans[..i] + [spans[i]]
  {
  }

  /** The runs merge the first `i` spans. */
  ghost predicate MergedUpTo(runs: seq<Run>, spans: seq<Span>, i: nat) {
    && i <= |spans| && Merges(runs, spans[..i])
    && (runs != [] ==> i > 0 && runs[|runs| - 1].start <= spans[i - 1].off)
  }

  lemma MergeStep(runs: seq<Run>, spans: seq<Span>, i: nat)
    requires Sorted(spans) && i < |spans| && spans[i].len > 0 && MergedUpTo(runs, spans, i)
    ensures MergedUpTo(AddSpan(runs, spans[i]), spans, i + 1)
  {
    var s := spans[i];
    assert i > 0 ==> Before(spans[i - 1], s);
    AddSpanMerges(runs, spans[..i], s);
    AddSpanKeepsSpans(runs, s);
    AddSpanGrown(runs, s);
    TakeSnoc(spans, i);
  }

  method MergeRuns(spans: seq<Span>) returns (runs: seq<Run>)
    requires Sorted(spans) && forall s :: s in spans ==> s.len > 0
    ensures Merges(runs, spans)
  {
    runs := [];
    for i := 0 to |spans|
      invariant MergedUpTo(runs, spans, i)
    {
      MergeStep(runs, spans, i);
      runs := AddSpan(runs, spans[i]);
    }
    assert spans[..|spans|] == spans;
  }

  // ---- Splice --------------------------------------------------------------

  function HexDigit(n: nat): Byte
    requires n < 16
  {
    if n < 10 then 48 + n else 87 + n
  }

  /** Lowercase hex of the first four digest bytes: the first 8 characters of its hex form. */
  function Hex8(d: Digest): seq<Byte> {
    [HexDigit(d[0] / 16), HexDigit(d[0] % 16), HexDigit(d[1] / 16), HexDigit(d[1] % 16),
     HexDigit(d[2] / 16), HexDigit(d[2] % 16), HexDigit(d[3] / 16), HexDigit(d[3] % 16)]
  }

  /** The ASCII bytes of `[redacted:`, `+` and `]`. */
  const OPEN: seq<Byte> := [91, 114, 101, 100, 97, 99, 116, 101, 100, 58]
  const PLUS: seq<Byte> := [43]
  const CLOSE: seq<Byte> := [93]

  function JoinHex(ds: seq<Digest>): seq<Byte> {
    if ds == [] then [] else if |ds| == 1 then Hex8(ds[0]) else JoinHex(ds[..|ds| - 1]) + PLUS + Hex8(ds[|ds| - 1])
  }

  /** The digests of the spans, each once, in order of first appearance. */
  function FirstSeen(spans: seq<Span>): (ds: seq<Digest>)
    ensures forall d :: d in ds <==> exists k :: 0 <= k < |spans| && spans[k].sha256 == d
    ensures forall i, j :: 0 <= i < j < |ds| ==> ds[i] != ds[j]
  {
    if spans == [] then []
    else
      var init := FirstSeen(spans[..|spans| - 1]);
      var d := spans[|spans| - 1].sha256;
      assert spans == spans[..|spans| - 1] + [spans[|spans| - 1]];
      if d in init then init else init + [d]
  }

  function Marker(r: Run): seq<Byte> {
    OPEN + JoinHex(FirstSeen(r.spans)) + CLOSE
  }

  /** The input from `cursor` on with each run replaced by its marker. */
  function Weave(input: seq<Byte>, runs: seq<Run>, cursor: nat): seq<Byte>
    requires cursor <= |input| && Fits(runs, cursor, |input|)
  {
    if runs == [] then input[cursor..]
    else input[cursor..runs[0].start] + Marker(runs[0]) + Weave(input, runs[1..], runs[0].end)
  }

  /** `push_marker` with its per-run list of distinct digests. */
  method PushMarker(out: seq<Byte>, r: Run) returns (out': seq<Byte>)
    ensures out' == out + Marker(r)
  {
    var seen: seq<Digest> := [];
    for k := 0 to |r.spans|
      invariant seen == FirstSeen(r.spans[..k])
    {
      TakeSnoc(r.spans, k);
      if r.spans[k].sha256 !in seen { seen := seen + [r.spans[k].sha256]; }
    }
    assert r.spans[..|r.spans|] == r.spans;
    var m := OPEN;
    for i := 0 to |seen|
      invariant m == OPEN + JoinHex(seen[..i])
    {
      assert seen[..i + 1][..i] == seen[..i];
      if i > 0 { m := m + PLUS; }
      m := m + Hex8(seen[i]);
    }
    assert seen[..|seen|] == seen;
    out' := out + (m + CLOSE);
  }

  ghost predicate Fits(runs: seq<Run>, cursor: nat, n: nat) {
    Ordered(runs) && forall k :: 0 <= k < |runs| ==> cursor <= runs[k].start && runs[k].end <= n
  }

  lemma FitsTail(runs: seq<Run>, cursor: nat, n: nat)
    requires Fits(runs, cursor, n) && runs != []
    ensures Fits(runs[1..], runs[0].end, n)
  {
  }

  lemma WeaveStep(input: seq<Byte>, runs: seq<Run>, i: nat, cursor: nat, bytes: seq<Byte>)
    requires i < |runs| && cursor <= |input| && Fits(runs[i..], cursor, |input|)
    ensures Fits(runs[i + 1..], runs[i].end, |input|)
    ensures bytes + Weave(input, runs[i..], cursor)
         == bytes + input[cursor..runs[i].start] + Marker(runs[i]) + Weave(input, runs[i + 1..], runs[i].end)
  {
    FitsTail(runs[i..], cursor, |input|);
    assert runs[i..][1..] == runs[i + 1..];
  }

  /** After `i` runs: what is written, what is reported, and where the copy stands. */
  ghost predicate SplicedUpTo(input: seq<Byte>, runs: seq<Run>, i: nat, cursor: nat, bytes: seq<Byte>, hits: seq<Span>) {
    && i <= |runs| && cursor <= |input| && Fits(runs[i..], cursor, |input|) && Fits(runs, 0, |input|)
    && bytes + Weave(input, runs[i..], cursor) == Weave(input, runs, 0)
    && hits == AllSpans(runs[..i])
  }

  lemma SpliceStart(input: seq<Byte>, runs: seq<Run>)
    requires Fits(runs, 0, |input|)
    ensures SplicedUpTo(input, runs, 0, 0, [], [])
  {
    assert runs[0..] == runs && runs[..0] == [];
  }

  lemma SpliceStep(input: seq<Byte>, runs: seq<Run>, i: nat, cursor: nat, bytes: seq<Byte>, hits: seq<Span>)
    requires SplicedUpTo(input, runs, i, cursor, bytes, hits) && i < |runs|
    ensures cursor <= runs[i].start <= runs[i].end <= |input|
    ensures SplicedUpTo(input, runs, i + 1, runs[i].end, bytes + input[cursor..runs[i].start] + Marker(runs[i]), hits + runs[i].spans)
  {
    assert runs[i..][0] == runs[i];
    WeaveStep(input, runs, i, cursor, bytes);
    TakeRun(runs, i);
    AllSpansSnoc(runs[..i], runs[i]);
  }

  lemma TakeRun(runs: seq<Run>, i: nat)
    requires i < |runs|
    ensures runs[..i + 1] == runs[..i] + [runs[i]]
  {
  }

  lemma SpliceEnd(input: seq<Byte>, runs: seq<Run>, cursor: nat, bytes: seq<Byte>, hits: seq<Span>)
    requires SplicedUpTo(input, runs, |runs|, cursor, bytes, hits)
    ensures bytes + input[cursor..] == Weave(input, runs, 0) && hits == AllSpans(runs)
  {
    assert runs[..|runs|] == runs && runs[|runs|..] == [];
  }

  method Splice(input: seq<Byte>, runs: seq<Run>) returns (bytes: seq<Byte>, hits: seq<Span>)
    requires Fits(runs, 0, |input|)
    ensures bytes == Weave(input, runs, 0)
    ensures hits == AllSpans(runs)
  {
    bytes, hits := [], [];
    var cursor: nat := 0;
    SpliceStart(input, runs);
    for i := 0 to |runs|
      invariant SplicedUpTo(input, runs, i, cursor, bytes, hits)
    {
      SpliceStep(input, runs, i, cursor, bytes, hits);
      bytes := PushMarker(bytes + input[cursor..runs[i].start], runs[i]);
      hits := hits + runs[i].spans;
      cursor := runs[i].end;
    }
    SpliceEnd(input, runs, cursor, bytes, hits);
    bytes := bytes + input[cursor..];
  }

  // ---- redact --------------------------------------------------------------

  /** The hits are exactly the matching windows with their digests, each once, in scan order. */
  ghost predicate ExactHits(sha: Sha, ps: Patterns, input: seq<Byte>, hits: seq<Span>) {
    && Sorted(hits)
    && (forall s :: s in hits ==> Found(sha, ps, input, s))
    && (forall off: nat, len: nat :: Occurs(sha, ps, input, off, len) ==> Span(off, len, sha(input[off..off + len])) in hits)
  }

  /** Earlier hits first, and the longer of two at one offset. */
  ghost predicate ScanOrder(hits: seq<Span>) {
    forall i, j :: 0 <= i < j < |hits| ==> hits[i].off < hits[j].off || (hits[i].off == hits[j].off && hits[j].len < hits[i].len)
  }

  lemma SortedIsScanOrder(hits: seq<Span>)
    requires Sorted(hits)
    ensures ScanOrder(hits)
  {
  }

  lemma RunsFit(runs: seq<Run>, spans: seq<Span>, n: nat)
    requires Merges(runs, spans) && forall s :: s in spans ==> s.off + s.len <= n
    ensures Fits(runs, 0, n)
  {
    forall k | 0 <= k < |runs| ensures runs[k].end <= n {
      assert InRuns(runs, runs[k].end - 1);
      var j :| 0 <= j < |spans| && spans[j].off <= runs[k].end - 1 < spans[j].off + spans[j].len;
      assert spans[j] in spans;
    }
  }

  /** Distinct found spans have distinct keys: the digest is a function of the window. */
  lemma FoundKeysDistinct(sha: Sha, ps: Patterns, input: seq<Byte>, raw: seq<Span>)
    requires Distinct(raw) && forall s :: s in raw ==> Found(sha, ps, input, s)
    ensures KeysDistinct(raw)
  {
    forall i, j | 0 <= i < j < |raw| ensures raw[i].off != raw[j].off || raw[i].len != raw[j].len {
      assert raw[i] in raw && raw[j] in raw;
    }
  }

  /** Find every occurrence, merge overlapping ones into `runs`, and replace each run by one marker. The hits
      determine the runs (RedactRuns), and so the output. */
  method Redact(sha: Sha, ps: Patterns, input: seq<Byte>) returns (bytes: seq<Byte>, hits: seq<Span>, ghost runs: seq<Run>)
    ensures ExactHits(sha, ps, input, hits) && ScanOrder(hits)
    ensures Merges(runs, hits) && Fits(runs, 0, |input|)
    ensures bytes == Weave(input, runs, 0)
  {
    var raw := Collect(sha, ps, input);
    FoundKeysDistinct(sha, ps, input, raw);
    SortIsSorted(raw);
    var spans := SortSpans(raw);
    var merged := MergeRuns(spans);
    runs := merged;
    RunsFit(runs, spans, |input|);
    SortedIsScanOrder(spans);
    if merged == [] {
      return input, [], runs;
    }
    bytes, hits := Splice(input, merged);
  }

  // ---- What the output is --------------------------------------------------

  /** The bytes of `input` from position `p` on that no span covers, in order. */
  ghost function Uncovered(input: seq<Byte>, spans: seq<Span>, p: nat): seq<Byte>
    requires p <= |input|
    decreases |input| - p
  {
    if p == |input| then []
    else (if Covered(spans, p) then [] else [input[p]]) + Uncovered(input, spans, p + 1)
  }

  /** What the splice copies from the input, markers left out. */
  ghost function Copied(input: seq<Byte>, runs: seq<Run>, cursor: nat): seq<Byte>
    requires cursor <= |input| && Fits(runs, cursor, |input|)
  {
    if runs == [] then input[cursor..]
    else input[cursor..runs[0].start] + Copied(input, runs[1..], runs[0].end)
  }

  /** A stretch with no covered position is copied whole. */
  lemma {:induction false} UncoveredStretch(input: seq<Byte>, spans: seq<Span>, p: nat, q: nat)
    requires p <= q <= |input| && forall k: nat :: p <= k < q ==> !Covered(spans, k)
    ensures Uncovered(input, spans, p) == input[p..q] + Uncovered(input, spans, q)
    decreases q - p
  {
    if p < q {
      UncoveredStretch(input, spans, p + 1, q);
      SliceFront(input, p, q, Uncovered(input, spans, q));
    } else {
      assert input[p..q] == [];
    }
  }

  lemma SliceFront(input: seq<Byte>, p: nat, q: nat, rest: seq<Byte>)
    requires p < q <= |input|
    ensures [input[p]] + (input[p + 1..q] + rest) == input[p..q] + rest
  {
  }

  /** A covered stretch contributes nothing. */
  lemma {:induction false} CoveredStretch(input: seq<Byte>, spans: seq<Span>, p: nat, q: nat)
    requires p <= q <= |input| && forall k: nat :: p <= k < q ==> Covered(spans, k)
    ensures Uncovered(input, spans, p) == Uncovered(input, spans, q)
    decreases q - p
  {
    if p < q { CoveredStretch(input, spans, p + 1, q); }
  }

  /** From `cursor` on, being covered is being in one of the remaining runs. */
  ghost predicate Remaining(runs: seq<Run>, spans: seq<Span>, cursor: nat) {
    forall p: nat :: cursor <= p ==> (InRuns(runs, p) <==> Covered(spans, p))
  }

  lemma RemainingTail(runs: seq<Run>, spans: seq<Span>, cursor: nat, n: nat)
    requires runs != [] && Fits(runs, cursor, n) && Remaining(runs, spans, cursor)
    ensures forall p: nat :: cursor <= p < runs[0].start ==> !Covered(spans, p)
    ensures forall p: nat :: runs[0].start <= p < runs[0].end ==> Covered(spans, p)
    ensures Remaining(runs[1..], spans, runs[0].end)
  {
    forall p: nat | runs[0].start <= p < runs[0].end ensures Covered(spans, p) {
      assert InRuns(runs, p);
    }
    forall p: nat | runs[0].end <= p ensures InRuns(runs[1..], p) <==> Covered(spans, p) {
      RunsFront(runs, p);
    }
  }

  lemma RunsFront(runs: seq<Run>, p: nat)
    requires runs != []
    ensures InRuns(runs, p) <==> runs[0].start <= p < runs[0].end || InRuns(runs[1..], p)
  {
    if InRuns(runs[1..], p) {
      var k :| 0 <= k < |runs[1..]| && runs[1..][k].start <= p < runs[1..][k].end;
      assert runs[k + 1] == runs[1..][k];
    }
    if InRuns(runs, p) {
      var k :| 0 <= k < |runs| && runs[k].start <= p < runs[k].end;
      if k > 0 { assert runs[1..][k - 1] == runs[k]; }
    }
  }

  /** The copied bytes are exactly the input bytes no hit covers, in order. */
  lemma {:induction false} CopiedIsUncovered(input: seq<Byte>, runs: seq<Run>, spans: seq<Span>, cursor: nat)
    requires cursor <= |input| && Fits(runs, cursor, |input|) && Remaining(runs, spans, cursor)
    ensures Copied(input, runs, cursor) == Uncovered(input, spans, cursor)
    decreases |runs|
  {
    if runs == [] {
      UncoveredStretch(input, spans, cursor, |input|);
      assert input[cursor..|input|] == input[cursor..];
    } else {
      RemainingTail(runs, spans, cursor, |input|);
      FitsTail(runs, cursor, |input|);
      UncoveredStretch(input, spans, cursor, runs[0].start);
      CoveredStretch(input, spans, runs[0].start, runs[0].end);
      CopiedIsUncovered(input, runs[1..], spans, runs[0].end);
    }
  }

  /** No hit covers any position from `a` up to `b`. */
  ghost predicate Untouched(hits: seq<Span>, a: nat, b: nat) {
    forall p: nat :: a <= p < b ==> !Covered(hits, p)
  }

  /** Every byte of every occurrence is covered. */
  lemma OccurrenceCovered(sha: Sha, ps: Patterns, input: seq<Byte>, hits: seq<Span>, off: nat, len: nat, p: nat)
    requires ExactHits(sha, ps, input, hits) && off <= p < off + len
    ensures Occurs(sha, ps, input, off, len) ==> Covered(hits, p)
  {
    if Occurs(sha, ps, input, off, len) {
      var s := Span(off, len, sha(input[off..off + len]));
      var k :| 0 <= k < |hits| && hits[k] == s;
    }
  }

  lemma SliceOfSlice(input: seq<Byte>, a: nat, b: nat, off: nat, len: nat)
    requires a + off + len <= b <= |input|
    ensures input[a..b][off..off + len] == input[a + off..a + off + len]
  {
    var window := input[a..b];
    assert forall k :: 0 <= k < |window| ==> window[k] == input[a + k];
    var l, r := window[off..off + len], input[a + off..a + off + len];
    assert forall k :: 0 <= k < len ==> l[k] == r[k];
  }

  /** No copied stretch of the input holds an occurrence of its own. */
  lemma CopiedStretchClean(sha: Sha, ps: Patterns, input: seq<Byte>, hits: seq<Span>, a: nat, b: nat)
    requires ExactHits(sha, ps, input, hits) && a <= b <= |input| && Untouched(hits, a, b)
    ensures Clean(sha, ps, input[a..b])
  {
    forall off: nat, len: nat | off + len <= b - a && len > 0 ensures !Occurs(sha, ps, input[a..b], off, len) {
      SliceOfSlice(input, a, b, off, len);
      assert !Covered(hits, a + off);
      OccurrenceCovered(sha, ps, input, hits, a + off, len, a + off);
    }
  }

  /** Of any outcome of `Redact`: what it copies from the input is exactly the uncovered bytes, in order. */
  lemma CopiesTheRest(input: seq<Byte>, hits: seq<Span>, runs: seq<Run>)
    requires Merges(runs, hits) && Fits(runs, 0, |input|)
    ensures Copied(input, runs, 0) == Uncovered(input, hits, 0)
  {
    CopiedIsUncovered(input, runs, hits, 0);
  }

  // ---- What is left in the output ------------------------------------------

  /** Copied stretch `k`: before the first run, between two runs, or after the last. */
  function StretchStart(runs: seq<Run>, k: nat): nat
    requires k <= |runs|
  {
    if k == 0 then 0 else runs[k - 1].end
  }

  function StretchEnd(runs: seq<Run>, k: nat, n: nat): nat
    requires k <= |runs|
  {
    if k < |runs| then runs[k].start else n
  }

  /** No stretch that the splice copies holds an occurrence. */
  lemma CopiedStretchesClean(sha: Sha, ps: Patterns, input: seq<Byte>, hits: seq<Span>, runs: seq<Run>, k: nat)
    requires ExactHits(sha, ps, input, hits) && Merges(runs, hits) && Fits(runs, 0, |input|) && k <= |runs|
    ensures StretchStart(runs, k) <= StretchEnd(runs, k, |input|) <= |input|
    ensures Clean(sha, ps, input[StretchStart(runs, k)..StretchEnd(runs, k, |input|)])
  {
    var a, b := StretchStart(runs, k), StretchEnd(runs, k, |input|);
    forall p: nat | a <= p < b ensures !Covered(hits, p) {
      BetweenRuns(runs, k, p, |input|);
    }
    CopiedStretchClean(sha, ps, input, hits, a, b);
  }

  lemma BetweenRuns(runs: seq<Run>, k: nat, p: nat, n: nat)
    requires Ordered(runs) && k <= |runs| && StretchStart(runs, k) <= p < StretchEnd(runs, k, n)
    ensures !InRuns(runs, p)
  {
  }

  /** Position `p` of the woven output is part of a marker. */
  ghost predicate InMarker(input: seq<Byte>, runs: seq<Run>, cursor: nat, p: nat)
    requires cursor <= |input| && Fits(runs, cursor, |input|)
    decreases |runs|
  {
    runs != [] &&
    var from := runs[0].start - cursor;
    var to := from + |Marker(runs[0])|;
    from <= p && (p < to || InMarker(input, runs[1..], runs[0].end, p - to))
  }

  /** The window of the output at `off` meets a marker. */
  ghost predicate MeetsMarker(input: seq<Byte>, runs: seq<Run>, cursor: nat, off: nat, len: nat)
    requires cursor <= |input| && Fits(runs, cursor, |input|)
  {
    exists p: nat :: off <= p < off + len && InMarker(input, runs, cursor, p)
  }

  lemma SliceLeft(a: seq<Byte>, b: seq<Byte>, off: nat, len: nat)
    requires off + len <= |a|
    ensures (a + b)[off..off + len] == a[off..off + len]
  {
  }

  lemma SliceRight(a: seq<Byte>, b: seq<Byte>, off: nat, len: nat)
    requires |a| <= off && off + len <= |a| + |b|
    ensures (a + b)[off..off + len] == b[off - |a|..off - |a| + len]
  {
  }

  /** A stretch no hit covers has no occurrence inside it. */
  lemma InStretch(sha: Sha, ps: Patterns, input: seq<Byte>, hits: seq<Span>, a: nat, b: nat, off: nat, len: nat)
    requires ExactHits(sha, ps, input, hits) && a <= b <= |input| && Untouched(hits, a, b) && off + len <= b - a
    ensures !Occurs(sha, ps, input[a..b], off, len)
  {
    CopiedStretchClean(sha, ps, input, hits, a, b);
  }

  lemma OccursInLeft(sha: Sha, ps: Patterns, a: seq<Byte>, b: seq<Byte>, off: nat, len: nat)
    requires off + len <= |a|
    ensures Occurs(sha, ps, a + b, off, len) == Occurs(sha, ps, a, off, len)
  {
    SliceLeft(a, b, off, len);
  }

  lemma OccursInRight(sha: Sha, ps: Patterns, a: seq<Byte>, b: seq<Byte>, off: nat, len: nat)
    requires |a| <= off
    ensures Occurs(sha, ps, a + b, off, len) == Occurs(sha, ps, b, off - |a|, len)
  {
    if off + len <= |a| + |b| { SliceRight(a, b, off, len); }
  }

  lemma WeaveParts(input: seq<Byte>, runs: seq<Run>, cursor: nat)
    requires runs != [] && cursor <= |input| && Fits(runs, cursor, |input|)
    ensures Fits(runs[1..], runs[0].end, |input|)
    ensures Weave(input, runs, cursor) == input[cursor..runs[0].start] + (Marker(runs[0]) + Weave(input, runs[1..], runs[0].end))
  {
    FitsTail(runs, cursor, |input|);
    Regroup(input[cursor..runs[0].start], Marker(runs[0]), Weave(input, runs[1..], runs[0].end));
  }

  lemma BeforeMarker(sha: Sha, ps: Patterns, input: seq<Byte>, hits: seq<Span>, a: nat, b: nat, rest: seq<Byte>, off: nat, len: nat)
    requires ExactHits(sha, ps, input, hits) && a <= b <= |input| && Untouched(hits, a, b) && off + len <= b - a
    ensures !Occurs(sha, ps, input[a..b] + rest, off, len)
  {
    OccursInLeft(sha, ps, input[a..b], rest, off, len);
    InStretch(sha, ps, input, hits, a, b, off, len);
  }

  lemma AcrossMarker(input: seq<Byte>, runs: seq<Run>, cursor: nat, off: nat, len: nat)
    requires runs != [] && cursor <= |input| && Fits(runs, cursor, |input|) && len > 0
    requires runs[0].start - cursor < off + len && off < runs[0].start - cursor + |Marker(runs[0])|
    ensures MeetsMarker(input, runs, cursor, off, len)
  {
    var gap := runs[0].start - cursor;
    var p := if off < gap then gap else off;
    assert InMarker(input, runs, cursor, p);
  }

  lemma AfterMarker(input: seq<Byte>, runs: seq<Run>, cursor: nat, off: nat, len: nat)
    requires runs != [] && cursor <= |input| && Fits(runs, cursor, |input|) && Fits(runs[1..], runs[0].end, |input|)
    requires off >= runs[0].start - cursor + |Marker(runs[0])|
    requires MeetsMarker(input, runs[1..], runs[0].end, off - (runs[0].start - cursor + |Marker(runs[0])|), len)
    ensures MeetsMarker(input, runs, cursor, off, len)
  {
    var to := runs[0].start - cursor + |Marker(runs[0])|;
    var p: nat :| off - to <= p < off - to + len && InMarker(input, runs[1..], runs[0].end, p);
    assert InMarker(input, runs, cursor, p + to);
  }

  lemma OccursAfter(sha: Sha, ps: Patterns, a: seq<Byte>, m: seq<Byte>, rest: seq<Byte>, off: nat, len: nat)
    requires |a| + |m| <= off
    ensures Occurs(sha, ps, a + (m + rest), off, len) == Occurs(sha, ps, rest, off - |a| - |m|, len)
  {
    OccursInRight(sha, ps, a, m + rest, off, len);
    OccursInRight(sha, ps, m, rest, off - |a|, len);
  }

  lemma {:induction false} OccurrenceMeetsMarkerFrom(sha: Sha, ps: Patterns, input: seq<Byte>, hits: seq<Span>, runs: seq<Run>, cursor: nat, off: nat, len: nat)
    requires ExactHits(sha, ps, input, hits) && cursor <= |input| && Fits(runs, cursor, |input|) && Remaining(runs, hits, cursor)
    requires len > 0
    ensures Occurs(sha, ps, Weave(input, runs, cursor), off, len) ==> MeetsMarker(input, runs, cursor, off, len)
    decreases |runs|
  {
    if runs == [] {
      LastStretchClean(sha, ps, input, hits, cursor, off, len);
    } else {
      WeaveParts(input, runs, cursor);
      RemainingTail(runs, hits, cursor, |input|);
      var gap, m := runs[0].start - cursor, Marker(runs[0]);
      var rest := Weave(input, runs[1..], runs[0].end);
      if off + len <= gap {
        BeforeMarker(sha, ps, input, hits, cursor, runs[0].start, m + rest, off, len);
      } else if off < gap + |m| {
        AcrossMarker(input, runs, cursor, off, len);
      } else {
        OccursAfter(sha, ps, input[cursor..runs[0].start], m, rest, off, len);
        OccurrenceMeetsMarkerFrom(sha, ps, input, hits, runs[1..], runs[0].end, off - gap - |m|, len);
        if MeetsMarker(input, runs[1..], runs[0].end, off - gap - |m|, len) { AfterMarker(input, runs, cursor, off, len); }
      }
    }
  }

  lemma LastStretchClean(sha: Sha, ps: Patterns, input: seq<Byte>, hits: seq<Span>, cursor: nat, off: nat, len: nat)
    requires ExactHits(sha, ps, input, hits) && cursor <= |input| && Remaining([], hits, cursor)
    ensures !Occurs(sha, ps, input[cursor..], off, len)
  {
    assert forall p: nat :: cursor <= p ==> !InRuns([], p);
    assert input[cursor..] == input[cursor..|input|];
    if off + len <= |input| - cursor { InStretch(sha, ps, input, hits, cursor, |input|, off, len); }
  }

  /** Of any outcome of `Redact`: an occurrence in the output can only be made with bytes of a marker; none is left
      in what was copied, nor across a seam without the marker between. */
  lemma OccurrenceMeetsMarker(sha: Sha, ps: Patterns, input: seq<Byte>, hits: seq<Span>, runs: seq<Run>, off: nat, len: nat)
    requires ExactHits(sha, ps, input, hits) && Merges(runs, hits) && Fits(runs, 0, |input|)
    requires Occurs(sha, ps, Weave(input, runs, 0), off, len)
    ensures MeetsMarker(input, runs, 0, off, len)
  {
    OccurrenceMeetsMarkerFrom(sha, ps, input, hits, runs, 0, off, len);
  }
}
