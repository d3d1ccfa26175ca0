/**
 The streaming matcher of leak-scan/src/matcher.rs: per-length rolling hashes over
 a ring buffer that holds the last `cap = maxLen + 1` bytes.
 */
module RollingMatcher {
  import opened Lifecycle
  import opened Fingerprint
  import opened LeakSpec

  datatype LeakHit = LeakHit(sha256: Digest, offset: nat)

  datatype LenGroup = LenGroup(len: nat, pow: U64, cur: U64, primed: bool, targets: Targets)

  /** The last `len` bytes of `h`. */
  function Tail(h: seq<Byte>, len: nat): seq<Byte>
    requires len <= |h|
  {
    h[|h| - len..]
  }

  /** A group's rolling state is right for the bytes `h` fed so far. */
  ghost predicate Synced(g: LenGroup, h: seq<Byte>) {
    && g.primed == (g.len <= |h|)
    && (g.primed ==> g.cur == Fp64(Tail(h, g.len)))
  }

  /** A group's constants: its width fits the ring, its weight and its targets are those of its length. */
  ghost predicate WellFormed(g: LenGroup, ps: Patterns, cap: nat) {
    && 0 < g.len < cap
    && g.pow == Weight(g.len)
    && (forall fp: U64, d: Digest :: Holds(g.targets, fp, d) <==> SecretFingerprint(g.len, fp, d) in ps)
  }

  ghost predicate AllWellFormed(groups: seq<LenGroup>, ps: Patterns, cap: nat) {
    forall k :: 0 <= k < |groups| ==> WellFormed(groups[k], ps, cap)
  }

  ghost predicate SyncedIn(groups: seq<LenGroup>, lo: nat, hi: nat, h: seq<Byte>) {
    forall k :: lo <= k < hi <= |groups| ==> Synced(groups[k], h)
  }

  ghost predicate SameWidths(before: seq<LenGroup>, after: seq<LenGroup>) {
    |before| == |after| && forall k :: 0 <= k < |before| ==> before[k].len == after[k].len
  }

  /** None of the first `n` groups matches the window that ends at the newest byte of `h`. */
  ghost predicate NoneEnds(sha: Sha, ps: Patterns, groups: seq<LenGroup>, n: nat, h: seq<Byte>) {
    forall k :: 0 <= k < n <= |groups| && groups[k].len <= |h| ==> !Occurs(sha, ps, h, |h| - groups[k].len, groups[k].len)
  }

  /** The group widths, in the order the groups are tried. */
  ghost function Widths(groups: seq<LenGroup>): (ws: seq<nat>)
    ensures |ws| == |groups| && forall k :: 0 <= k < |ws| ==> ws[k] == groups[k].len
  {
    seq(|groups|, k requires 0 <= k < |groups| => groups[k].len)
  }

  /** The window of `len` bytes that ends at `end` matches. */
  ghost predicate EndsWith(sha: Sha, ps: Patterns, input: seq<Byte>, end: nat, len: nat) {
    len <= end && Occurs(sha, ps, input, end - len, len)
  }

  /** The hit is that of the first width, in order, whose window matches at `end`. */
  ghost predicate IsFirst(sha: Sha, ps: Patterns, widths: seq<nat>, input: seq<Byte>, end: nat, hit: LeakHit) {
    && IsHit(sha, ps, input, end, hit)
    && exists k :: 0 <= k < |widths| && FirstWidth(sha, ps, widths, k, input, end) && hit.offset + widths[k] == end
  }

  ghost predicate FirstWidth(sha: Sha, ps: Patterns, widths: seq<nat>, k: nat, input: seq<Byte>, end: nat) {
    k < |widths| && EndsWith(sha, ps, input, end, widths[k]) && forall j :: 0 <= j < k ==> !EndsWith(sha, ps, input, end, widths[j])
  }

  /** The order of the groups decides which of several windows ending together is reported. */
  lemma FirstUnique(sha: Sha, ps: Patterns, widths: seq<nat>, input: seq<Byte>, end: nat, hit1: LeakHit, hit2: LeakHit)
    requires IsFirst(sha, ps, widths, input, end, hit1) && IsFirst(sha, ps, widths, input, end, hit2)
    ensures hit1 == hit2
  {
    var k1 :| 0 <= k1 < |widths| && FirstWidth(sha, ps, widths, k1, input, end) && hit1.offset + widths[k1] == end;
    var k2 :| 0 <= k2 < |widths| && FirstWidth(sha, ps, widths, k2, input, end) && hit2.offset + widths[k2] == end;
    assert k1 == k2;
  }

  lemma FirstPrefix(sha: Sha, ps: Patterns, widths: seq<nat>, input: seq<Byte>, more: seq<Byte>, end: nat, hit: LeakHit)
    requires IsFirst(sha, ps, widths, input, end, hit)
    ensures IsFirst(sha, ps, widths, input + more, end, hit)
  {
    var k :| 0 <= k < |widths| && FirstWidth(sha, ps, widths, k, input, end) && hit.offset + widths[k] == end;
    forall j | 0 <= j < |widths| && widths[j] <= end
      ensures EndsWith(sha, ps, input + more, end, widths[j]) == EndsWith(sha, ps, input, end, widths[j])
    {
      OccursPrefix(sha, ps, input, more, end - widths[j], widths[j]);
    }
    assert FirstWidth(sha, ps, widths, k, input + more, end);
    assert (input + more)[hit.offset..end] == input[hit.offset..end];
    OccursPrefix(sha, ps, input, more, hit.offset, end - hit.offset);
  }

  /** Groups before `k` do not match and group `k` does. */
  lemma FirstGroup(sha: Sha, ps: Patterns, groups: seq<LenGroup>, k: nat, h: seq<Byte>, hit: LeakHit)
    requires k < |groups| && NoneEnds(sha, ps, groups, k, h) && IsHit(sha, ps, h, |h|, hit) && hit.offset + groups[k].len == |h|
    ensures IsFirst(sha, ps, Widths(groups), h, |h|, hit)
  {
    var ws := Widths(groups);
    forall j | 0 <= j < k ensures !EndsWith(sha, ps, h, |h|, ws[j]) {
      assert groups[j].len == ws[j];
    }
    assert FirstWidth(sha, ps, ws, k, h, |h|);
  }

  lemma SameOrder(before: seq<LenGroup>, after: seq<LenGroup>)
    requires SameWidths(before, after)
    ensures Widths(before) == Widths(after)
  {
  }

  ghost predicate CoversAll(groups: seq<LenGroup>, ps: Patterns) {
    forall p :: p in ps && p.len > 0 ==> exists k :: 0 <= k < |groups| && groups[k].len == p.len
  }

  /** Where absolute index `i` sits in a ring of `cap` slots. */
  function Slot(i: nat, cap: nat): (s: nat)
    requires cap > 0
    ensures s < cap
  {
    i % cap
  }

  /** `ring` holds the last `|ring|` bytes of `h`, each at its absolute index modulo the capacity. */
  ghost predicate RingHolds(ring: seq<Byte>, h: seq<Byte>) {
    && |ring| > 0
    && forall k: nat :: k < |h| <= k + |ring| ==> ring[Slot(k, |ring|)] == h[k]
  }

  lemma Distribute(cap: nat, x: nat, y: nat)
    ensures cap * (x + y) == cap * x + cap * y
  {
  }

  lemma LapsApart(cap: nat, q1: nat, q2: nat)
    ensures q1 < q2 ==> cap * q1 + cap <= cap * q2
    ensures q2 <= q1 ==> cap * q2 <= cap * q1
  {
    if q1 < q2 {
      Distribute(cap, q1 + 1, q2 - q1 - 1);
      Distribute(cap, q1, 1);
    } else {
      Distribute(cap, q2, q1 - q2);
    }
  }

  /** Two indices less than a lap apart sit in different slots. */
  lemma SlotsDiffer(k: nat, i: nat, cap: nat)
    requires k < i < k + cap
    ensures Slot(k, cap) != Slot(i, cap)
  {
    assert k == cap * (k / cap) + k % cap && i == cap * (i / cap) + i % cap;
    LapsApart(cap, k / cap, i / cap);
  }

  /** Storing byte `|h|` in its slot overwrites only the byte that is a full lap old. */
  lemma RingAdvances(ring: seq<Byte>, h: seq<Byte>, b: Byte)
    requires RingHolds(ring, h)
    ensures RingHolds(ring[Slot(|h|, |ring|) := b], h + [b])
  {
    var ring' := ring[Slot(|h|, |ring|) := b];
    forall k: nat | k < |h| + 1 <= k + |ring| ensures ring'[Slot(k, |ring|)] == (h + [b])[k] {
      if k < |h| { SlotsDiffer(k, |h|, |ring|); }
    }
  }

  class RollingMatcher {
    const sha: Sha
    ghost const patterns: Patterns
    var groups: seq<LenGroup>
    const ring: array<Byte>
    const cap: nat
    var fed: nat
    /** Every byte fed so far. */
    ghost var history: seq<Byte>

    ghost predicate Valid()
      reads this, ring
    {
      && 0 < cap == ring.Length
      && fed == |history|
      && AllWellFormed(groups, patterns, cap)
      && SyncedIn(groups, 0, |groups|, history)
      && CoversAll(groups, patterns)
      && (groups != [] ==> RingHolds(ring[..], history))
    }

    /** The order in which the groups are tried; nothing changes it. */
    ghost function Order(): seq<nat>
      reads this
    {
      Widths(groups)
    }

    constructor (sha: Sha, ps: Patterns)
      ensures Valid() && fresh(ring) && this.sha == sha && patterns == ps && history == []
    {
      var maxIndexed := 0;
      for i := 0 to |ps|
        invariant forall k :: 0 <= k < i ==> ps[k].len <= maxIndexed
      {
        if ps[i].len > maxIndexed { maxIndexed := ps[i].len; }
      }
      var byLen := IndexPatterns(ps, 1, maxIndexed);
      var gs: seq<LenGroup> := [];
      var todo := byLen.Keys;
      while todo != {}
        invariant todo <= byLen.Keys
        invariant forall k :: 0 <= k < |gs| ==> WellFormed(gs[k], ps, maxIndexed + 1) && !gs[k].primed
        invariant forall len :: len in byLen && len !in todo ==> exists k :: 0 <= k < |gs| && gs[k].len == len
        decreases |todo|
      {
        var len :| len in todo;
        todo := todo - {len};
        var pow := PowBase(len);
        ghost var before := gs;
        gs := gs + [LenGroup(len, pow, 0, false, byLen[len])];
        assert forall k :: 0 <= k < |before| ==> gs[k] == before[k];
        assert gs[|before|].len == len;
        assert forall fp: U64, d: Digest :: Holds(byLen[len], fp, d) <==> HoldsLen(byLen, len, fp, d);
      }
      assert CoversAll(gs, ps) by {
        forall p | p in ps && p.len > 0 ensures exists k :: 0 <= k < |gs| && gs[k].len == p.len {
          assert HoldsLen(byLen, p.len, p.fp64, p.sha256);
        }
      }
      this.sha := sha;
      patterns := ps;
      groups := gs;
      cap := maxIndexed + 1;
      ring := new Byte[maxIndexed + 1](_ => 0);
      fed := 0;
      history := [];
    }

    /** The ring still holds the last `len` bytes, wherever they wrap. */
    method ReadWindow(i: nat, len: nat, ghost h: seq<Byte>) returns (w: seq<Byte>)
      requires 0 < len <= |h| && i + 1 == |h| && len <= ring.Length == cap && RingHolds(ring[..], h)
      ensures w == Tail(h, len)
    {
      var start := i + 1 - len;
      w := [];
      for k := 0 to len
        invariant w == h[start..start + k]
      {
        assert ring[..][Slot(start + k, cap)] == h[start + k];
        w := w + [ring[Slot(start + k, cap)]];
      }
    }

    /** Bring one group up to date with byte `b` at absolute index `i`. */
    method Advance(g: LenGroup, i: nat, b: Byte, ghost h: seq<Byte>) returns (g': LenGroup)
      requires |h| == i && 0 < cap == ring.Length && RingHolds(ring[..], h + [b])
      requires WellFormed(g, patterns, cap) && Synced(g, h)
      ensures g' == g.(cur := g'.cur, primed := g'.primed) && Synced(g', h + [b])
    {
      if i + 1 < g.len { return g; }
      if !g.primed {
        var w := ReadWindow(i, g.len, h + [b]);
        var cur := Poly(w);
        g' := g.(cur := cur, primed := true);
      } else {
        var out := ring[Slot(i - g.len, cap)];
        assert ring[..][Slot(i - g.len, cap)] == (h + [b])[i - g.len];
        var before := Tail(h, g.len);
        assert Tail(h + [b], g.len) == before[1..] + [b];
        RollCorrect(before, b);
        g' := g.(cur := Roll(g.cur, out, g.pow, b));
      }
    }

    /** The pre-filter and its SHA-256 confirmation for one group's current window. */
    method Confirm(g: LenGroup, i: nat, ghost h: seq<Byte>) returns (hit: Option<LeakHit>)
      requires i + 1 == |h| && 0 < cap == ring.Length && RingHolds(ring[..], h)
      requires WellFormed(g, patterns, cap) && Synced(g, h)
      ensures hit.Some? <==> g.len <= |h| && Occurs(sha, patterns, h, |h| - g.len, g.len)
      ensures hit.Some? ==> IsHit(sha, patterns, h, |h|, hit.value) && hit.value.offset + g.len == |h|
    {
      if i + 1 < g.len { return None; }
      assert h[|h| - g.len..|h| - g.len + g.len] == Tail(h, g.len);
      if g.cur in g.targets {
        var w := ReadWindow(i, g.len, h);
        var digest := sha(w);
        assert Holds(g.targets, g.cur, digest) <==> digest in g.targets[g.cur];
        if digest in g.targets[g.cur] {
          return Some(LeakHit(digest, i + 1 - g.len));
        }
      }
      assert !Holds(g.targets, g.cur, sha(Tail(h, g.len)));
      hit := None;
    }

    method Store(b: Byte)
      requires 0 < cap == ring.Length && fed == |history| && RingHolds(ring[..], history)
      modifies ring
      ensures RingHolds(ring[..], history + [b])
    {
      RingAdvances(ring[..], history, b);
      ghost var before := ring[..];
      ring[Slot(fed, cap)] := b;
      assert ring[..] == before[Slot(fed, cap) := b];
    }

    /** Bring every group up to date with byte `b` and confirm its window, stopping at the first hit. */
    method AdvanceGroups(gs: seq<LenGroup>, i: nat, b: Byte, ghost h: seq<Byte>) returns (gs': seq<LenGroup>, hit: Option<LeakHit>)
      requires |h| == i && 0 < cap == ring.Length && RingHolds(ring[..], h + [b])
      requires AllWellFormed(gs, patterns, cap) && SyncedIn(gs, 0, |gs|, h)
      ensures SameWidths(gs, gs') && AllWellFormed(gs', patterns, cap)
      ensures hit.None? ==> SyncedIn(gs', 0, |gs'|, h + [b]) && NoneEnds(sha, patterns, gs', |gs'|, h + [b])
      ensures hit.Some? ==> IsFirst(sha, patterns, Widths(gs), h + [b], |h| + 1, hit.value)
    {
      gs' := gs;
      var k := 0;
      while k < |gs'|
        invariant 0 <= k <= |gs'| && SameWidths(gs, gs')
        invariant AllWellFormed(gs', patterns, cap)
        invariant SyncedIn(gs', 0, k, h + [b]) && SyncedIn(gs', k, |gs'|, h)
        invariant NoneEnds(sha, patterns, gs', k, h + [b])
      {
        var g := Advance(gs'[k], i, b, h);
        GroupStep(sha, patterns, gs', k, g, h, h + [b], cap);
        gs' := gs'[k := g];
        hit := Confirm(g, i, h + [b]);
        if hit.Some? {
          FirstGroup(sha, patterns, gs', k, h + [b], hit.value);
          SameOrder(gs, gs');
          return;
        }
        NoneEndsStep(sha, patterns, gs', k, h + [b]);
        k := k + 1;
      }
      hit := None;
    }

    /** Feed one byte: store it, then let every group see it. */
    method FeedByte(b: Byte) returns (hit: Option<LeakHit>)
      requires Valid() && groups != [] && Clean(sha, patterns, history)
      modifies this, ring
      ensures history == old(history) + [b] && Order() == old(Order())
      ensures hit.None? ==> Valid() && groups != [] && Clean(sha, patterns, history)
      ensures hit.Some? ==> IsFirst(sha, patterns, old(Order()), history, |history|, hit.value) && LeastEnd(sha, patterns, history, |history|)
    {
      ghost var h := history;
      var i := fed;
      Store(b);
      history := h + [b];
      ghost var before := groups;
      groups, hit := AdvanceGroups(groups, i, b, h);
      CleanPrefix(sha, patterns, h, [b], |h|);
      SameOrder(before, groups);
      if hit.Some? {
        HitIsLeast(sha, patterns, history, hit.value);
        return;
      }
      SameLengths(before, groups, patterns);
      NothingEndsHere(sha, patterns, groups, history);
      fed := i + 1;
    }

    /** With nothing to scan for, only the byte count moves. */
    method Skip(chunk: seq<Byte>)
      requires Valid() && groups == []
      modifies this
      ensures Valid() && history == old(history) + chunk && Clean(sha, patterns, history) && groups == old(groups)
    {
      fed := fed + |chunk|;
      history := history + chunk;
      NoGroupsClean(sha, patterns, history);
    }

    /** Feed a chunk: the first hit, or None with every byte taken. `end` is where the hit's window ends; of the
        windows that end there, the hit is the one whose width comes first in the matcher's order. */
    method Feed(chunk: seq<Byte>) returns (hit: Option<LeakHit>, ghost end: nat)
      requires Valid() && Clean(sha, patterns, history)
      modifies this, ring
      ensures Order() == old(Order())
      ensures hit.None? ==> Valid() && history == old(history) + chunk && Clean(sha, patterns, history)
      ensures hit.Some? ==>
        && |old(history)| < end
        && LeastEnd(sha, patterns, old(history) + chunk, end)
        && IsFirst(sha, patterns, old(Order()), old(history) + chunk, end, hit.value)
    {
      end := 0;
      if groups == [] {
        Skip(chunk);
        return None, end;
      }
      var j := 0;
      while j < |chunk|
        invariant 0 <= j <= |chunk|
        invariant Order() == old(Order())
        invariant Valid() && groups != [] && history == old(history) + chunk[..j] && Clean(sha, patterns, history)
      {
        hit := FeedByte(chunk[j]);
        Progress(old(history), chunk, j);
        j := j + 1;
        if hit.Some? {
          end := |history|;
          HitPrefix(sha, patterns, history, chunk[j..], end, hit.value);
          FirstPrefix(sha, patterns, Order(), history, chunk[j..], end, hit.value);
          return;
        }
      }
      hit := None;
    }
  }

  lemma Progress(h: seq<Byte>, chunk: seq<Byte>, j: nat)
    requires j < |chunk|
    ensures h + chunk[..j] + [chunk[j]] == h + chunk[..j + 1]
    ensures h + chunk == (h + chunk[..j + 1]) + chunk[j + 1..]
  {
  }

  /** The hit names a matching window that ends at `end`, by its digest. */
  ghost predicate IsHit(sha: Sha, ps: Patterns, input: seq<Byte>, end: nat, hit: LeakHit) {
    && hit.offset < end <= |input|
    && Occurs(sha, ps, input, hit.offset, end - hit.offset)
    && hit.sha256 == sha(input[hit.offset..end])
  }

  lemma HitIsLeast(sha: Sha, ps: Patterns, input: seq<Byte>, hit: LeakHit)
    requires IsHit(sha, ps, input, |input|, hit) && CleanUpTo(sha, ps, input, |input| - 1)
    ensures LeastEnd(sha, ps, input, |input|)
  {
    assert hit.offset + (|input| - hit.offset) == |input|;
  }

  lemma SameLengths(before: seq<LenGroup>, after: seq<LenGroup>, ps: Patterns)
    requires CoversAll(before, ps) && SameWidths(before, after)
    ensures CoversAll(after, ps)
  {
    forall p | p in ps && p.len > 0 ensures exists k :: 0 <= k < |after| && after[k].len == p.len {
      var k :| 0 <= k < |before| && before[k].len == p.len;
      assert after[k].len == p.len;
    }
  }

  lemma NoGroupsClean(sha: Sha, ps: Patterns, input: seq<Byte>)
    requires CoversAll([], ps)
    ensures Clean(sha, ps, input)
  {
  }

  lemma HitPrefix(sha: Sha, ps: Patterns, input: seq<Byte>, more: seq<Byte>, end: nat, hit: LeakHit)
    requires LeastEnd(sha, ps, input, end) && IsHit(sha, ps, input, end, hit)
    ensures LeastEnd(sha, ps, input + more, end) && IsHit(sha, ps, input + more, end, hit)
  {
    OccursPrefix(sha, ps, input, more, hit.offset, end - hit.offset);
    CleanPrefix(sha, ps, input, more, end - 1);
    assert (input + more)[hit.offset..end] == input[hit.offset..end];
  }

  /** Replacing group `k` by its advanced self. */
  lemma GroupStep(sha: Sha, ps: Patterns, groups: seq<LenGroup>, k: nat, g: LenGroup, h: seq<Byte>, h': seq<Byte>, cap: nat)
    requires k < |groups| && AllWellFormed(groups, ps, cap) && SyncedIn(groups, 0, k, h') && SyncedIn(groups, k, |groups|, h)
    requires WellFormed(g, ps, cap) && Synced(g, h') && g.len == groups[k].len
    ensures var after := groups[k := g];
            && SameWidths(groups, after) && AllWellFormed(after, ps, cap)
            && SyncedIn(after, 0, k + 1, h') && SyncedIn(after, k + 1, |after|, h)
            && (NoneEnds(sha, ps, groups, k, h') ==> NoneEnds(sha, ps, after, k, h'))
  {
  }

  lemma NoneEndsStep(sha: Sha, ps: Patterns, groups: seq<LenGroup>, k: nat, h: seq<Byte>)
    requires k < |groups| && NoneEnds(sha, ps, groups, k, h)
    requires !(groups[k].len <= |h| && Occurs(sha, ps, h, |h| - groups[k].len, groups[k].len))
    ensures NoneEnds(sha, ps, groups, k + 1, h)
  {
  }

  /** When no group's window matches, nothing ends at the newest byte. */
  lemma NothingEndsHere(sha: Sha, ps: Patterns, groups: seq<LenGroup>, h: seq<Byte>)
    requires CoversAll(groups, ps) && NoneEnds(sha, ps, groups, |groups|, h)
    requires h != [] && CleanUpTo(sha, ps, h, |h| - 1)
    ensures Clean(sha, ps, h)
    ensures forall off: nat, len: nat :: off + len == |h| ==> !Occurs(sha, ps, h, off, len)
  {
    forall off: nat, len: nat | off + len == |h| ensures !Occurs(sha, ps, h, off, len) {
      if k :| 0 <= k < |groups| && groups[k].len == len {
        assert !Occurs(sha, ps, h, |h| - groups[k].len, groups[k].len);
      } else {
        assert forall p :: p in ps ==> p.len != len || len == 0;
      }
    }
  }
}
