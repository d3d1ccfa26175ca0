/**
 The streaming matcher and the redactor agree on every input, however the stream
 is cut into chunks.
 */
module LeakAgreement {
  import opened Lifecycle
  import opened Fingerprint
  import opened LeakSpec
  import opened Sequences
  import RollingMatcher
  import Redact

  /** What the matcher's contract says of a stream fed until its first hit; `order` is its group order. */
  ghost predicate StreamOutcome(sha: Sha, ps: Patterns, order: seq<nat>, input: seq<Byte>, hit: Option<RollingMatcher.LeakHit>, end: nat) {
    match hit
    case None => Clean(sha, ps, input)
    case Some(h) => LeastEnd(sha, ps, input, end) && RollingMatcher.IsFirst(sha, ps, order, input, end, h)
  }

  /** Feed the chunks in turn until one reports a hit. */
  method FeedAll(sha: Sha, ps: Patterns, chunks: seq<seq<Byte>>) 
    returns (hit: Option<RollingMatcher.LeakHit>, ghost end: nat, ghost order: seq<nat>)
    ensures StreamOutcome(sha, ps, order, Flatten(chunks), hit, end)
  {
    var m := new RollingMatcher.RollingMatcher(sha, ps);
    end, order := 0, m.Order();
    for i := 0 to |chunks|
      invariant m.Valid() && fresh(m) && fresh(m.ring) && m.sha == sha && m.patterns == ps
      invariant m.Order() == order && m.history == Flatten(chunks[..i]) && Clean(sha, ps, m.history)
    {
      ghost var before := m.history;
      FlattenTake(chunks, i);
      FlattenSplit(chunks, i + 1);
      hit, end := m.Feed(chunks[i]);
      if hit.Some? {
        RollingMatcher.HitPrefix(sha, ps, before + chunks[i], Flatten(chunks[i + 1..]), end, hit.value);
        RollingMatcher.FirstPrefix(sha, ps, order, before + chunks[i], Flatten(chunks[i + 1..]), end, hit.value);
        return;
      }
    }
    assert chunks[..|chunks|] == chunks;
    hit := None;
  }

  lemma FlattenTake(chunks: seq<seq<Byte>>, i: nat)
    requires i < |chunks|
    ensures Flatten(chunks[..i + 1]) == Flatten(chunks[..i]) + chunks[i]
  {
    FlattenSnoc(chunks[..i], chunks[i]);
    assert chunks[..i + 1] == chunks[..i] + [chunks[i]];
  }

  lemma FlattenSplit(chunks: seq<seq<Byte>>, i: nat)
    requires i <= |chunks|
    ensures Flatten(chunks) == Flatten(chunks[..i]) + Flatten(chunks[i..])
  {
    FlattenCat(chunks[..i], chunks[i..]);
    assert chunks == chunks[..i] + chunks[i..];
  }

  /** Any chunking of an input hits exactly when the redactor has hits on the whole of it, and where it
      hits is the least end of the redactor's windows. */
  lemma DetectorsAgree(sha: Sha, ps: Patterns, order: seq<nat>, input: seq<Byte>, hits: seq<Redact.Span>,
                       hit: Option<RollingMatcher.LeakHit>, end: nat)
    requires Redact.ExactHits(sha, ps, input, hits) && StreamOutcome(sha, ps, order, input, hit, end)
    ensures hit.Some? <==> hits != []
    ensures hit.Some? ==> (forall s :: s in hits ==> end <= s.off + s.len) && Redact.Span(hit.value.offset, end - hit.value.offset, hit.value.sha256) in hits
  {
    forall s | s in hits ensures Occurs(sha, ps, input, s.off, s.len) && (hit.Some? ==> end <= s.off + s.len) {
      assert Redact.Found(sha, ps, input, s);
      assert hit.Some? ==> s.off + s.len <= end - 1 || end <= s.off + s.len;
    }
    if hits != [] { assert hits[0] in hits; }
  }

  /** Two ways of cutting the same input into chunks return the same hit, from matchers with the same group order. */
  lemma ChunkingIrrelevant(sha: Sha, ps: Patterns, order: seq<nat>, input: seq<Byte>,
                           hit1: Option<RollingMatcher.LeakHit>, end1: nat, hit2: Option<RollingMatcher.LeakHit>, end2: nat)
    requires StreamOutcome(sha, ps, order, input, hit1, end1) && StreamOutcome(sha, ps, order, input, hit2, end2)
    ensures hit1 == hit2 && (hit1.Some? ==> end1 == end2)
  {
    if hit1.Some? && hit2.Some? {
      assert input + [] == input;
      LeastEndUnique(sha, ps, input, [], end1, end2);
      RollingMatcher.FirstUnique(sha, ps, order, input, end1, hit1.value, hit2.value);
    }
  }

  // ---- Bytes ---------------------------------------------------------------

  /** Where no window collides with a secret, the stream hits exactly when a secret is in it, and what it reports
      is a secret byte for byte. */
  lemma StreamReportsSecrets(sha: Sha, secrets: seq<seq<Byte>>, ps: Patterns, order: seq<nat>, input: seq<Byte>,
                             hit: Option<RollingMatcher.LeakHit>, end: nat)
    requires Fingerprints(sha, ps, secrets) && CollisionFree(sha, secrets, input) && StreamOutcome(sha, ps, order, input, hit, end)
    ensures hit.Some? ==> hit.value.offset < end <= |input| && input[hit.value.offset..end] in secrets
    ensures hit.Some? <==> exists off: nat, len: nat :: 0 < len && off + len <= |input| && Window(input, off, len) in secrets
  {
    forall off: nat, len: nat | 0 < len && off + len <= |input|
      ensures Occurs(sha, ps, input, off, len) <==> Window(input, off, len) in secrets
    {
      OccurrenceIsSecret(sha, secrets, ps, input, off, len);
    }
    if hit.Some? {
      var len := end - hit.value.offset;
      assert Window(input, hit.value.offset, len) == input[hit.value.offset..end];
    }
  }

  /** And the redactor's hits are exactly the windows that are secrets. */
  lemma RedactReportsSecrets(sha: Sha, secrets: seq<seq<Byte>>, ps: Patterns, input: seq<Byte>, hits: seq<Redact.Span>, off: nat, len: nat)
    requires Fingerprints(sha, ps, secrets) && CollisionFree(sha, secrets, input) && Redact.ExactHits(sha, ps, input, hits)
    requires 0 < len && off + len <= |input|
    ensures Redact.Span(off, len, sha(Window(input, off, len))) in hits <==> Window(input, off, len) in secrets
  {
    OccurrenceIsSecret(sha, secrets, ps, input, off, len);
    var s := Redact.Span(off, len, sha(Window(input, off, len)));
    assert s in hits ==> Redact.Found(sha, ps, input, s);
  }
}
