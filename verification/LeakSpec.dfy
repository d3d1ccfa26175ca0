/**
 What a leak is: some window of the input has the length, the 64-bit fingerprint
 and the SHA-256 of a pattern. Both detectors are proved against this.
 */
module LeakSpec {
  import opened Fingerprint

  type Patterns = seq<SecretFingerprint>
  type Sha = seq<Byte> -> Digest

  /** The `len` bytes at `off` match a pattern. */
  predicate Occurs(sha: Sha, ps: Patterns, input: seq<Byte>, off: nat, len: nat) {
    0 < len && off + len <= |input| && Print(sha, input[off..off + len]) in ps
  }

  /** No window of `input` that ends at or before `end` matches. */
  ghost predicate CleanUpTo(sha: Sha, ps: Patterns, input: seq<Byte>, end: nat) {
    forall off: nat, len: nat :: off + len <= end ==> !Occurs(sha, ps, input, off, len)
  }

  ghost predicate Clean(sha: Sha, ps: Patterns, input: seq<Byte>) {
    CleanUpTo(sha, ps, input, |input|)
  }

  /** `end` is the least index at which a matching window ends (exclusive). */
  ghost predicate LeastEnd(sha: Sha, ps: Patterns, input: seq<Byte>, end: nat) {
    && 0 < end <= |input|
    && CleanUpTo(sha, ps, input, end - 1)
    && exists off: nat, len: nat :: off + len == end && Occurs(sha, ps, input, off, len)
  }

  // ---- Target tables -------------------------------------------------------

  type Targets = map<U64, seq<Digest>>
  type ByLen = map<nat, Targets>

  predicate Holds(t: Targets, fp: U64, d: Digest) {
    fp in t && d in t[fp]
  }

  predicate HoldsLen(m: ByLen, len: nat, fp: U64, d: Digest) {
    len in m && Holds(m[len], fp, d)
  }

  /** The table lists exactly the patterns of an accepted length. */
  ghost predicate Indexes(m: ByLen, ps: Patterns, lo: nat, hi: nat) {
    && (forall len: nat, fp: U64, d: Digest :: HoldsLen(m, len, fp, d) <==> SecretFingerprint(len, fp, d) in ps && lo <= len <= hi)
    && (forall len :: len in m ==> lo <= len <= hi)
  }

  /** `entry(len).or_default().entry(fp64).or_default().push(sha256)`. */
  function Push(m: ByLen, p: SecretFingerprint): ByLen {
    var t: Targets := if p.len in m then m[p.len] else map[];
    var ds := if p.fp64 in t then t[p.fp64] else [];
    m[p.len := t[p.fp64 := ds + [p.sha256]]]
  }

  lemma PushAddsOne(m: ByLen, p: SecretFingerprint, len: nat, fp: U64, d: Digest)
    ensures HoldsLen(Push(m, p), len, fp, d) <==> HoldsLen(m, len, fp, d) || p == SecretFingerprint(len, fp, d)
  {
  }

  /** Group the patterns of length `lo` to `hi` by length and fingerprint. */
  method IndexPatterns(ps: Patterns, lo: nat, hi: nat) returns (m: ByLen)
    ensures Indexes(m, ps, lo, hi)
  {
    m := map[];
    for i := 0 to |ps|
      invariant Indexes(m, ps[..i], lo, hi)
    {
      ghost var m0 := m;
      if lo <= ps[i].len <= hi {
        m := Push(m, ps[i]);
        forall len: nat, fp: U64, d: Digest ensures HoldsLen(m, len, fp, d) <==> HoldsLen(m0, len, fp, d) || ps[i] == SecretFingerprint(len, fp, d) {
          PushAddsOne(m0, ps[i], len, fp, d);
        }
      }
      assert ps[..i + 1] == ps[..i] + [ps[i]];
    }
    assert ps[..|ps|] == ps;
  }

  // ---- Bytes ---------------------------------------------------------------

  /** No false negatives, under no assumption on the hashes: a fingerprinted secret in the input occurs. */
  lemma SecretAlwaysOccurs(sha: Sha, ps: Patterns, input: seq<Byte>, secret: seq<Byte>, off: nat)
    requires secret != [] && Print(sha, secret) in ps
    requires off + |secret| <= |input| && input[off..off + |secret|] == secret
    ensures Occurs(sha, ps, input, off, |secret|)
    ensures !Clean(sha, ps, input)
  {
    assert Occurs(sha, ps, input, off, |secret|);
  }

  function Window(input: seq<Byte>, off: nat, len: nat): seq<Byte>
    requires off + len <= |input|
  {
    input[off..off + len]
  }

  /** No window of the input has the digest of a secret of its length without being that secret. */
  ghost predicate CollisionFree(sha: Sha, secrets: seq<seq<Byte>>, input: seq<Byte>) {
    forall off: nat, k :: 0 <= k < |secrets| && off + |secrets[k]| <= |input| && sha(Window(input, off, |secrets[k]|)) == sha(secrets[k]) ==>
      Window(input, off, |secrets[k]|) == secrets[k]
  }

  /** The patterns are the fingerprints of the secrets. */
  ghost predicate Fingerprints(sha: Sha, ps: Patterns, secrets: seq<seq<Byte>>) {
    && (forall p :: p in ps ==> exists k :: 0 <= k < |secrets| && p == Print(sha, secrets[k]))
    && (forall k :: 0 <= k < |secrets| ==> Print(sha, secrets[k]) in ps)
  }

  /** No false positives and no false negatives, where no window collides with a secret: a window occurs exactly
      when it is a secret, byte for byte. */
  lemma OccurrenceIsSecret(sha: Sha, secrets: seq<seq<Byte>>, ps: Patterns, input: seq<Byte>, off: nat, len: nat)
    requires Fingerprints(sha, ps, secrets) && CollisionFree(sha, secrets, input) && 0 < len && off + len <= |input|
    ensures Occurs(sha, ps, input, off, len) <==> Window(input, off, len) in secrets
  {
    var w := Window(input, off, len);
    if Occurs(sha, ps, input, off, len) {
      var k :| 0 <= k < |secrets| && Print(sha, w) == Print(sha, secrets[k]);
      assert sha(w) == sha(secrets[k]) && len == |secrets[k]|;
      assert Window(input, off, |secrets[k]|) == secrets[k];
    }
    if w in secrets {
      var k :| 0 <= k < |secrets| && secrets[k] == w;
      assert Print(sha, secrets[k]) in ps;
    }
  }

  /** Appending bytes changes no window that was already complete. */
  lemma OccursPrefix(sha: Sha, ps: Patterns, input: seq<Byte>, more: seq<Byte>, off: nat, len: nat)
    requires off + len <= |input|
    ensures Occurs(sha, ps, input + more, off, len) == Occurs(sha, ps, input, off, len)
  {
    assert (input + more)[off..off + len] == input[off..off + len];
  }

  lemma CleanPrefix(sha: Sha, ps: Patterns, input: seq<Byte>, more: seq<Byte>, end: nat)
    requires end <= |input|
    ensures CleanUpTo(sha, ps, input + more, end) == CleanUpTo(sha, ps, input, end)
  {
    forall off: nat, len: nat | off + len <= end
      ensures Occurs(sha, ps, input + more, off, len) == Occurs(sha, ps, input, off, len)
    {
      OccursPrefix(sha, ps, input, more, off, len);
    }
  }

  /** The least end does not depend on how far the stream goes on, so it is the same for every chunking. */
  lemma LeastEndUnique(sha: Sha, ps: Patterns, input: seq<Byte>, more: seq<Byte>, e1: nat, e2: nat)
    requires LeastEnd(sha, ps, input, e1) && LeastEnd(sha, ps, input + more, e2)
    ensures e1 == e2
  {
    var o1: nat, l1: nat :| o1 + l1 == e1 && Occurs(sha, ps, input, o1, l1);
    OccursPrefix(sha, ps, input, more, o1, l1);
    CleanPrefix(sha, ps, input, more, e1 - 1);
  }
}
