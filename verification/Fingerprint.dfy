/**
 The hash algebra of leak-scan/src/fingerprint.rs: a 64-bit wrapping Rabin
 polynomial and its one-byte roll. SHA-256 is any function `sha`.
 */
module Fingerprint {
  import opened Lifecycle

  type Byte = b: nat | b < 256

  const WORD: nat := 0x1_0000_0000_0000_0000

  type U64 = x: nat | x < WORD

  type Digest = d: seq<Byte> | |d| == 32 witness seq(32, i => 0)

  const RABIN_BASE: nat := 257
  const MIN_SECRET_LEN: nat := 8
  const MAX_SECRET_LEN: nat := 16 * 1024

  datatype SecretFingerprint = SecretFingerprint(len: nat, fp64: U64, sha256: Digest)

  // ---- The polynomial, unbounded -------------------------------------------

  function Power(k: nat): nat {
    if k == 0 then 1 else RABIN_BASE * Power(k - 1)
  }

  /** The sum of `s[k] * RABIN_BASE^(|s|-1-k)`. */
  function PolySum(s: seq<Byte>): nat {
    if s == [] then 0 else s[0] * Power(|s| - 1) + PolySum(s[1..])
  }

  /** The fingerprint of a window: its polynomial, modulo 2^64. */
  function Fp64(s: seq<Byte>): U64 {
    PolySum(s) % WORD
  }

  function Weight(len: nat): U64 {
    Power(if len == 0 then 0 else len - 1) % WORD
  }

  /** Appending a byte is one Horner step. */
  lemma {:induction false} PolySnoc(s: seq<Byte>, b: Byte)
    ensures PolySum(s + [b]) == PolySum(s) * RABIN_BASE + b
  {
    if s == [] {
      assert s + [b] == [b] && [b][1..] == [];
    } else {
      assert (s + [b])[1..] == s[1..] + [b];
      PolySnoc(s[1..], b);
      assert Power(|s|) == RABIN_BASE * Power(|s| - 1);
      assert s[0] * (RABIN_BASE * Power(|s| - 1)) == (s[0] * Power(|s| - 1)) * RABIN_BASE;
    }
  }

  // ---- Wrapping arithmetic -------------------------------------------------

  function WrappingAdd(x: U64, y: U64): U64 { (x + y) % WORD }

  function WrappingSub(x: U64, y: U64): U64 { (x - y) % WORD }

  function WrappingMul(x: U64, y: U64): U64 { (x * y) % WORD }

  lemma ModShift(x: int, k: int)
    ensures (x + k * WORD) % WORD == x % WORD
  {
  }

  lemma ModMul(x: int, y: int)
    ensures ((x % WORD) * y) % WORD == (x * y) % WORD
  {
    var q := x / WORD;
    assert x == q * WORD + x % WORD;
    assert x * y == (x % WORD) * y + (q * y) * WORD;
    ModShift((x % WORD) * y, q * y);
  }

  lemma ModAdd(x: int, y: int)
    ensures (x % WORD + y) % WORD == (x + y) % WORD
  {
    ModShift(x % WORD + y, x / WORD);
  }

  /** The Horner step on wrapped values is the wrapped Horner step. */
  lemma WrappingHorner(x: int, b: Byte)
    ensures WrappingAdd(WrappingMul(x % WORD, RABIN_BASE), b) == (x * RABIN_BASE + b) % WORD
  {
    ModMul(x, RABIN_BASE);
    ModAdd(x * RABIN_BASE, b);
  }

  /** Rolling the window of a wrapped hash by one byte: drop `out`, append `b`. */
  function Roll(cur: U64, out: Byte, pow: U64, b: Byte): U64 {
    WrappingAdd(WrappingMul(WrappingSub(cur, WrappingMul(out, pow)), RABIN_BASE), b)
  }

  /** The rolled hash is the hash of the shifted window. */
  lemma RollCorrect(s: seq<Byte>, b: Byte)
    requires |s| > 0
    ensures Roll(Fp64(s), s[0], Weight(|s|), b) == Fp64(s[1..] + [b])
  {
    var tail := PolySum(s[1..]);
    var lead := s[0] * Power(|s| - 1);
    ModMul(Power(|s| - 1), s[0]);
    assert s[0] * Weight(|s|) == Weight(|s|) * s[0];
    assert WrappingMul(s[0], Weight(|s|)) == lead % WORD;
    SubWraps(lead + tail, lead);
    assert WrappingSub(Fp64(s), lead % WORD) == tail % WORD;
    WrappingHorner(tail, b);
    PolySnoc(s[1..], b);
  }

  lemma SubWraps(x: int, y: int)
    ensures (x % WORD - y % WORD) % WORD == (x - y) % WORD
  {
    ModShift(x % WORD - y % WORD, x / WORD - y / WORD);
  }

  // ---- The loops -----------------------------------------------------------

  method Poly(bytes: seq<Byte>) returns (h: U64)
    ensures h == Fp64(bytes)
  {
    h := 0;
    for i := 0 to |bytes|
      invariant h == Fp64(bytes[..i])
    {
      PolySnoc(bytes[..i], bytes[i]);
      assert bytes[..i + 1] == bytes[..i] + [bytes[i]];
      WrappingHorner(PolySum(bytes[..i]), bytes[i]);
      h := WrappingAdd(WrappingMul(h, RABIN_BASE), bytes[i]);
    }
    assert bytes[..|bytes|] == bytes;
  }

  method PowBase(len: nat) returns (p: U64)
    ensures p == Weight(len)
  {
    p := 1;
    var n := if len == 0 then 0 else len - 1;
    for i := 0 to n
      invariant p == Power(i) % WORD
    {
      ModMul(Power(i), RABIN_BASE);
      p := WrappingMul(p, RABIN_BASE);
    }
  }

  /** The fingerprint any value of this content has. */
  function Print(sha: seq<Byte> -> Digest, value: seq<Byte>): SecretFingerprint {
    SecretFingerprint(|value|, Fp64(value), sha(value))
  }

  method FingerprintValue(sha: seq<Byte> -> Digest, value: seq<Byte>) returns (r: Option<SecretFingerprint>)
    ensures r == if MIN_SECRET_LEN <= |value| <= MAX_SECRET_LEN then Some(Print(sha, value)) else None
  {
    if |value| < MIN_SECRET_LEN || |value| > MAX_SECRET_LEN { return None; }
    var fp := Poly(value);
    r := Some(SecretFingerprint(|value|, fp, sha(value)));
  }
}
