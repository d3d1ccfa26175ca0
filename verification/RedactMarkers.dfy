/**
 What a marker says, read back: an independent reader of `[redacted:<8hex>+<8hex>...]` recovers the first four
 bytes of every distinct digest of the run, in order of first appearance.
 */
module RedactMarkers {
  import opened Lifecycle
  import opened Fingerprint
  import opened Redact

  // ---- The reader ----------------------------------------------------------

  /** The bytes of an ASCII text. */
  function Ascii(s: string): seq<Byte>
    requires forall i :: 0 <= i < |s| ==> s[i] as int < 128
  {
    seq(|s|, i requires 0 <= i < |s| => s[i] as int)
  }

  /** The value of a lowercase hexadecimal digit. */
  function DigitValue(b: Byte): Option<nat> {
    if '0' as int <= b <= '9' as int then Some(b - '0' as int)
    else if 'a' as int <= b <= 'f' as int then Some(10 + (b - 'a' as int))
    else None
  }

  /** Pairs of digits, the high one first. */
  function ReadHex(s: seq<Byte>): Option<seq<Byte>> {
    if s == [] then Some([])
    else if |s| == 1 || DigitValue(s[0]).None? || DigitValue(s[1]).None? then None
    else
      match ReadHex(s[2..])
      case None => None
      case Some(rest) => Some([16 * DigitValue(s[0]).value + DigitValue(s[1]).value] + rest)
  }

  /** The parts between the plus signs. */
  function Split(s: seq<Byte>): (parts: seq<seq<Byte>>)
    ensures parts != []
  {
    if s == [] then [[]]
    else
      var parts, last := Split(s[..|s| - 1]), s[|s| - 1];
      if last == '+' as int then parts + [[]]
      else parts[..|parts| - 1] + [parts[|parts| - 1] + [last]]
  }

  function ReadAll(parts: seq<seq<Byte>>): Option<seq<seq<Byte>>> {
    if parts == [] then Some([])
    else
      match (ReadAll(parts[..|parts| - 1]), ReadHex(parts[|parts| - 1]))
      case (Some(rest), Some(last)) => Some(rest + [last])
      case _ => None
  }

  /** Strip the frame, split at the plus signs and read each part. */
  function ReadMarker(m: seq<Byte>): Option<seq<seq<Byte>>> {
    var open := Ascii("[redacted:");
    if |m| > |open| && m[..|open|] == open && m[|m| - 1] == ']' as int
    then ReadAll(Split(m[|open|..|m| - 1]))
    else None
  }

  // ---- It reads what was written -------------------------------------------

  lemma DigitReads(n: nat)
    requires n < 16
    ensures DigitValue(HexDigit(n)) == Some(n) && HexDigit(n) != '+' as int
  {
  }

  lemma ReadPair(b: Byte, rest: seq<Byte>, bytes: seq<Byte>)
    requires ReadHex(rest) == Some(bytes)
    ensures ReadHex([HexDigit(b / 16), HexDigit(b % 16)] + rest) == Some([b] + bytes)
  {
    DigitReads(b / 16);
    DigitReads(b % 16);
    var s := [HexDigit(b / 16), HexDigit(b % 16)] + rest;
    assert s[2..] == rest;
  }

  /** Eight digits give back the digest's first four bytes. */
  lemma ReadHex8(d: Digest)
    ensures ReadHex(Hex8(d)) == Some(d[..4])
  {
    var p3 := [HexDigit(d[3] / 16), HexDigit(d[3] % 16)];
    var p2 := [HexDigit(d[2] / 16), HexDigit(d[2] % 16)];
    var p1 := [HexDigit(d[1] / 16), HexDigit(d[1] % 16)];
    var p0 := [HexDigit(d[0] / 16), HexDigit(d[0] % 16)];
    ReadPair(d[3], [], []);
    assert p3 + [] == p3 && [d[3]] + [] == [d[3]];
    ReadPair(d[2], p3, [d[3]]);
    ReadPair(d[1], p2 + p3, [d[2]] + [d[3]]);
    ReadPair(d[0], p1 + (p2 + p3), [d[1]] + ([d[2]] + [d[3]]));
    assert Hex8(d) == p0 + (p1 + (p2 + p3));
    assert d[..4] == [d[0]] + ([d[1]] + ([d[2]] + [d[3]]));
  }

  ghost predicate NoPlus(s: seq<Byte>) {
    forall i :: 0 <= i < |s| ==> s[i] != '+' as int
  }

  lemma Hex8NoPlus(d: Digest)
    ensures NoPlus(Hex8(d))
  {
    forall n: nat | n < 16 ensures HexDigit(n) != '+' as int { DigitReads(n); }
  }

  lemma {:induction false} SplitAppend(s: seq<Byte>, b: seq<Byte>)
    requires NoPlus(b)
    ensures var parts := Split(s); Split(s + b) == parts[..|parts| - 1] + [parts[|parts| - 1] + b]
    decreases |b|
  {
    var parts := Split(s);
    if b == [] {
      assert s + b == s && parts[|parts| - 1] + b == parts[|parts| - 1];
    } else {
      var init, last := b[..|b| - 1], b[|b| - 1];
      SplitAppend(s, init);
      assert (s + b)[..|s + b| - 1] == s + init && (s + b)[|s + b| - 1] == last;
      assert parts[|parts| - 1] + init + [last] == parts[|parts| - 1] + b;
    }
  }

  lemma SplitPlus(s: seq<Byte>)
    ensures Split(s + PLUS) == Split(s) + [[]]
  {
    assert (s + PLUS)[..|s|] == s && (s + PLUS)[|s|] == '+' as int;
  }

  ghost function HexParts(ds: seq<Digest>): seq<seq<Byte>> {
    seq(|ds|, i requires 0 <= i < |ds| => Hex8(ds[i]))
  }

  lemma {:induction false} SplitJoined(ds: seq<Digest>)
    requires ds != []
    ensures Split(JoinHex(ds)) == HexParts(ds)
  {
    var init, d := ds[..|ds| - 1], ds[|ds| - 1];
    Hex8NoPlus(d);
    if |ds| == 1 {
      SplitAppend([], Hex8(d));
      assert [] + Hex8(d) == Hex8(d);
      assert HexParts(ds) == [Hex8(d)];
    } else {
      SplitJoined(init);
      SplitPlus(JoinHex(init));
      SplitAppend(JoinHex(init) + PLUS, Hex8(d));
      assert [] + Hex8(d) == Hex8(d);
      assert HexParts(ds) == HexParts(init) + [Hex8(d)];
    }
  }

  /** The first four bytes of each digest. */
  ghost function Heads(ds: seq<Digest>): seq<seq<Byte>> {
    seq(|ds|, i requires 0 <= i < |ds| => ds[i][..4])
  }

  lemma {:induction false} ReadParts(ds: seq<Digest>)
    ensures ReadAll(HexParts(ds)) == Some(Heads(ds))
  {
    if ds == [] {
      assert HexParts(ds) == [] && Heads(ds) == [];
    } else {
      var init, d := ds[..|ds| - 1], ds[|ds| - 1];
      ReadParts(init);
      ReadHex8(d);
      assert HexParts(ds)[..|ds| - 1] == HexParts(init) && HexParts(ds)[|ds| - 1] == Hex8(d);
      assert Heads(ds) == Heads(init) + [d[..4]];
    }
  }

  lemma FrameStripped(body: seq<Byte>)
    ensures var m := OPEN + body + CLOSE; var open := Ascii("[redacted:");
      |m| > |open| && m[..|open|] == open && m[|m| - 1] == ']' as int && m[|open|..|m| - 1] == body
  {
    assert OPEN == Ascii("[redacted:");
  }

  /** Reading a run's marker gives the first four bytes of each of its digests, once each. */
  lemma MarkerReadsBack(r: Run)
    requires r.spans != []
    ensures ReadMarker(Marker(r)) == Some(Heads(FirstSeen(r.spans)))
  {
    var ds := FirstSeen(r.spans);
    assert r.spans[0].sha256 in ds;
    FrameStripped(JoinHex(ds));
    SplitJoined(ds);
    ReadParts(ds);
  }

  // ---- In order of first appearance ----------------------------------------

  /** `k` is where digest `d` first appears. */
  ghost predicate FirstAt(spans: seq<Span>, d: Digest, k: nat) {
    k < |spans| && spans[k].sha256 == d && forall j :: 0 <= j < k ==> spans[j].sha256 != d
  }

  /** The digests come in the order in which the run's hits first show them. */
  lemma {:induction false} SeenInOrder(spans: seq<Span>, i: nat, j: nat, a: nat, b: nat)
    requires i < j < |FirstSeen(spans)| && FirstAt(spans, FirstSeen(spans)[i], a) && FirstAt(spans, FirstSeen(spans)[j], b)
    ensures a < b
  {
    var init := spans[..|spans| - 1];
    var ds, all := FirstSeen(init), FirstSeen(spans);
    assert spans == init + [spans[|spans| - 1]];
    if j < |ds| {
      SeenBefore(init, ds[i]);
      SeenBefore(init, ds[j]);
      assert a < |init| && b < |init|;
      assert FirstAt(init, ds[i], a) && FirstAt(init, ds[j], b);
      SeenInOrder(init, i, j, a, b);
    } else {
      SeenBefore(init, ds[i]);
      assert all[j] !in ds;
      assert forall k :: 0 <= k < |init| ==> init[k].sha256 in ds;
    }
  }

  lemma SeenBefore(spans: seq<Span>, d: Digest)
    requires d in FirstSeen(spans)
    ensures exists k :: 0 <= k < |spans| && spans[k].sha256 == d
  {
  }
}
