/**
 The keyword classifier of core/src/classification_inference.rs: a non-overlapping substring scan per
 phrase, and a tiered verdict. Text is a sequence of characters; only ASCII letters and digits bound a word.
 */
module Classifier {
  import opened Lifecycle

  // ---- Characters and matches ----------------------------------------------

  predicate Alphanumeric(c: char) {
    'a' <= c <= 'z' || 'A' <= c <= 'Z' || '0' <= c <= '9'
  }

  function LowerChar(c: char): char {
    if 'A' <= c <= 'Z' then c - 'A' + 'a' else c
  }

  /** `to_ascii_lowercase`. */
  function Lower(s: string): (r: string)
    ensures |r| == |s| && forall i :: 0 <= i < |s| ==> r[i] == LowerChar(s[i])
  {
    seq(|s|, i requires 0 <= i < |s| => LowerChar(s[i]))
  }

  predicate MatchAt(h: string, n: string, i: nat) {
    i + |n| <= |h| && h[i..i + |n|] == n
  }

  predicate Contains(h: string, n: string) {
    exists i: nat :: i <= |h| && MatchAt(h, n, i)
  }

  /** Neither neighbour of the `len` characters at `i` is a letter or digit. */
  predicate Bounded(h: string, i: nat, len: nat)
    requires i + len <= |h|
  {
    && (i == 0 || !Alphanumeric(h[i - 1]))
    && (i + len == |h| || !Alphanumeric(h[i + len]))
  }

  /** `n` occurs in `h` as a whole word. */
  predicate WholeWord(h: string, n: string) {
    n != "" && exists i: nat :: i <= |h| && MatchAt(h, n, i) && Bounded(h, i, |n|)
  }

  // ---- The scan ------------------------------------------------------------

  /** The first match at or after `from`. */
  function NextMatch(h: string, n: string, from: nat): (r: Option<nat>)
    ensures r.Some? ==> from <= r.value && MatchAt(h, n, r.value) && forall i: nat :: from <= i < r.value ==> !MatchAt(h, n, i)
    ensures r.None? ==> forall i: nat :: from <= i ==> !MatchAt(h, n, i)
    decreases |h| - from
  {
    if from + |n| > |h| then None
    else if MatchAt(h, n, from) then Some(from)
    else NextMatch(h, n, from + 1)
  }

  /** Some match of the non-overlapping scan from `from` is bounded. */
  predicate ScanFinds(h: string, n: string, from: nat)
    requires n != ""
    decreases |h| - from
  {
    match NextMatch(h, n, from)
    case None => false
    case Some(i) => Bounded(h, i, |n|) || ScanFinds(h, n, i + |n|)
  }

  /** `n` shifted by `p` overlaps itself, behind a character that does not continue a word. */
  predicate BadOverlap(n: string, p: nat) {
    0 < p < |n| && n[p..] == n[..|n| - p] && !Alphanumeric(n[p - 1])
  }

  predicate Scannable(n: string) {
    forall p: nat :: p < |n| ==> !BadOverlap(n, p)
  }

  predicate AllAlphanumeric(n: string) {
    forall i :: 0 <= i < |n| ==> Alphanumeric(n[i])
  }

  /** Every bounded match is visited, or overlaps an earlier one. */
  lemma Overlap(h: string, n: string, i: nat, j: nat)
    requires n != "" && MatchAt(h, n, i) && MatchAt(h, n, j) && i < j < i + |n| && Bounded(h, j, |n|)
    ensures BadOverlap(n, j - i)
  {
    var p := j - i;
    assert forall k :: 0 <= k < |n| ==> h[i + k] == h[i..i + |n|][k] == n[k];
    assert forall k :: 0 <= k < |n| ==> h[j + k] == h[j..j + |n|][k] == n[k];
    forall k | 0 <= k < |n| - p ensures n[p..][k] == n[..|n| - p][k] {
      assert h[i + (p + k)] == h[j + k];
    }
    assert h[j - 1] == h[i + (p - 1)];
  }

  lemma {:induction false} ScanSound(h: string, n: string, from: nat)
    requires n != "" && ScanFinds(h, n, from)
    ensures WholeWord(h, n)
    decreases |h| - from
  {
    var i := NextMatch(h, n, from).value;
    if !Bounded(h, i, |n|) { ScanSound(h, n, i + |n|); }
  }

  lemma {:induction false} ScanComplete(h: string, n: string, from: nat, j: nat)
    requires n != "" && Scannable(n) && from <= j && MatchAt(h, n, j) && Bounded(h, j, |n|)
    ensures ScanFinds(h, n, from)
    decreases |h| - from
  {
    NextNotPast(h, n, from, j);
    var i := NextMatch(h, n, from).value;
    if i < j {
      NotInside(h, n, i, j);
      ScanComplete(h, n, i + |n|, j);
    }
    ScanStep(h, n, from);
  }

  lemma NextNotPast(h: string, n: string, from: nat, j: nat)
    requires from <= j && MatchAt(h, n, j)
    ensures NextMatch(h, n, from).Some? && from <= NextMatch(h, n, from).value <= j && MatchAt(h, n, NextMatch(h, n, from).value)
  {
  }

  /** A bounded match does not start inside an earlier one of a scannable phrase. */
  lemma NotInside(h: string, n: string, i: nat, j: nat)
    requires n != "" && Scannable(n) && MatchAt(h, n, i) && MatchAt(h, n, j) && i < j && Bounded(h, j, |n|)
    ensures i + |n| <= j
  {
    if j < i + |n| {
      Overlap(h, n, i, j);
      assert false;
    }
  }

  /** The haystack that fools the scan when `n` overlaps itself badly at `p`. */
  function Decoy(n: string, p: nat): string
    requires p < |n|
  {
    [if n[0] == 'x' then 'y' else 'x'] + n[..p] + n
  }

  lemma DecoyChars(n: string, p: nat)
    requires BadOverlap(n, p)
    ensures |Decoy(n, p)| == 1 + p + |n| && Decoy(n, p)[0] != n[0] && Alphanumeric(Decoy(n, p)[0])
    ensures forall k :: 0 <= k < |n| ==> Decoy(n, p)[1 + p + k] == n[k]
    ensures forall k :: 0 <= k < |n| ==> Decoy(n, p)[1 + k] == n[k]
  {
    var h := Decoy(n, p);
    forall k | 0 <= k < |n| ensures h[1 + k] == n[k] {
      if k >= p {
        assert n[p..][k - p] == n[..|n| - p][k - p];
        assert h[1 + k] == n[k - p];
      }
    }
  }

  lemma MatchByChars(h: string, n: string, i: nat)
    requires i + |n| <= |h| && forall k :: 0 <= k < |n| ==> h[i + k] == n[k]
    ensures MatchAt(h, n, i)
  {
  }

  lemma DecoyMatches(n: string, p: nat)
    requires BadOverlap(n, p)
    ensures !MatchAt(Decoy(n, p), n, 0) && MatchAt(Decoy(n, p), n, 1) && MatchAt(Decoy(n, p), n, 1 + p)
    ensures Bounded(Decoy(n, p), 1 + p, |n|) && !Bounded(Decoy(n, p), 1, |n|)
  {
    var h := Decoy(n, p);
    DecoyChars(n, p);
    assert h[0..|n|][0] == h[0];
    assert h[p] == h[1 + (p - 1)] == n[p - 1];
    MatchByChars(h, n, 1);
    MatchByChars(h, n, 1 + p);
  }

  lemma DecoyFools(n: string, p: nat)
    requires BadOverlap(n, p)
    ensures WholeWord(Decoy(n, p), n) && !ScanFinds(Decoy(n, p), n, 0)
  {
    var h := Decoy(n, p);
    DecoyMatches(n, p);
    assert NextMatch(h, n, 0) == Some(1);
    assert NextMatch(h, n, 1 + |n|) == None;
  }

  /** The scan equals the whole-word definition on every text exactly when the phrase has no bad overlap. */
  lemma ScanExactIff(n: string)
    requires n != ""
    ensures (forall h :: ScanFinds(h, n, 0) <==> WholeWord(h, n)) <==> Scannable(n)
  {
    if Scannable(n) {
      forall h ensures ScanFinds(h, n, 0) <==> WholeWord(h, n) { ScanIsWholeWord(h, n); }
    } else {
      var p: nat :| p < |n| && BadOverlap(n, p);
      DecoyFools(n, p);
    }
  }

  lemma ScanIsWholeWord(h: string, n: string)
    requires n != "" && Scannable(n)
    ensures ScanFinds(h, n, 0) <==> WholeWord(h, n)
  {
    if ScanFinds(h, n, 0) { ScanSound(h, n, 0); }
    if WholeWord(h, n) {
      var j: nat :| j <= |h| && MatchAt(h, n, j) && Bounded(h, j, |n|);
      ScanComplete(h, n, 0, j);
    }
  }

  lemma AlphanumericScannable(n: string)
    requires AllAlphanumeric(n)
    ensures Scannable(n)
  {
  }

  /** A phrase for which the code and its doc comment part: the scan misses the whole word. */
  lemma ScanMissesWord()
    ensures WholeWord("xa a a", "a a") && !ScanFinds("xa a a", "a a", 0)
  {
    assert "a a"[2..] == "a" == "a a"[..3 - 2];
    assert BadOverlap("a a", 2);
    DecoyFools("a a", 2);
    assert Decoy("a a", 2) == "xa a a";
  }

  // ---- The catalogues ------------------------------------------------------

  datatype DataClass = Public | Personal | ClinicalConfidential | Secret

  function Rank(c: DataClass): nat {
    match c
    case Public => 0
    case Personal => 1
    case ClinicalConfidential => 2
    case Secret => 3
  }

  datatype Pattern = Pattern(phrase: string, tag: string, word: bool)

  datatype InferredFloor = InferredFloor(level: DataClass, signals: seq<string>)

  const SECRET_PATTERNS: seq<Pattern> := [
    Pattern("password", "password", true),
    Pattern("secret", "secret", true),
    Pattern("credential", "credential", true),
    Pattern("credentials", "credential", true),
    Pattern("api key", "api_key", false),
    Pattern("private key", "private_key", false),
    Pattern("bearer token", "bearer_token", false),
    Pattern("access token", "access_token", false),
    Pattern("certificate", "certificate", true)
  ]

  const CLINICAL_PATTERNS: seq<Pattern> := [
    Pattern("patient", "patient", true),
    Pattern("diagnosis", "diagnosis", true),
    Pattern("pathology", "pathology", true),
    Pattern("radiology", "radiology", true),
    Pattern("histology", "histology", true),
    Pattern("biopsy", "biopsy", true),
    Pattern("mri", "mri", true),
    Pattern("ct scan", "ct_scan", false),
    Pattern("x-ray", "xray", false),
    Pattern("xray", "xray", true),
    Pattern("ecg", "ecg", true),
    Pattern("ekg", "ecg", true),
    Pattern("medication", "medication", true),
    Pattern("prescription", "prescription", true),
    Pattern("dosage", "dosage", true),
    Pattern("discharge summary", "discharge_summary", false),
    Pattern("medical record", "medical_record", false),
    Pattern("clinical", "clinical", true),
    Pattern("hl7", "hl7", true),
    Pattern("dicom", "dicom", true),
    Pattern("icd-10", "icd_10", false),
    Pattern("snomed", "snomed", true)
  ]

  const PERSONAL_PATTERNS: seq<Pattern> := [
    Pattern("my email", "my_email", false),
    Pattern("my address", "my_address", false),
    Pattern("my phone", "my_phone", false),
    Pattern("my calendar", "my_calendar", false),
    Pattern("family member", "family_member", false),
    Pattern("personal calendar", "personal_calendar", false),
    Pattern("private contact", "private_contact", false)
  ]

  const TIERS: seq<(DataClass, seq<Pattern>)> := [
    (Secret, SECRET_PATTERNS),
    (ClinicalConfidential, CLINICAL_PATTERNS),
    (Personal, PERSONAL_PATTERNS)
  ]

  /** A phrase starts with a letter or digit, and a whole-word one has nothing else. */
  predicate PhraseOk(p: Pattern) {
    p.phrase != "" && Alphanumeric(p.phrase[0]) && (p.word ==> AllAlphanumeric(p.phrase))
  }

  ghost predicate CatalogueOk(c: seq<Pattern>) {
    forall i :: 0 <= i < |c| ==> PhraseOk(c[i])
  }

  lemma SecretOk()
    ensures CatalogueOk(SECRET_PATTERNS)
  {
    SecretFirstOk();
    SecretRestOk();
  }

  lemma SecretFirstOk()
    ensures forall i :: 0 <= i < 4 ==> PhraseOk(SECRET_PATTERNS[i])
  {
  }

  lemma SecretRestOk()
    ensures forall i :: 4 <= i < |SECRET_PATTERNS| ==> PhraseOk(SECRET_PATTERNS[i])
  {
  }

  lemma ClinicalOk()
    ensures CatalogueOk(CLINICAL_PATTERNS)
  {
    ClinicalFirstOk();
    ClinicalRestOk();
  }

  lemma ClinicalFirstOk()
    ensures forall i :: 0 <= i < 11 ==> PhraseOk(CLINICAL_PATTERNS[i])
  {
  }

  lemma ClinicalRestOk()
    ensures forall i :: 11 <= i < |CLINICAL_PATTERNS| ==> PhraseOk(CLINICAL_PATTERNS[i])
  {
  }

  lemma PersonalOk()
    ensures CatalogueOk(PERSONAL_PATTERNS)
  {
  }

  /** So the scan is exact on every whole-word phrase of the catalogues. */
  lemma PhraseScannable(p: Pattern)
    requires PhraseOk(p) && p.word
    ensures Scannable(Lower(p.phrase))
  {
    AlphanumericScannable(Lower(p.phrase));
  }

  // ---- What the classifier means -------------------------------------------

  /** The pattern is in the text: as a whole word, or anywhere for a phrase. */
  predicate Fires(text: string, p: Pattern) {
    if p.word then WholeWord(Lower(text), Lower(p.phrase)) else Contains(Lower(text), Lower(p.phrase))
  }

  /** The tags of the first `n` patterns that fire, in catalogue order, each once. */
  function Signals(text: string, c: seq<Pattern>, n: nat): seq<string>
    requires n <= |c|
  {
    if n == 0 then []
    else
      var out := Signals(text, c, n - 1);
      if Fires(text, c[n - 1]) && c[n - 1].tag !in out then out + [c[n - 1].tag] else out
  }

  lemma {:induction false} SignalsExact(text: string, c: seq<Pattern>, n: nat, tag: string)
    requires n <= |c|
    ensures tag in Signals(text, c, n) <==> exists i :: 0 <= i < n && c[i].tag == tag && Fires(text, c[i])
  {
    if n > 0 { SignalsExact(text, c, n - 1, tag); }
  }

  predicate TierFires(text: string, c: seq<Pattern>) {
    exists i :: 0 <= i < |c| && Fires(text, c[i])
  }

  type Tier = (DataClass, seq<Pattern>)

  /** The first tier with a pattern in the text gives the class, and all its signals. */
  function FloorIn(text: string, tiers: seq<Tier>): InferredFloor {
    if tiers == [] then InferredFloor(Public, [])
    else if TierFires(text, tiers[0].1) then InferredFloor(tiers[0].0, Signals(text, tiers[0].1, |tiers[0].1|))
    else FloorIn(text, tiers[1..])
  }

  function ClassOf(text: string): DataClass {
    FloorIn(text, TIERS).level
  }

  /** Tiers come in falling order of sensitivity, all above Public. */
  ghost predicate Falling(tiers: seq<Tier>) {
    && (forall i :: 0 <= i < |tiers| ==> tiers[i].0 != Public)
    && forall i, j :: 0 <= i < j < |tiers| ==> Rank(tiers[i].0) > Rank(tiers[j].0)
  }

  ghost predicate TiersOk(tiers: seq<Tier>) {
    forall i :: 0 <= i < |tiers| ==> CatalogueOk(tiers[i].1)
  }

  lemma TiersAreOk()
    ensures TiersOk(TIERS) && Falling(TIERS)
  {
    SecretOk();
    ClinicalOk();
    PersonalOk();
  }

  /** The class is the most sensitive of the tiers that fire, and Public exactly when none does. */
  lemma {:induction false} FloorIsHighest(text: string, tiers: seq<Tier>)
    requires Falling(tiers)
    ensures forall i :: 0 <= i < |tiers| && TierFires(text, tiers[i].1) ==> Rank(FloorIn(text, tiers).level) >= Rank(tiers[i].0)
    ensures FloorIn(text, tiers).level != Public ==>
      exists i :: 0 <= i < |tiers| && TierFires(text, tiers[i].1) && FloorIn(text, tiers).level == tiers[i].0
  {
    if tiers != [] && !TierFires(text, tiers[0].1) {
      FloorIsHighest(text, tiers[1..]);
      assert forall i :: 1 <= i < |tiers| ==> tiers[i] == tiers[1..][i - 1];
    }
  }

  lemma SignalsEmptyIff(text: string, c: seq<Pattern>)
    ensures Signals(text, c, |c|) == [] <==> !TierFires(text, c)
  {
    var out := Signals(text, c, |c|);
    forall i | 0 <= i < |c| && Fires(text, c[i]) ensures c[i].tag in out { SignalsExact(text, c, |c|, c[i].tag); }
    if out != [] { SignalsExact(text, c, |c|, out[0]); }
  }

  // ---- The code ------------------------------------------------------------

  lemma ScanStep(h: string, n: string, from: nat)
    requires n != ""
    ensures ScanFinds(h, n, from) == match NextMatch(h, n, from) {
      case None => false
      case Some(i) => Bounded(h, i, |n|) || ScanFinds(h, n, i + |n|)
    }
  {
  }

  /** The loop over `match_indices`. */
  method ScanLoop(h: string, n: string) returns (hit: bool)
    requires n != ""
    ensures hit <==> ScanFinds(h, n, 0)
  {
    var pos := 0;
    while true
      invariant ScanFinds(h, n, 0) == ScanFinds(h, n, pos) && pos <= |h|
      decreases |h| - pos
    {
      ScanStep(h, n, pos);
      var next := NextMatch(h, n, pos);
      if next.None? { return false; }
      var i := next.value;
      if Bounded(h, i, |n|) { return true; }
      pos := i + |n|;
    }
  }

  /** `contains_word`. */
  method ContainsWord(haystack: string, needle: string) returns (hit: bool)
    ensures hit <==> needle != "" && ScanFinds(Lower(haystack), Lower(needle), 0)
    ensures Scannable(Lower(needle)) ==> (hit <==> WholeWord(Lower(haystack), Lower(needle)))
  {
    if needle == "" { return false; }
    hit := ScanLoop(Lower(haystack), Lower(needle));
    if Scannable(Lower(needle)) { ScanIsWholeWord(Lower(haystack), Lower(needle)); }
  }

  /** `match_catalogue`. */
  method MatchCatalogue(text: string, c: seq<Pattern>) returns (out: seq<string>)
    requires CatalogueOk(c)
    ensures out == Signals(text, c, |c|)
  {
    var lower := Lower(text);
    out := [];
    for k := 0 to |c|
      invariant out == Signals(text, c, k)
    {
      var hit: bool;
      assert PhraseOk(c[k]);
      if c[k].word {
        PhraseScannable(c[k]);
        hit := ContainsWord(text, c[k].phrase);
      } else {
        hit := Contains(lower, Lower(c[k].phrase));
      }
      if hit && c[k].tag !in out { out := out + [c[k].tag]; }
    }
  }

  /** Unicode White_Space. */
  predicate Whitespace(c: char) {
    '\t' <= c <= '\r' || c == ' ' || c in "\U{85}\U{A0}\U{1680}\U{2028}\U{2029}\U{202F}\U{205F}\U{3000}" || '\U{2000}' <= c <= '\U{200A}'
  }

  predicate Blank(text: string) {
    forall i :: 0 <= i < |text| ==> Whitespace(text[i])
  }

  lemma FloorSkips(text: string, tiers: seq<Tier>, k: nat)
    requires k < |tiers|
    ensures FloorIn(text, tiers[k..]) ==
      if TierFires(text, tiers[k].1) then InferredFloor(tiers[k].0, Signals(text, tiers[k].1, |tiers[k].1|)) else FloorIn(text, tiers[k + 1..])
  {
    assert tiers[k..][1..] == tiers[k + 1..];
  }

  /** The tiered scan: first tier with a signal wins. */
  method ScanTiers(text: string, tiers: seq<Tier>) returns (r: InferredFloor)
    requires TiersOk(tiers)
    ensures r == FloorIn(text, tiers)
  {
    assert tiers[0..] == tiers;
    for k := 0 to |tiers|
      invariant FloorIn(text, tiers) == FloorIn(text, tiers[k..])
    {
      assert CatalogueOk(tiers[k].1);
      FloorSkips(text, tiers, k);
      SignalsEmptyIff(text, tiers[k].1);
      var signals := MatchCatalogue(text, tiers[k].1);
      if signals != [] { return InferredFloor(tiers[k].0, signals); }
    }
    return InferredFloor(Public, []);
  }

  /** `infer_floor`. */
  method InferFloor(text: string) returns (r: InferredFloor)
    ensures r == FloorIn(text, TIERS)
  {
    TiersAreOk();
    if Blank(text) {
      BlankIsPublic(text, TIERS);
      return InferredFloor(Public, []);
    }
    r := ScanTiers(text, TIERS);
  }

  lemma {:induction false} BlankIsPublic(text: string, tiers: seq<Tier>)
    requires Blank(text) && TiersOk(tiers)
    ensures FloorIn(text, tiers) == InferredFloor(Public, [])
  {
    if tiers != [] {
      assert CatalogueOk(tiers[0].1);
      BlankFiresNothing(text, tiers[0].1);
      assert forall i :: 0 <= i < |tiers[1..]| ==> tiers[1..][i] == tiers[i + 1];
      BlankIsPublic(text, tiers[1..]);
    }
  }

  /** The fast path loses nothing: blank text fires no pattern. */
  lemma BlankFiresNothing(text: string, c: seq<Pattern>)
    requires Blank(text) && CatalogueOk(c)
    ensures !TierFires(text, c)
  {
    forall i | 0 <= i < |c| ensures !Fires(text, c[i]) {
      assert PhraseOk(c[i]);
      BlankHasNoPhrase(text, c[i].phrase);
    }
  }

  lemma BlankHasNoPhrase(text: string, phrase: string)
    requires Blank(text) && phrase != "" && Alphanumeric(phrase[0])
    ensures forall i: nat :: !MatchAt(Lower(text), Lower(phrase), i)
  {
    var h, n := Lower(text), Lower(phrase);
    forall i: nat ensures !MatchAt(h, n, i) {
      if i + |n| <= |h| {
        assert h[i..i + |n|][0] == h[i] == LowerChar(text[i]);
        assert Whitespace(text[i]);
      }
    }
  }

  // ---- Joining texts -------------------------------------------------------

  lemma LowerJoin(a: string, b: string)
    ensures Lower(a + " " + b) == Lower(a) + " " + Lower(b)
  {
  }

  lemma MatchInLeft(a: string, b: string, n: string, i: nat)
    requires MatchAt(a, n, i)
    ensures MatchAt(a + " " + b, n, i) && (Bounded(a, i, |n|) ==> Bounded(a + " " + b, i, |n|))
  {
    assert (a + " " + b)[i..i + |n|] == a[i..i + |n|];
  }

  lemma MatchInRight(a: string, b: string, n: string, i: nat)
    requires MatchAt(b, n, i)
    ensures MatchAt(a + " " + b, n, |a| + 1 + i) && (Bounded(b, i, |n|) ==> Bounded(a + " " + b, |a| + 1 + i, |n|))
  {
    assert (a + " " + b)[|a| + 1 + i..|a| + 1 + i + |n|] == b[i..i + |n|];
  }

  lemma FiresInJoin(a: string, b: string, p: Pattern)
    ensures Fires(a, p) || Fires(b, p) ==> Fires(a + " " + b, p)
  {
    var la, lb, n := Lower(a), Lower(b), Lower(p.phrase);
    LowerJoin(a, b);
    if Fires(a, p) {
      var i: nat :| i <= |la| && MatchAt(la, n, i) && (p.word ==> Bounded(la, i, |n|));
      MatchInLeft(la, lb, n, i);
    }
    if Fires(b, p) {
      var i: nat :| i <= |lb| && MatchAt(lb, n, i) && (p.word ==> Bounded(lb, i, |n|));
      MatchInRight(la, lb, n, i);
    }
  }

  lemma TierInJoin(a: string, b: string, c: seq<Pattern>)
    ensures TierFires(a, c) || TierFires(b, c) ==> TierFires(a + " " + b, c)
  {
    forall i | 0 <= i < |c| ensures Fires(a, c[i]) || Fires(b, c[i]) ==> Fires(a + " " + b, c[i]) {
      FiresInJoin(a, b, c[i]);
    }
  }

  lemma JoinNeverLowersIn(a: string, b: string, tiers: seq<Tier>)
    requires Falling(tiers)
    ensures Rank(FloorIn(a + " " + b, tiers).level) >= Rank(FloorIn(a, tiers).level)
    ensures Rank(FloorIn(a + " " + b, tiers).level) >= Rank(FloorIn(b, tiers).level)
  {
    FloorIsHighest(a, tiers);
    FloorIsHighest(b, tiers);
    FloorIsHighest(a + " " + b, tiers);
    forall i | 0 <= i < |tiers| && (TierFires(a, tiers[i].1) || TierFires(b, tiers[i].1)) ensures TierFires(a + " " + b, tiers[i].1) {
      TierInJoin(a, b, tiers[i].1);
    }
  }

  /** Joining two texts with a space never lowers the class either has alone. */
  lemma JoinNeverLowers(a: string, b: string)
    ensures Rank(ClassOf(a + " " + b)) >= Rank(ClassOf(a)) && Rank(ClassOf(a + " " + b)) >= Rank(ClassOf(b))
  {
    TiersAreOk();
    JoinNeverLowersIn(a, b, TIERS);
  }

  /** And within a tier it keeps every signal either text gave. */
  lemma JoinKeepsSignals(a: string, b: string, c: seq<Pattern>, tag: string)
    requires tag in Signals(a, c, |c|) || tag in Signals(b, c, |c|)
    ensures tag in Signals(a + " " + b, c, |c|)
  {
    SignalsExact(a, c, |c|, tag);
    SignalsExact(b, c, |c|, tag);
    SignalsExact(a + " " + b, c, |c|, tag);
    var i :| 0 <= i < |c| && c[i].tag == tag && (Fires(a, c[i]) || Fires(b, c[i]));
    FiresInJoin(a, b, c[i]);
  }

  /** A text of three letters that is itself no phrase fires nothing. */
  lemma ThreeLettersFireNothing(text: string, c: seq<Pattern>)
    requires |text| == 3 && forall i :: 0 <= i < |c| ==> |c[i].phrase| > 3 || (|c[i].phrase| == 3 && Lower(c[i].phrase) != Lower(text))
    ensures !TierFires(text, c)
  {
    forall i | 0 <= i < |c| ensures !Fires(text, c[i]) {
      var h, n := Lower(text), Lower(c[i].phrase);
      assert h[0..3] == h;
    }
  }

  /** No pattern of any tier is a three-letter text other than these four. */
  lemma ThreeLetterPhrases(text: string, tier: nat)
    requires |text| == 3 && tier < |TIERS| && Lower(text) !in ["mri", "ecg", "ekg", "hl7"]
    ensures forall i :: 0 <= i < |TIERS[tier].1| ==>
      |TIERS[tier].1[i].phrase| > 3 || (|TIERS[tier].1[i].phrase| == 3 && Lower(TIERS[tier].1[i].phrase) != Lower(text))
  {
    assert Lower("mri") == "mri" && Lower("ecg") == "ecg" && Lower("ekg") == "ekg" && Lower("hl7") == "hl7";
  }

  lemma {:induction false} NoTierFires(text: string, tiers: seq<Tier>)
    requires forall i :: 0 <= i < |tiers| ==> !TierFires(text, tiers[i].1)
    ensures FloorIn(text, tiers).level == Public
  {
    if tiers != [] {
      assert forall i :: 0 <= i < |tiers[1..]| ==> tiers[1..][i] == tiers[i + 1];
      NoTierFires(text, tiers[1..]);
    }
  }

  lemma ThreeLettersPublic(text: string)
    requires |text| == 3 && Lower(text) !in ["mri", "ecg", "ekg", "hl7"]
    ensures ClassOf(text) == Public
  {
    forall k | 0 <= k < |TIERS| ensures !TierFires(text, TIERS[k].1) {
      ThreeLetterPhrases(text, k);
      ThreeLettersFireNothing(text, TIERS[k].1);
    }
    NoTierFires(text, TIERS);
  }

  /** Joining can raise it: a phrase may straddle the seam. */
  lemma JoinCanRaise()
    ensures ClassOf("api") == Public && ClassOf("key") == Public && ClassOf("api" + " " + "key") == Secret
  {
    assert Lower("api")[0] == 'a' && Lower("key")[0] == 'k' && Lower("key")[1] == 'e' && Lower("key")[2] == 'y';
    ThreeLettersPublic("api");
    ThreeLettersPublic("key");
    var text := "api" + " " + "key";
    assert text == "api key" == SECRET_PATTERNS[4].phrase;
    assert MatchAt(Lower(text), Lower(text), 0);
    assert Fires(text, SECRET_PATTERNS[4]);
  }

  /** What bounds a word: anything but the ASCII codes of digits, capitals and small letters. */
  lemma WordCharacters(c: char)
    ensures Alphanumeric(c) <==> 48 <= c as int <= 57 || 65 <= c as int <= 90 || 97 <= c as int <= 122
  {
  }

  /** `h` is `before`, then `n`, then `after`. */
  ghost predicate Cut(h: string, before: string, n: string, after: string) {
    h == before + n + after
  }

  /** Neither piece has a letter or digit at the cut. */
  ghost predicate EdgesFree(before: string, after: string) {
    (before == "" || !Alphanumeric(before[|before| - 1])) && (after == "" || !Alphanumeric(after[0]))
  }

  /** A whole word stands between two pieces of text, neither of which has a letter or digit next to it. */
  lemma WholeWordIsCut(h: string, n: string)
    ensures WholeWord(h, n) <==> n != "" && exists before, after :: Cut(h, before, n, after) && EdgesFree(before, after)
  {
    if WholeWord(h, n) { WordIsCut(h, n); }
    if before, after :| n != "" && Cut(h, before, n, after) && EdgesFree(before, after) {
      CutIsWord(h, before, n, after);
    }
  }

  lemma WordIsCut(h: string, n: string)
    requires WholeWord(h, n)
    ensures exists before, after :: Cut(h, before, n, after) && EdgesFree(before, after)
  {
    var i: nat :| i <= |h| && MatchAt(h, n, i) && Bounded(h, i, |n|);
    CutAt(h, n, i);
    BoundedEdges(h, i, |n|);
  }

  lemma BoundedEdges(h: string, i: nat, len: nat)
    requires i + len <= |h|
    ensures Bounded(h, i, len) <==> EdgesFree(h[..i], h[i + len..])
  {
  }

  lemma CutIsWord(h: string, before: string, n: string, after: string)
    requires n != "" && Cut(h, before, n, after) && EdgesFree(before, after)
    ensures WholeWord(h, n)
  {
    CutMatches(h, before, n, after);
    assert Bounded(h, |before|, |n|);
  }

  lemma ContainsIsCut(h: string, n: string)
    ensures Contains(h, n) <==> exists before, after :: Cut(h, before, n, after)
  {
    if Contains(h, n) {
      var i: nat :| i <= |h| && MatchAt(h, n, i);
      CutAt(h, n, i);
    }
    if before, after :| Cut(h, before, n, after) {
      CutMatches(h, before, n, after);
    }
  }

  lemma CutAt(h: string, n: string, i: nat)
    requires MatchAt(h, n, i)
    ensures Cut(h, h[..i], n, h[i + |n|..])
  {
  }

  lemma CutMatches(h: string, before: string, n: string, after: string)
    requires Cut(h, before, n, after)
    ensures MatchAt(h, n, |before|)
    ensures before != "" ==> h[|before| - 1] == before[|before| - 1]
    ensures after != "" ==> h[|before| + |n|] == after[0]
    ensures after == "" ==> |before| + |n| == |h|
  {
  }

  // ---- Case ----------------------------------------------------------------

  /** The same character, or the two cases of one ASCII letter. */
  predicate SameLetter(a: char, b: char) {
    || a == b
    || ('a' <= a <= 'z' && b as int == a as int - 'a' as int + 'A' as int)
    || ('a' <= b <= 'z' && a as int == b as int - 'a' as int + 'A' as int)
  }

  ghost predicate SameButForCase(a: string, b: string) {
    |a| == |b| && forall i :: 0 <= i < |a| ==> SameLetter(a[i], b[i])
  }

  lemma LowerIgnoresCase(a: string, b: string)
    ensures SameButForCase(a, b) <==> Lower(a) == Lower(b)
  {
    if SameButForCase(a, b) {
      forall i | 0 <= i < |a| ensures LowerChar(a[i]) == LowerChar(b[i]) { assert SameLetter(a[i], b[i]); }
    }
    if Lower(a) == Lower(b) {
      forall i | 0 <= i < |a| ensures SameLetter(a[i], b[i]) { assert Lower(a)[i] == Lower(b)[i]; }
    }
  }

  lemma {:induction false} SignalsIgnoreCase(a: string, b: string, c: seq<Pattern>, n: nat)
    requires SameButForCase(a, b) && n <= |c|
    ensures Signals(a, c, n) == Signals(b, c, n)
  {
    LowerIgnoresCase(a, b);
    if n > 0 { SignalsIgnoreCase(a, b, c, n - 1); }
  }

  /** Texts that differ only in the case of ASCII letters get the same floor and the same signals. */
  lemma {:induction false} FloorIgnoresCase(a: string, b: string, tiers: seq<Tier>)
    requires SameButForCase(a, b)
    ensures FloorIn(a, tiers) == FloorIn(b, tiers)
  {
    LowerIgnoresCase(a, b);
    if tiers != [] {
      SignalsIgnoreCase(a, b, tiers[0].1, |tiers[0].1|);
      FloorIgnoresCase(a, b, tiers[1..]);
    }
  }
}
