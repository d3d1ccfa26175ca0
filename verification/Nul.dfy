/**
 The NUL rule for records (db/src/nul.rs): every U+0000 in a string or an object key of a JSON value
 becomes U+2400, and keys that collide once escaped are told apart by further U+2400s.
 */
module Nul {
  import opened Sequences

  const NUL: char := '\0'
  const NUL_ESCAPE: char := '\U{2400}'

  datatype Json =
    | Null
    | Bool(value: bool)
    | Number(digits: string)
    | String(text: string)
    | Array(items: seq<Json>)
    | Object(fields: map<string, Json>)

  // ---- Strings -------------------------------------------------------------

  predicate HasNul(s: string) {
    NUL in s
  }

  function CountNuls(s: string): nat {
    if s == "" then 0 else (if s[0] == NUL then 1 else 0) + CountNuls(s[1..])
  }

  /** `str::replace`. */
  function Replaced(s: string): (r: string)
    ensures |r| == |s| && forall i :: 0 <= i < |s| ==> r[i] == if s[i] == NUL then NUL_ESCAPE else s[i]
    ensures !HasNul(r) && (r == s <==> !HasNul(s))
  {
    seq(|s|, i requires 0 <= i < |s| => if s[i] == NUL then NUL_ESCAPE else s[i])
  }

  lemma {:induction false} CountZero(s: string)
    ensures CountNuls(s) == 0 <==> !HasNul(s)
  {
    if s != "" {
      CountZero(s[1..]);
      assert s == [s[0]] + s[1..];
    }
  }

  /** The count is how often NUL occurs. */
  lemma {:induction false} CountIsMultiplicity(s: string)
    ensures CountNuls(s) == multiset(s)[NUL]
  {
    if s != "" {
      CountIsMultiplicity(s[1..]);
      assert s == [s[0]] + s[1..];
      assert multiset(s) == multiset{s[0]} + multiset(s[1..]);
    }
  }

  /** `escape_str`: the string itself when there is nothing to replace. */
  function EscapeStr(s: string): (r: (string, nat))
    ensures r.0 == Replaced(s) && r.1 == CountNuls(s) == multiset(s)[NUL]
  {
    CountZero(s);
    CountIsMultiplicity(s);
    var count := CountNuls(s);
    if count == 0 then (s, 0) else (Replaced(s), count)
  }

  // ---- Sums over a map -----------------------------------------------------

  ghost function Sum(m: map<string, nat>): nat {
    if m == map[] then 0 else
      var k :| k in m;
      m[k] + Sum(m - {k})
  }

  lemma {:induction false} SumRemove(m: map<string, nat>, k: string)
    requires k in m
    ensures Sum(m) == m[k] + Sum(m - {k})
    decreases |m|
  {
    var j :| j in m && Sum(m) == m[j] + Sum(m - {j});
    if j != k {
      SumRemove(m - {j}, k);
      SumRemove(m - {k}, j);
      assert m - {j} - {k} == m - {k} - {j};
    }
  }

  lemma SumAdd(m: map<string, nat>, k: string, n: nat)
    requires k !in m
    ensures Sum(m[k := n]) == Sum(m) + n
  {
    SumRemove(m[k := n], k);
    assert m[k := n] - {k} == m;
  }

  lemma {:induction false} SumZero(m: map<string, nat>)
    ensures Sum(m) == 0 <==> forall k :: k in m ==> m[k] == 0
    decreases |m|
  {
    if m != map[] {
      var k :| k in m && Sum(m) == m[k] + Sum(m - {k});
      SumZero(m - {k});
      assert forall j :: j in m <==> j == k || j in m - {k};
      assert forall j :: j in m - {k} ==> (m - {k})[j] == m[j];
    }
  }

  // ---- What escaping means -------------------------------------------------

  /** `json_contains_nul`. */
  predicate ContainsNul(v: Json) {
    match v
    case String(s) => HasNul(s)
    case Array(items) => exists i :: 0 <= i < |items| && ContainsNul(items[i])
    case Object(fields) => exists k :: k in fields && (HasNul(k) || ContainsNul(fields[k]))
    case Null => false
    case Bool(_) => false
    case Number(_) => false
  }

  ghost function SumSeq(s: seq<nat>): nat {
    if s == [] then 0 else SumSeq(s[..|s| - 1]) + s[|s| - 1]
  }

  ghost function KeyCounts(keys: set<string>): map<string, nat> {
    map k | k in keys :: CountNuls(k)
  }

  /** The number of NULs in every string and key of `v`. */
  ghost function Count(v: Json): nat {
    match v
    case String(s) => CountNuls(s)
    case Array(items) => SumSeq(seq(|items|, i requires 0 <= i < |items| => Count(items[i])))
    case Object(fields) => Sum(KeyCounts(fields.Keys)) + Sum(map k | k in fields :: Count(fields[k]))
    case Null => 0
    case Bool(_) => 0
    case Number(_) => 0
  }

  function Glyphs(n: nat): string {
    seq(n, i => NUL_ESCAPE)
  }

  /** Key `k` escaped, with `n` further glyphs. */
  function Spelling(k: string, n: nat): (r: string)
    ensures !HasNul(r) && (!HasNul(k) && n == 0 ==> r == k)
  {
    Replaced(k) + Glyphs(n)
  }

  /** `x` is `k` escaped, with a glyph added only while the shorter spelling is another key in `g`. */
  ghost predicate LeastFree(k: string, x: string, g: set<string>) {
    exists n: nat :: x == Spelling(k, n) && forall i: nat :: i < n ==> Spelling(k, i) in g
  }

  /** A fit new key for `k`; a NUL-free key keeps its spelling. */
  ghost predicate Proper(k: string, x: string, g: set<string>) {
    !HasNul(x) && (!HasNul(k) ==> x == k) && LeastFree(k, x, g)
  }

  /** `back` undoes `to`. */
  ghost predicate Undoes(back: map<string, string>, to: map<string, string>) {
    forall k :: k in to ==> to[k] in back && back[to[k]] == k
  }

  ghost predicate OneToOne(to: map<string, string>) {
    exists back :: Undoes(back, to)
  }

  /** The keys `g` are the keys `f` escaped one for one. */
  ghost predicate Renamed(f: set<string>, g: set<string>, to: map<string, string>) {
    to.Keys == f && to.Values == g && OneToOne(to) && forall k :: k in f ==> Proper(k, to[k], g)
  }

  /** `r` is `v` with every NUL escaped. */
  ghost predicate Escaped(v: Json, r: Json)
    decreases v, 1
  {
    match v
    case String(s) => r == String(Replaced(s))
    case Array(items) =>
      r.Array? && |r.items| == |items| && forall i :: 0 <= i < |items| ==> Escaped(items[i], r.items[i])
    case Object(fields) => r.Object? && exists to :: FieldsEscaped(v, r, to)
    case Null => r == v
    case Bool(_) => r == v
    case Number(_) => r == v
  }

  /** Each field keeps its own escaped value under its new key. */
  ghost predicate FieldsEscaped(v: Json, r: Json, to: map<string, string>)
    requires v.Object? && r.Object?
    decreases v, 0
  {
    Renamed(v.fields.Keys, r.fields.Keys, to) && forall k :: k in v.fields ==> Escaped(v.fields[k], r.fields[to[k]])
  }

  // ---- What follows from it ------------------------------------------------

  lemma ArrayClean(v: Json)
    requires v.Array? && forall i :: 0 <= i < |v.items| ==> !ContainsNul(v.items[i])
    ensures !ContainsNul(v)
  {
  }

  lemma ObjectClean(v: Json)
    requires v.Object? && forall k :: k in v.fields ==> !HasNul(k) && !ContainsNul(v.fields[k])
    ensures !ContainsNul(v)
  {
  }

  /** No string and no key of an escaped value holds a NUL. */
  lemma {:induction false} NoNulLeft(v: Json, r: Json)
    requires Escaped(v, r)
    ensures !ContainsNul(r)
    decreases v, 2
  {
    if v.Array? {
      NoNulInItems(v, r);
    } else if v.Object? {
      var to :| FieldsEscaped(v, r, to);
      NoNulInFields(v, r, to);
    }
  }

  lemma {:induction false} NoNulInItems(v: Json, r: Json)
    requires v.Array? && Escaped(v, r)
    ensures !ContainsNul(r)
    decreases v, 1
  {
    forall i | 0 <= i < |r.items| ensures !ContainsNul(r.items[i]) {
      NoNulLeft(v.items[i], r.items[i]);
    }
    ArrayClean(r);
  }

  lemma {:induction false} NoNulInFields(v: Json, r: Json, to: map<string, string>)
    requires v.Object? && r.Object? && FieldsEscaped(v, r, to)
    ensures !ContainsNul(r)
    decreases v, 1
  {
    forall x | x in r.fields ensures !HasNul(x) && !ContainsNul(r.fields[x]) {
      NoNulInField(v, r, to, x);
    }
    ObjectClean(r);
  }

  lemma {:induction false} NoNulInField(v: Json, r: Json, to: map<string, string>, x: string)
    requires v.Object? && r.Object? && FieldsEscaped(v, r, to) && x in r.fields
    ensures !HasNul(x) && !ContainsNul(r.fields[x])
    decreases v, 0
  {
    var k :| k in to && to[k] == x;
    assert Proper(k, x, r.fields.Keys);
    NoNulLeft(v.fields[k], r.fields[x]);
  }

  /** With no NUL key the keys stay as they are. */
  lemma CleanKeysStay(f: set<string>, g: set<string>, to: map<string, string>)
    requires Renamed(f, g, to) && forall k :: k in f ==> !HasNul(k)
    ensures f == g && forall k :: k in f ==> to[k] == k
  {
    assert forall k :: k in f ==> Proper(k, to[k], g);
  }

  lemma {:induction false} CleanUnchanged(v: Json, r: Json)
    requires Escaped(v, r) && !ContainsNul(v)
    ensures r == v
    decreases v, 1
  {
    if v.Array? {
      forall i | 0 <= i < |v.items| ensures r.items[i] == v.items[i] { CleanUnchanged(v.items[i], r.items[i]); }
    } else if v.Object? {
      var to :| FieldsEscaped(v, r, to);
      CleanFieldsUnchanged(v, r, to);
    }
  }

  lemma {:induction false} CleanFieldsUnchanged(v: Json, r: Json, to: map<string, string>)
    requires v.Object? && r.Object? && FieldsEscaped(v, r, to) && !ContainsNul(v)
    ensures r.fields == v.fields
    decreases v, 0
  {
    CleanKeysStay(v.fields.Keys, r.fields.Keys, to);
    forall k | k in v.fields ensures r.fields[k] == v.fields[k] {
      assert Escaped(v.fields[k], r.fields[to[k]]);
      CleanUnchanged(v.fields[k], r.fields[k]);
    }
  }

  /** Escaping changes a value exactly when it contains a NUL. */
  lemma IdentityIffClean(v: Json, r: Json)
    requires Escaped(v, r)
    ensures r == v <==> !ContainsNul(v)
  {
    NoNulLeft(v, r);
    if !ContainsNul(v) { CleanUnchanged(v, r); }
  }

  lemma {:induction false} SumSeqZero(s: seq<nat>)
    ensures SumSeq(s) == 0 <==> forall i :: 0 <= i < |s| ==> s[i] == 0
  {
    if s != [] { SumSeqZero(s[..|s| - 1]); }
  }

  /** The count is zero exactly when there is no NUL. */
  lemma {:induction false} CountZeroIffClean(v: Json)
    ensures Count(v) == 0 <==> !ContainsNul(v)
    decreases v
  {
    match v
    case Array(items) =>
      var counts := seq(|items|, i requires 0 <= i < |items| => Count(items[i]));
      SumSeqZero(counts);
      forall i | 0 <= i < |items| ensures counts[i] == 0 <==> !ContainsNul(items[i]) { CountZeroIffClean(items[i]); }
    case Object(fields) =>
      var counts := map k | k in fields :: Count(fields[k]);
      SumZero(counts);
      SumZero(KeyCounts(fields.Keys));
      forall k | k in fields ensures (counts[k] == 0 <==> !ContainsNul(fields[k])) && (KeyCounts(fields.Keys)[k] == 0 <==> !HasNul(k)) {
        CountZeroIffClean(fields[k]);
        CountZero(k);
      }
    case String(s) => CountZero(s);
    case Null =>
    case Bool(_) =>
    case Number(_) =>
  }

  lemma ValuesRemove(to: map<string, string>, k: string)
    requires OneToOne(to) && k in to
    ensures to.Values == (to - {k}).Values + {to[k]} && to[k] !in (to - {k}).Values && OneToOne(to - {k})
  {
    var rest := to - {k};
    var back :| Undoes(back, to);
    assert Undoes(back, rest);
    forall y | y in to.Values && y != to[k] ensures y in rest.Values {
      var j :| j in to && to[j] == y;
      assert rest[j] == y;
    }
    forall j | j in rest ensures rest[j] != to[k] {
      assert back[to[j]] == j && back[to[k]] == k;
    }
  }

  lemma {:induction false} OneToOneSize(to: map<string, string>)
    requires OneToOne(to)
    ensures |to.Values| == |to.Keys|
    decreases |to|
  {
    if to == map[] {
      assert to.Values == {} && to.Keys == {};
    } else {
      var k :| k in to;
      ValuesRemove(to, k);
      OneToOneSize(to - {k});
      assert to.Keys == (to - {k}).Keys + {k};
    }
  }

  /** An object keeps its size, and a NUL-free key keeps its spelling and its own value, whatever collides. */
  lemma ObjectKept(v: Json, r: Json)
    requires v.Object? && Escaped(v, r)
    ensures r.Object? && |r.fields.Keys| == |v.fields.Keys|
    ensures forall k :: k in v.fields && !HasNul(k) ==> k in r.fields && Escaped(v.fields[k], r.fields[k])
  {
    var to :| FieldsEscaped(v, r, to);
    OneToOneSize(to);
    forall k | k in v.fields && !HasNul(k) ensures k in r.fields && Escaped(v.fields[k], r.fields[k]) {
      assert Proper(k, to[k], r.fields.Keys);
    }
  }

  // ---- What the count counts -----------------------------------------------

  /** A string counts its NULs, and joining two adds them up. */
  lemma CountOfString(a: string, b: string)
    ensures Count(String(a)) == multiset(a)[NUL]
    ensures Count(String(a + b)) == Count(String(a)) + Count(String(b))
  {
    CountIsMultiplicity(a);
    CountIsMultiplicity(b);
    CountIsMultiplicity(a + b);
    assert multiset(a + b) == multiset(a) + multiset(b);
  }

  /** An array counts its items, each once. */
  lemma CountOfArray(items: seq<Json>, v: Json)
    ensures Count(Array([])) == 0
    ensures Count(Array(items + [v])) == Count(Array(items)) + Count(v)
  {
    var longer := Array(items + [v]);
    ArrayCount(longer);
    ArrayCount(Array(items));
    SumSeqTake(ItemCounts(longer), |items|);
    assert ItemCounts(longer)[..|items|] == ItemCounts(Array(items))[..|items|];
    ArrayCount(Array([]));
  }

  /** An object counts its keys and its values, each once. */
  lemma CountOfObject(fields: map<string, Json>, k: string, v: Json)
    requires k !in fields
    ensures Count(Object(map[])) == 0
    ensures Count(Object(fields[k := v])) == Count(Object(fields)) + multiset(k)[NUL] + Count(v)
  {
    ObjectCount(Object(fields[k := v]));
    ObjectCount(Object(fields));
    OneMoreKey(fields, k, v);
    OneMoreValue(fields, k, v);
    EmptyObjectCount();
  }

  lemma OneMoreKey(fields: map<string, Json>, k: string, v: Json)
    requires k !in fields
    ensures Sum(KeyCounts(fields[k := v].Keys)) == Sum(KeyCounts(fields.Keys)) + multiset(k)[NUL]
  {
    CountIsMultiplicity(k);
    KeyCountsAdd(fields.Keys, k);
    assert fields[k := v].Keys == fields.Keys + {k};
  }

  lemma OneMoreValue(fields: map<string, Json>, k: string, v: Json)
    requires k !in fields
    ensures Sum(ValueCounts(fields[k := v], fields[k := v].Keys)) == Sum(ValueCounts(fields, fields.Keys)) + Count(v)
  {
    var more := fields[k := v];
    ValueCountsAdd(more, fields.Keys, k);
    assert more.Keys == fields.Keys + {k};
    assert ValueCounts(more, fields.Keys) == ValueCounts(fields, fields.Keys);
  }

  lemma EmptyObjectCount()
    ensures Count(Object(map[])) == 0
  {
    ObjectCount(Object(map[]));
    assert KeyCounts({}) == map[] && ValueCounts(map[], {}) == map[];
  }

  /** A value that is no string and holds none counts nothing. */
  lemma CountOfScalar(v: Json)
    ensures v.Null? || v.Bool? || v.Number? ==> Count(v) == 0
  {
  }

  // ---- The rewrite itself --------------------------------------------------

  ghost function ValueCounts(f: map<string, Json>, keys: set<string>): map<string, nat> {
    map k | k in keys && k in f :: Count(f[k])
  }

  lemma ValueCountsAdd(f: map<string, Json>, keys: set<string>, k: string)
    requires k in f && k !in keys
    ensures Sum(ValueCounts(f, keys + {k})) == Sum(ValueCounts(f, keys)) + Count(f[k])
  {
    SumAdd(ValueCounts(f, keys), k, Count(f[k]));
    assert ValueCounts(f, keys + {k}) == ValueCounts(f, keys)[k := Count(f[k])];
  }

  lemma KeyCountsAdd(keys: set<string>, k: string)
    requires k !in keys
    ensures Sum(KeyCounts(keys + {k})) == Sum(KeyCounts(keys)) + CountNuls(k)
  {
    SumAdd(KeyCounts(keys), k, CountNuls(k));
    assert KeyCounts(keys + {k}) == KeyCounts(keys)[k := CountNuls(k)];
  }

  /** Keys without a NUL add nothing to the count. */
  lemma {:induction false} CleanKeysCountNothing(keys: set<string>, clean: set<string>)
    requires keys !! clean && forall k :: k in clean ==> !HasNul(k)
    ensures Sum(KeyCounts(keys + clean)) == Sum(KeyCounts(keys))
    decreases |clean|
  {
    if clean == {} {
      assert keys + clean == keys;
    } else {
      var k :| k in clean;
      CleanKeysCountNothing(keys, clean - {k});
      KeyCountsAdd(keys + (clean - {k}), k);
      assert keys + (clean - {k}) + {k} == keys + clean;
      CountZero(k);
    }
  }

  /** `escape_value`. */
  method EscapeValue(v: Json) returns (r: Json, count: nat)
    ensures Escaped(v, r) && count == Count(v)
    decreases v, 2
  {
    match v
    case String(s) =>
      var e := EscapeStr(s);
      r, count := String(e.0), e.1;
    case Array(items) =>
      r, count := EscapeItems(v);
    case Object(fields) =>
      r, count := EscapeObject(v);
    case Null => r, count := v, 0;
    case Bool(_) => r, count := v, 0;
    case Number(_) => r, count := v, 0;
  }

  ghost predicate ItemsEscaped(items: seq<Json>, out: seq<Json>) {
    |out| <= |items| && forall j :: 0 <= j < |out| ==> Escaped(items[j], out[j])
  }

  ghost function ItemCounts(v: Json): (c: seq<nat>)
    requires v.Array?
    ensures |c| == |v.items| && forall i :: 0 <= i < |c| ==> c[i] == Count(v.items[i])
  {
    seq(|v.items|, i requires 0 <= i < |v.items| => Count(v.items[i]))
  }

  lemma ArrayCount(v: Json)
    requires v.Array?
    ensures Count(v) == SumSeq(ItemCounts(v)[..|v.items|])
  {
    assert ItemCounts(v)[..|v.items|] == ItemCounts(v);
    assert ItemCounts(v) == seq(|v.items|, i requires 0 <= i < |v.items| => Count(v.items[i]));
  }

  lemma SumSeqTake(s: seq<nat>, i: nat)
    requires i < |s|
    ensures SumSeq(s[..i + 1]) == SumSeq(s[..i]) + s[i]
  {
    assert s[..i + 1][..i] == s[..i];
  }

  lemma ItemsOneMore(items: seq<Json>, out: seq<Json>, e: Json)
    requires ItemsEscaped(items, out) && |out| < |items| && Escaped(items[|out|], e)
    ensures ItemsEscaped(items, out + [e])
  {
  }

  lemma ItemsWhole(v: Json, out: seq<Json>)
    requires v.Array? && ItemsEscaped(v.items, out) && |out| == |v.items|
    ensures Escaped(v, Array(out))
  {
  }

  method EscapeItems(v: Json) returns (r: Json, count: nat)
    requires v.Array?
    ensures Escaped(v, r) && count == Count(v)
    decreases v, 1
  {
    var out: seq<Json> := [];
    count := 0;
    for i := 0 to |v.items|
      invariant |out| == i && ItemsEscaped(v.items, out)
      invariant count == SumSeq(ItemCounts(v)[..i])
    {
      var e, n := EscapeValue(v.items[i]);
      ItemsOneMore(v.items, out, e);
      SumSeqTake(ItemCounts(v), i);
      out := out + [e];
      count := count + n;
    }
    ArrayCount(v);
    ItemsWhole(v, out);
    r := Array(out);
  }

  ghost predicate EscapedOn(f: map<string, Json>, m: map<string, Json>, done: set<string>) {
    m.Keys == f.Keys && done <= f.Keys && forall k :: k in done ==> Escaped(f[k], m[k])
  }

  lemma EscapedOneMore(f: map<string, Json>, m: map<string, Json>, done: set<string>, k: string, e: Json)
    requires EscapedOn(f, m, done) && k in f && Escaped(f[k], e)
    ensures EscapedOn(f, m[k := e], done + {k})
  {
  }

  /** The first pass: every value escaped under its own key. */
  method EscapeValues(v: Json) returns (m: map<string, Json>, count: nat)
    requires v.Object?
    ensures EscapedOn(v.fields, m, v.fields.Keys) && count == Sum(ValueCounts(v.fields, v.fields.Keys))
    decreases v, 0
  {
    m, count := v.fields, 0;
    var todo := v.fields.Keys;
    ghost var done := {};
    while todo != {}
      invariant done !! todo && done + todo == v.fields.Keys
      invariant EscapedOn(v.fields, m, done)
      invariant count == Sum(ValueCounts(v.fields, done))
      decreases todo
    {
      var k :| k in todo;
      var e, n := EscapeValue(v.fields[k]);
      EscapedOneMore(v.fields, m, done, k, e);
      ValueCountsAdd(v.fields, done, k);
      m, count, todo := m[k := e], count + n, todo - {k};
      done := done + {k};
    }
    assert done == v.fields.Keys;
  }

  lemma ObjectCount(v: Json)
    requires v.Object?
    ensures Count(v) == Sum(KeyCounts(v.fields.Keys)) + Sum(ValueCounts(v.fields, v.fields.Keys))
  {
    assert ValueCounts(v.fields, v.fields.Keys) == map k | k in v.fields :: Count(v.fields[k]);
  }

  lemma FieldsCarried(v: Json, m: map<string, Json>, g: map<string, Json>, to: map<string, string>)
    requires v.Object? && EscapedOn(v.fields, m, v.fields.Keys)
    requires Renamed(m.Keys, g.Keys, to) && Carries(m, g, to)
    ensures Escaped(v, Object(g))
  {
    assert FieldsEscaped(v, Object(g), to);
  }

  lemma SomewhereCarried(v: Json, m: map<string, Json>, g: map<string, Json>)
    requires v.Object? && EscapedOn(v.fields, m, v.fields.Keys)
    requires exists to :: Renamed(m.Keys, g.Keys, to) && Carries(m, g, to)
    ensures Escaped(v, Object(g))
  {
    var to :| Renamed(m.Keys, g.Keys, to) && Carries(m, g, to);
    FieldsCarried(v, m, g, to);
  }

  /** `escape_object`. */
  method EscapeObject(v: Json) returns (r: Json, count: nat)
    requires v.Object?
    ensures Escaped(v, r) && count == Count(v)
    decreases v, 1
  {
    var m, n := EscapeValues(v);
    var g, c := Rekey(m);
    SomewhereCarried(v, m, g);
    ObjectCount(v);
    r, count := Object(g), n + c;
  }

  /** Field `k` of `m` sits in `g` under `to[k]`. */
  ghost predicate Carries(m: map<string, Json>, g: map<string, Json>, to: map<string, string>) {
    to.Keys == m.Keys && to.Values == g.Keys && forall k :: k in m ==> g[to[k]] == m[k]
  }

  /** Midway: `at` says under which key of `g` each original field now sits. A NUL key may still sit where it was. */
  ghost predicate Placed(m: map<string, Json>, g: map<string, Json>, at: map<string, string>) {
    Carries(m, g, at) && OneToOne(at) && forall k :: k in m ==> Sits(k, at[k], g.Keys)
  }

  ghost predicate Sits(k: string, x: string, g: set<string>) {
    (HasNul(k) && x == k) || Proper(k, x, g)
  }

  lemma ProperKept(k: string, x: string, g: set<string>, g': set<string>)
    requires Proper(k, x, g) && forall y :: y in g && !HasNul(y) ==> y in g'
    ensures Proper(k, x, g')
  {
    var n: nat :| x == Spelling(k, n) && forall i: nat :: i < n ==> Spelling(k, i) in g;
    assert forall i: nat :: i < n ==> Spelling(k, i) in g';
  }

  lemma PlaceOneKeys(m: map<string, Json>, g: map<string, Json>, at: map<string, string>, k: string, x: string)
    requires Carries(m, g, at) && OneToOne(at) && k in m && at[k] == k && x !in g
    ensures at[k := x].Values == (g.Keys - {k}) + {x} && OneToOne(at[k := x])
    ensures forall j :: j in m && j != k ==> at[j] in g && at[j] != k && at[j] != x
  {
    var back :| Undoes(back, at);
    var at' := at[k := x];
    forall j | j in m && j != k ensures at[j] in g && at[j] != k && at[j] != x {
      assert at[j] in at.Values && back[at[j]] == j && back[at[k]] == k;
    }
    forall y | y in g && y != k ensures y in at'.Values {
      var j :| j in at && at[j] == y;
      assert at'[j] == y;
    }
    assert at'[k] == x;
    assert Undoes(back[x := k], at');
  }

  lemma PlaceOneSits(m: map<string, Json>, g: map<string, Json>, at: map<string, string>, k: string, x: string, g': set<string>)
    requires Placed(m, g, at) && k in m && HasNul(k) && Proper(k, x, g.Keys) && g' == (g.Keys - {k}) + {x}
    ensures forall j :: j in m ==> Sits(j, at[k := x][j], g')
  {
    forall j | j in m ensures Sits(j, at[k := x][j], g') {
      assert Sits(j, at[j], g.Keys);
      if Proper(j, at[k := x][j], g.Keys) { ProperKept(j, at[k := x][j], g.Keys, g'); }
    }
  }

  lemma PlaceOneCarries(m: map<string, Json>, g: map<string, Json>, at: map<string, string>, k: string, x: string)
    requires Carries(m, g, at) && OneToOne(at) && k in m && at[k] == k && x !in g
    ensures Carries(m, (g - {k})[x := m[k]], at[k := x]) && OneToOne(at[k := x])
    ensures (g - {k})[x := m[k]].Keys == (g.Keys - {k}) + {x}
  {
    PlaceOneKeys(m, g, at, k, x);
  }

  /** Moving one NUL key to a free spelling. */
  lemma PlaceOne(m: map<string, Json>, g: map<string, Json>, at: map<string, string>, k: string, x: string)
    requires Placed(m, g, at) && k in m && HasNul(k) && at[k] == k && x !in g && Proper(k, x, g.Keys)
    ensures Placed(m, (g - {k})[x := m[k]], at[k := x])
  {
    PlaceOneCarries(m, g, at, k, x);
    PlaceOneSits(m, g, at, k, x, (g - {k})[x := m[k]].Keys);
  }

  lemma PlacedAtStart(m: map<string, Json>)
    ensures Placed(m, m, map k | k in m :: k)
  {
    var at := map k | k in m :: k;
    forall k | k in m ensures Sits(k, k, m.Keys) {
      if !HasNul(k) { assert k == Spelling(k, 0); }
    }
    assert forall k :: k in m ==> at[k] == k;
    assert at.Values == m.Keys;
    assert Undoes(at, at);
  }

  /** A key that holds a NUL has not been touched. */
  lemma NulKeyUntouched(m: map<string, Json>, g: map<string, Json>, at: map<string, string>, k: string)
    requires Placed(m, g, at) && k in g && HasNul(k)
    ensures k in m && at[k] == k && g[k] == m[k]
  {
    assert k in at.Values;
    var j :| j in at && at[j] == k;
    assert Sits(j, at[j], g.Keys);
  }

  lemma RekeyStep(m: map<string, Json>, g: map<string, Json>, at: map<string, string>, k: string, x: string)
    requires Placed(m, g, at) && k in g && HasNul(k) && x !in g - {k} && Proper(k, x, (g - {k}).Keys)
    ensures Placed(m, (g - {k})[x := g[k]], at[k := x])
  {
    NulKeyUntouched(m, g, at, k);
    FreeInWhole(g, k, x);
    PlaceOne(m, g, at, k, x);
  }

  lemma AllKeyCounts(m: map<string, Json>, nulKeys: set<string>)
    requires nulKeys == set k | k in m && HasNul(k)
    ensures Sum(KeyCounts(nulKeys)) == Sum(KeyCounts(m.Keys))
  {
    CleanKeysCountNothing(nulKeys, m.Keys - nulKeys);
    assert nulKeys + (m.Keys - nulKeys) == m.Keys;
  }

  lemma PlacedWhole(m: map<string, Json>, g: map<string, Json>, at: map<string, string>)
    requires Placed(m, g, at) && NulKeysOf(g) == {}
    ensures Renamed(m.Keys, g.Keys, at) && Carries(m, g, at)
  {
    forall k | k in m ensures Proper(k, at[k], g.Keys) {
      assert Sits(k, at[k], g.Keys) && at[k] in at.Values;
      assert at[k] in g && at[k] !in NulKeysOf(g);
    }
  }

  ghost function NulKeysOf(g: map<string, Json>): set<string> {
    set k | k in g && HasNul(k)
  }

  /** `s` with glyphs appended until it is no key of `rest`. */
  function FirstFree(rest: map<string, Json>, s: string): string
    decreases AtLeast(rest.Keys, |s|)
  {
    if s in rest then
      assert s in AtLeast(rest.Keys, |s|) && s !in AtLeast(rest.Keys, |s| + 1);
      FirstFree(rest, s + [NUL_ESCAPE])
    else s
  }

  /** One key taken out and put back under its first free spelling. */
  function Rekey1(g: map<string, Json>, k: string): map<string, Json> {
    if k in g then (g - {k})[FirstFree(g - {k}, Replaced(k)) := g[k]] else g
  }

  /** The first `n` keys re-keyed in turn. */
  function RekeyedBy(m: map<string, Json>, keys: seq<string>, n: nat): map<string, Json>
    requires n <= |keys|
  {
    if n == 0 then m else Rekey1(RekeyedBy(m, keys, n - 1), keys[n - 1])
  }

  /** Remove a NUL key and insert its value under the first free spelling. */
  method RekeyOne(g: map<string, Json>, k: string) returns (g': map<string, Json>, n: nat)
    requires k in g && HasNul(k)
    ensures g' == Rekey1(g, k) && n == CountNuls(k)
  {
    var value := g[k];
    var e := EscapeStr(k);
    n := e.1;
    var escaped := FreeSpelling(g - {k}, k, e.0);
    g' := (g - {k})[escaped := value];
  }

  /** Every original field sits somewhere in `g`. */
  ghost predicate Rekeyed(m: map<string, Json>, g: map<string, Json>) {
    exists at :: Placed(m, g, at)
  }

  lemma Rekey1Rekeys(m: map<string, Json>, g: map<string, Json>, k: string)
    requires Rekeyed(m, g) && k in g && HasNul(k)
    ensures Rekeyed(m, Rekey1(g, k))
  {
    var at :| Placed(m, g, at);
    FirstFreeFrom(g - {k}, k, 0);
    RekeyStep(m, g, at, k, FirstFree(g - {k}, Replaced(k)));
  }

  /** Re-keying one NUL key leaves the others. */
  lemma Rekey1Leaves(g: map<string, Json>, k: string)
    requires k in g && HasNul(k)
    ensures NulKeysOf(Rekey1(g, k)) == NulKeysOf(g) - {k}
  {
    FirstFreeFrom(g - {k}, k, 0);
  }

  /** Appending glyphs stops at the first spelling that is no key. */
  lemma {:induction false} FirstFreeFrom(rest: map<string, Json>, k: string, n: nat)
    requires HasNul(k) && forall i: nat :: i < n ==> Spelling(k, i) in rest
    ensures var x := FirstFree(rest, Spelling(k, n)); x !in rest && Proper(k, x, rest.Keys)
    ensures Spelling(k, 0) == Replaced(k)
    decreases AtLeast(rest.Keys, |Spelling(k, n)|)
  {
    var s := Spelling(k, n);
    if s in rest {
      assert s in AtLeast(rest.Keys, |s|) && s !in AtLeast(rest.Keys, |s| + 1);
      assert Glyphs(n + 1) == Glyphs(n) + [NUL_ESCAPE];
      assert Spelling(k, n + 1) == s + [NUL_ESCAPE];
      FirstFreeFrom(rest, k, n + 1);
    }
  }

  ghost function KeySet(keys: seq<string>): set<string> {
    set k | k in keys
  }

  /** The keys from position `i` on. */
  ghost function From(keys: seq<string>, i: nat): set<string>
    requires i <= |keys|
  {
    KeySet(keys[i..])
  }

  lemma FromStep(keys: seq<string>, i: nat)
    requires NoRepeats(keys) && i < |keys|
    ensures keys[i] in From(keys, i) && From(keys, i + 1) == From(keys, i) - {keys[i]}
  {
    var rest := keys[i + 1..];
    assert keys[i..] == [keys[i]] + rest;
    assert forall j :: 0 <= j < |rest| ==> rest[j] == keys[i + 1 + j];
  }

  /** The NULs in the first `n` keys. */
  ghost function NulsIn(keys: seq<string>, n: nat): nat
    requires n <= |keys|
  {
    if n == 0 then 0 else NulsIn(keys, n - 1) + CountNuls(keys[n - 1])
  }

  lemma {:induction false} NulsInIsSum(keys: seq<string>, n: nat)
    requires NoRepeats(keys) && n <= |keys|
    ensures NulsIn(keys, n) == Sum(KeyCounts(KeySet(keys[..n])))
  {
    if n == 0 {
      assert KeyCounts(KeySet(keys[..0])) == map[];
    } else {
      NulsInIsSum(keys, n - 1);
      var before := KeySet(keys[..n - 1]);
      assert keys[..n] == keys[..n - 1] + [keys[n - 1]];
      assert KeySet(keys[..n]) == before + {keys[n - 1]};
      KeyCountsAdd(before, keys[n - 1]);
    }
  }

  /** `keys` are the NUL keys of `m`, once each. */
  ghost predicate ListsNulKeys(m: map<string, Json>, keys: seq<string>) {
    NoRepeats(keys) && forall k :: k in keys <==> k in m && HasNul(k)
  }

  /** `keys().filter(contains NUL).collect()`. */
  method ListNulKeys(m: map<string, Json>) returns (keys: seq<string>)
    ensures ListsNulKeys(m, keys)
  {
    keys := [];
    var todo := set k | k in m && HasNul(k);
    while todo != {}
      invariant NoRepeats(keys) && forall k :: k in m && HasNul(k) <==> k in keys || k in todo
      invariant forall k :: k in keys ==> k !in todo
      decreases todo
    {
      var k :| k in todo;
      keys, todo := keys + [k], todo - {k};
    }
  }

  lemma NulKeysCounted(m: map<string, Json>, keys: seq<string>)
    requires ListsNulKeys(m, keys)
    ensures NulsIn(keys, |keys|) == Sum(KeyCounts(m.Keys))
    ensures From(keys, |keys|) == {}
  {
    NulsInIsSum(keys, |keys|);
    assert keys[..|keys|] == keys && keys[0..] == keys;
    AllKeyCounts(m, KeySet(keys));
  }

  /** Where no NUL key is left, the fields sit under their new keys. */
  lemma RekeyedWhole(m: map<string, Json>, g: map<string, Json>)
    requires Rekeyed(m, g) && NulKeysOf(g) == {}
    ensures exists to :: Renamed(m.Keys, g.Keys, to) && Carries(m, g, to)
  {
    var at :| Placed(m, g, at);
    PlacedWhole(m, g, at);
  }

  lemma {:induction false} KeysLeft(m: map<string, Json>, keys: seq<string>, n: nat)
    requires ListsNulKeys(m, keys) && n <= |keys|
    ensures NulKeysOf(RekeyedBy(m, keys, n)) == From(keys, n)
  {
    if n == 0 {
      assert keys[0..] == keys;
    } else {
      KeysLeft(m, keys, n - 1);
      FromStep(keys, n - 1);
      Rekey1Leaves(RekeyedBy(m, keys, n - 1), keys[n - 1]);
    }
  }

  /** The key whose turn it is is still there. */
  lemma NextKeyThere(m: map<string, Json>, keys: seq<string>, n: nat)
    requires ListsNulKeys(m, keys) && n < |keys|
    ensures keys[n] in RekeyedBy(m, keys, n) && HasNul(keys[n])
  {
    KeysLeft(m, keys, n);
    FromStep(keys, n);
    assert keys[n] in NulKeysOf(RekeyedBy(m, keys, n));
  }

  lemma {:induction false} RekeyedByRekeys(m: map<string, Json>, keys: seq<string>, n: nat)
    requires ListsNulKeys(m, keys) && n <= |keys|
    ensures Rekeyed(m, RekeyedBy(m, keys, n))
  {
    if n == 0 {
      PlacedAtStart(m);
    } else {
      RekeyedByRekeys(m, keys, n - 1);
      NextKeyThere(m, keys, n - 1);
      Rekey1Rekeys(m, RekeyedBy(m, keys, n - 1), keys[n - 1]);
    }
  }

  method RekeyAll(m: map<string, Json>, keys: seq<string>) returns (g: map<string, Json>, count: nat)
    requires forall n: nat :: n < |keys| ==> keys[n] in RekeyedBy(m, keys, n) && HasNul(keys[n])
    ensures g == RekeyedBy(m, keys, |keys|) && count == NulsIn(keys, |keys|)
  {
    g, count := m, 0;
    for i := 0 to |keys|
      invariant g == RekeyedBy(m, keys, i) && count == NulsIn(keys, i)
    {
      var n;
      g, n := RekeyOne(g, keys[i]);
      count := count + n;
    }
  }

  /** The second pass: re-key every NUL key, one at a time, onto a spelling not yet taken. */
  method Rekey(m: map<string, Json>) returns (g: map<string, Json>, count: nat)
    ensures exists to :: Renamed(m.Keys, g.Keys, to) && Carries(m, g, to)
    ensures count == Sum(KeyCounts(m.Keys))
  {
    var keys := ListNulKeys(m);
    NulKeysCounted(m, keys);
    forall n: nat | n < |keys| ensures keys[n] in RekeyedBy(m, keys, n) && HasNul(keys[n]) { NextKeyThere(m, keys, n); }
    g, count := RekeyAll(m, keys);
    RekeyedByRekeys(m, keys, |keys|);
    KeysLeft(m, keys, |keys|);
    RekeyedWhole(m, g);
  }

  /** An escaped key can never land on a key that still holds a NUL. */
  lemma FreeInWhole(g: map<string, Json>, k: string, x: string)
    requires HasNul(k) && x !in g - {k} && Proper(k, x, (g - {k}).Keys)
    ensures x !in g && Proper(k, x, g.Keys)
  {
    ProperKept(k, x, (g - {k}).Keys, g.Keys);
  }

  /** Append glyphs until the key is free. */
  method FreeSpelling(rest: map<string, Json>, k: string, escaped: string) returns (s: string)
    requires HasNul(k) && escaped == Replaced(k)
    ensures s == FirstFree(rest, Replaced(k)) && s !in rest && Proper(k, s, rest.Keys)
  {
    FirstFreeFrom(rest, k, 0);
    s := escaped;
    while s in rest
      invariant FirstFree(rest, s) == FirstFree(rest, escaped)
      decreases AtLeast(rest.Keys, |s|)
    {
      assert s in AtLeast(rest.Keys, |s|) && s !in AtLeast(rest.Keys, |s| + 1);
      s := s + [NUL_ESCAPE];
    }
  }

  ghost function AtLeast(keys: set<string>, n: nat): set<string> {
    set x | x in keys && |x| >= n
  }
}
