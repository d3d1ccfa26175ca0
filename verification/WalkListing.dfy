/**
 What the walk queries return: the deduped edges in `ORDER BY depth, edge_id` order, cut by LIMIT,
 and the combined query that returns both directions at once.
 */
module WalkListing {
  import opened Graph
  import opened GraphWalks

  datatype Outcome<T> = Ok(value: T) | QueryError

  // ---- ORDER BY and LIMIT --------------------------------------------------

  ghost predicate StrictTotal<T(!new)>(elems: set<T>, before: (T, T) -> bool) {
    && (forall x, y :: x in elems && y in elems ==> x == y || before(x, y) || before(y, x))
    && (forall x, y :: before(x, y) ==> !before(y, x))
    && (forall x, y, z :: before(x, y) && before(y, z) ==> before(x, z))
  }

  ghost predicate SortedBy<T(!new)>(s: seq<T>, before: (T, T) -> bool) {
    forall i, j :: 0 <= i < j < |s| ==> before(s[i], s[j])
  }

  /** `out` is the first `limit` members of `elems` in the order, or all of them if there are fewer. */
  ghost predicate FirstOf<T(!new)>(out: seq<T>, elems: set<T>, before: (T, T) -> bool, limit: nat) {
    && SortedBy(out, before)
    && (forall x :: x in out ==> x in elems)
    && (forall x, y :: x in out && y in elems && y !in out ==> before(x, y))
    && |out| <= limit && (|out| < limit ==> forall x :: x in elems ==> x in out)
  }

  /** The order determines the listing. */
  lemma {:induction false} FirstOfUnique<T(!new)>(a: seq<T>, b: seq<T>, elems: set<T>, before: (T, T) -> bool, limit: nat)
    requires StrictTotal(elems, before) && FirstOf(a, elems, before, limit) && FirstOf(b, elems, before, limit)
    ensures a == b
    decreases |a|
  {
    EmptyTogether(a, b, elems, before, limit);
    EmptyTogether(b, a, elems, before, limit);
    if a != [] {
      HeadsAgree(a, b, elems, before, limit);
      DropHead(a, elems, before, limit);
      DropHead(b, elems, before, limit);
      FirstOfUnique(a[1..], b[1..], elems - {a[0]}, before, limit - 1);
      assert a == [a[0]] + a[1..] && b == [b[0]] + b[1..];
    }
  }

  lemma EmptyTogether<T(!new)>(a: seq<T>, b: seq<T>, elems: set<T>, before: (T, T) -> bool, limit: nat)
    requires FirstOf(a, elems, before, limit) && FirstOf(b, elems, before, limit)
    ensures a != [] ==> b != []
  {
    if a != [] {
      assert a[0] in elems;
      assert |b| < limit ==> a[0] in b;
    }
  }

  lemma HeadsAgree<T(!new)>(a: seq<T>, b: seq<T>, elems: set<T>, before: (T, T) -> bool, limit: nat)
    requires StrictTotal(elems, before) && FirstOf(a, elems, before, limit) && FirstOf(b, elems, before, limit)
    requires a != [] && b != []
    ensures a[0] == b[0]
  {
    HeadIsLeast(a, elems, before, limit, b[0]);
    HeadIsLeast(b, elems, before, limit, a[0]);
  }

  lemma HeadIsLeast<T(!new)>(a: seq<T>, elems: set<T>, before: (T, T) -> bool, limit: nat, x: T)
    requires FirstOf(a, elems, before, limit) && a != [] && x in elems
    ensures a[0] == x || before(a[0], x)
  {
    if x in a {
      var i :| 0 <= i < |a| && a[i] == x;
    }
  }

  lemma DropHead<T(!new)>(a: seq<T>, elems: set<T>, before: (T, T) -> bool, limit: nat)
    requires StrictTotal(elems, before) && FirstOf(a, elems, before, limit) && a != []
    ensures StrictTotal(elems - {a[0]}, before) && FirstOf(a[1..], elems - {a[0]}, before, limit - 1)
  {
    var t := a[1..];
    assert forall i :: 0 <= i < |t| ==> t[i] == a[i + 1] && before(a[0], t[i]);
    assert forall x :: x in a <==> x == a[0] || x in t;
  }

  method Least<T(!new, ==)>(elems: set<T>, before: (T, T) -> bool) returns (m: T)
    requires StrictTotal(elems, before) && elems != {}
    ensures m in elems && forall x :: x in elems && x != m ==> before(m, x)
  {
    m :| m in elems;
    var todo := elems - {m};
    while todo != {}
      invariant todo <= elems && m in elems && m !in todo
      invariant forall x :: x in elems && x !in todo && x != m ==> before(m, x)
      decreases |todo|
    {
      var x :| x in todo;
      todo := todo - {x};
      if before(x, m) { m := x; }
    }
  }

  /** `ORDER BY`: every member once, in order. */
  method SortSet<T(!new, ==)>(elems: set<T>, before: (T, T) -> bool) returns (out: seq<T>)
    requires StrictTotal(elems, before)
    ensures SortedBy(out, before) && forall x :: x in out <==> x in elems
  {
    out := [];
    var rest := elems;
    while rest != {}
      invariant rest <= elems && SortedBy(out, before)
      invariant forall x :: x in elems <==> x in rest || x in out
      invariant forall x, y :: x in out && y in rest ==> before(x, y)
      decreases |rest|
    {
      var m := Least(rest, before);
      rest := rest - {m};
      out := out + [m];
    }
  }

  /** `ORDER BY ... LIMIT n`. */
  method SortAndLimit<T(!new, ==)>(elems: set<T>, before: (T, T) -> bool, limit: nat) returns (out: seq<T>)
    requires StrictTotal(elems, before)
    ensures FirstOf(out, elems, before, limit)
  {
    var all := SortSet(elems, before);
    out := if limit < |all| then all[..limit] else all;
    CutIsFirst(all, elems, before, limit);
  }

  lemma CutIsFirst<T(!new)>(all: seq<T>, elems: set<T>, before: (T, T) -> bool, limit: nat)
    requires SortedBy(all, before) && forall x :: x in all <==> x in elems
    ensures FirstOf(if limit < |all| then all[..limit] else all, elems, before, limit)
  {
    if limit < |all| {
      var out := all[..limit];
      assert forall k :: 0 <= k < limit ==> out[k] == all[k] && all[k] in out;
      forall x, y | x in out && y in elems && y !in out ensures before(x, y) {
        var i :| 0 <= i < limit && all[i] == x;
        var j :| 0 <= j < |all| && all[j] == y;
      }
    }
  }

  // ---- The single-direction walks ------------------------------------------

  predicate Before(a: Walked, b: Walked) {
    a.depth < b.depth || (a.depth == b.depth && a.edge.id < b.edge.id)
  }

  function OutAll(g: Relations, s: Node, d: nat): set<Row> {
    if d == 0 then {} else OutAll(g, s, d - 1) + OutLevel(g, s, d)
  }

  function InAll(g: Relations, s: Node, d: nat): set<Row> {
    if d == 0 then {} else InAll(g, s, d - 1) + InLevel(g, s, d)
  }

  /** `SELECT DISTINCT ON (edge_id) ... ORDER BY edge_id, depth ASC`. */
  function Dedupe(rows: set<Row>): set<Walked> {
    set r | r in rows && (forall q :: q in rows && q.edge.id == r.edge.id ==> r.depth <= q.depth) :: Walked(r.depth, r.edge)
  }

  function OutEdges(g: Relations, s: Node, d: nat): set<Walked> {
    Dedupe(OutAll(g, s, d))
  }

  function InEdges(g: Relations, s: Node, d: nat): set<Walked> {
    Dedupe(InAll(g, s, d))
  }

  ghost predicate EdgesStored(g: Relations, rows: set<Row>) {
    forall r :: r in rows ==> r.edge in g
  }

  lemma {:induction false} OutAllExact(g: Relations, s: Node, d: nat)
    ensures forall r :: r in OutAll(g, s, d) <==> OutRows(g, s, d, r)
    ensures EdgesStored(g, OutAll(g, s, d))
  {
    if d > 0 {
      OutAllExact(g, s, d - 1);
      forall r | r in OutLevel(g, s, d) ensures r.depth == d && r.edge in g { OutLevelSound(g, s, d, r); }
    }
  }

  lemma {:induction false} InAllExact(g: Relations, s: Node, d: nat)
    ensures forall r :: r in InAll(g, s, d) <==> InRows(g, s, d, r)
    ensures EdgesStored(g, InAll(g, s, d))
  {
    if d > 0 {
      InAllExact(g, s, d - 1);
      forall r | r in InLevel(g, s, d) ensures r.depth == d && r.edge in g {
        InLevelFlips(g, s, d, r);
        OutLevelSound(Reversed(g), s, d, FlipRow(r));
        FlipMember(g, r.edge);
      }
    }
  }

  /** Deduplicating by edge id keeps each edge at its least depth, and leaves no two rows to tie. */
  lemma DedupeExact(g: Relations, rows: set<Row>, w: Walked)
    requires UniqueIds(g) && EdgesStored(g, rows)
    ensures w in Dedupe(rows) <==> Deduped(r => r in rows, w)
  {
    if w in Dedupe(rows) {
      var r :| r in rows && (forall q :: q in rows && q.edge.id == r.edge.id ==> r.depth <= q.depth) && w == Walked(r.depth, r.edge);
      assert (r => r in rows)(r);
    }
    if Deduped(r => r in rows, w) {
      var r :| r in rows && r.edge == w.edge && r.depth == w.depth;
      forall q | q in rows && q.edge.id == r.edge.id ensures r.depth <= q.depth {
        assert (r => r in rows)(q);
      }
    }
  }

  /** Each edge once, and the sort key separates the edges. */
  lemma DedupeOrdered(g: Relations, rows: set<Row>)
    requires UniqueIds(g) && EdgesStored(g, rows)
    ensures StrictTotal(Dedupe(rows), Before)
    ensures forall a, b :: a in Dedupe(rows) && b in Dedupe(rows) && a.edge.id == b.edge.id ==> a == b
  {
  }

  lemma OutEdgesExact(g: Relations, s: Node, d: nat)
    requires UniqueIds(g)
    ensures StrictTotal(OutEdges(g, s, d), Before)
    ensures forall w :: w in OutEdges(g, s, d) <==> OutEdge(g, s, d, w)
  {
    OutAllExact(g, s, d);
    DedupeOrdered(g, OutAll(g, s, d));
    forall w ensures w in OutEdges(g, s, d) <==> OutEdge(g, s, d, w) {
      DedupeExact(g, OutAll(g, s, d), w);
    }
  }

  lemma InEdgesExact(g: Relations, s: Node, d: nat)
    requires UniqueIds(g)
    ensures StrictTotal(InEdges(g, s, d), Before)
    ensures forall w :: w in InEdges(g, s, d) <==> InEdge(g, s, d, w)
  {
    InAllExact(g, s, d);
    DedupeOrdered(g, InAll(g, s, d));
    forall w ensures w in InEdges(g, s, d) <==> InEdge(g, s, d, w) {
      DedupeExact(g, InAll(g, s, d), w);
    }
  }

  /** `out` lists, in (depth, id) order, the first `limit` edges of the outbound walk. */
  ghost predicate OutListing(g: Relations, s: Node, d: nat, limit: nat, out: seq<Walked>) {
    FirstOf(out, OutEdges(g, s, d), Before, limit)
  }

  ghost predicate InListing(g: Relations, s: Node, d: nat, limit: nat, out: seq<Walked>) {
    FirstOf(out, InEdges(g, s, d), Before, limit)
  }

  lemma OutAllBase(g: Relations, s: Node)
    ensures OutBase(g, s) == OutLevel(g, s, 1) == OutAll(g, s, 1)
  {
    assert OutAll(g, s, 0) == {};
  }

  lemma OutAllStep(g: Relations, s: Node, d: nat)
    requires d >= 1
    ensures OutLevel(g, s, d + 1) == OutNext(g, OutLevel(g, s, d))
    ensures OutAll(g, s, d + 1) == OutAll(g, s, d) + OutNext(g, OutLevel(g, s, d))
  {
  }

  /** The recursive query: the base rows, then one round per further depth. */
  method OutTable(g: Relations, s: Node, depth: nat) returns (walk: set<Row>)
    requires depth >= 1
    ensures walk == OutAll(g, s, depth)
  {
    var working := OutBase(g, s);
    walk := working;
    OutAllBase(g, s);
    for d := 1 to depth
      invariant working == OutLevel(g, s, d) && walk == OutAll(g, s, d)
    {
      OutAllStep(g, s, d);
      working := OutNext(g, working);
      walk := walk + working;
    }
  }

  /** `walk_outbound_edges`. PostgreSQL refuses a negative LIMIT; depth 0 never reaches it. */
  method WalkOutbound(g: Relations, s: Node, maxDepth: nat, limit: int) returns (r: Outcome<seq<Walked>>)
    requires UniqueIds(g)
    ensures maxDepth == 0 ==> r == Ok([])
    ensures r.QueryError? <==> maxDepth > 0 && limit < 0
    ensures r.Ok? && maxDepth > 0 ==> OutListing(g, s, if maxDepth < 5 then maxDepth else 5, limit, r.value)
    ensures r.Ok? && maxDepth > 0 ==> ByDepthThenId(r.value) && |r.value| <= limit
    ensures r.Ok? && maxDepth > 0 ==> forall w :: OutEdge(g, s, if maxDepth < 5 then maxDepth else 5, w) && w !in r.value ==> ComesLater(r.value, w) && |r.value| == limit
  {
    if maxDepth == 0 { return Ok([]); }
    var depth := ClampWalkDepth(maxDepth);
    if limit < 0 { return QueryError; }
    var walk := OutTable(g, s, depth);
    OutEdgesExact(g, s, depth);
    var out := SortAndLimit(Dedupe(walk), Before, limit);
    ListingOrder(out, OutEdges(g, s, depth), limit);
    r := Ok(out);
  }

  lemma InAllBase(g: Relations, s: Node)
    ensures InBase(g, s) == InLevel(g, s, 1) == InAll(g, s, 1)
  {
    assert InAll(g, s, 0) == {};
  }

  lemma InAllStep(g: Relations, s: Node, d: nat)
    requires d >= 1
    ensures InLevel(g, s, d + 1) == InNext(g, InLevel(g, s, d))
    ensures InAll(g, s, d + 1) == InAll(g, s, d) + InNext(g, InLevel(g, s, d))
  {
  }

  /** The recursive query: the base rows, then one round per further depth. */
  method InTable(g: Relations, s: Node, depth: nat) returns (walk: set<Row>)
    requires depth >= 1
    ensures walk == InAll(g, s, depth)
  {
    var working := InBase(g, s);
    walk := working;
    InAllBase(g, s);
    for d := 1 to depth
      invariant working == InLevel(g, s, d) && walk == InAll(g, s, d)
    {
      InAllStep(g, s, d);
      working := InNext(g, working);
      walk := walk + working;
    }
  }

  /** `walk_inbound_edges`. */
  method WalkInbound(g: Relations, s: Node, maxDepth: nat, limit: int) returns (r: Outcome<seq<Walked>>)
    requires UniqueIds(g)
    ensures maxDepth == 0 ==> r == Ok([])
    ensures r.QueryError? <==> maxDepth > 0 && limit < 0
    ensures r.Ok? && maxDepth > 0 ==> InListing(g, s, if maxDepth < 5 then maxDepth else 5, limit, r.value)
    ensures r.Ok? && maxDepth > 0 ==> ByDepthThenId(r.value) && |r.value| <= limit
    ensures r.Ok? && maxDepth > 0 ==> forall w :: InEdge(g, s, if maxDepth < 5 then maxDepth else 5, w) && w !in r.value ==> ComesLater(r.value, w) && |r.value| == limit
  {
    if maxDepth == 0 { return Ok([]); }
    var depth := ClampWalkDepth(maxDepth);
    if limit < 0 { return QueryError; }
    var walk := InTable(g, s, depth);
    InEdgesExact(g, s, depth);
    var out := SortAndLimit(Dedupe(walk), Before, limit);
    ListingOrder(out, InEdges(g, s, depth), limit);
    r := Ok(out);
  }

  // ---- Both directions in one query ----------------------------------------

  datatype Direction = Inbound | Outbound

  datatype Tagged = Tagged(direction: Direction, row: Walked)

  datatype EdgesAround = EdgesAround(outbound: seq<Walked>, inbound: seq<Walked>)

  /** `ORDER BY direction, depth, edge_id`; "inbound" sorts before "outbound". */
  predicate TagBefore(a: Tagged, b: Tagged) {
    if a.direction == b.direction then Before(a.row, b.row) else a.direction == Inbound
  }

  /** The rows of one direction, in cursor order. */
  function Only(rows: seq<Tagged>, d: Direction): seq<Walked> {
    if rows == [] then []
    else
      var init := Only(rows[..|rows| - 1], d);
      var last := rows[|rows| - 1];
      if last.direction == d then init + [last.row] else init
  }

  lemma OnlySnoc(rows: seq<Tagged>, n: nat, d: Direction)
    requires n < |rows|
    ensures Only(rows[..n + 1], d) == Only(rows[..n], d) + (if rows[n].direction == d then [rows[n].row] else [])
  {
    assert rows[..n + 1][..n] == rows[..n];
  }

  lemma {:induction false} OnlyElements(rows: seq<Tagged>, d: Direction)
    ensures forall w :: w in Only(rows, d) <==> Tagged(d, w) in rows
  {
    if rows != [] {
      OnlyElements(rows[..|rows| - 1], d);
      assert rows == rows[..|rows| - 1] + [rows[|rows| - 1]];
    }
  }

  lemma {:induction false} OnlySorted(rows: seq<Tagged>, d: Direction)
    requires SortedBy(rows, TagBefore)
    ensures SortedBy(Only(rows, d), Before)
  {
    if rows != [] {
      var init, last := rows[..|rows| - 1], rows[|rows| - 1];
      OnlySorted(init, d);
      OnlyElements(init, d);
      forall w | w in Only(init, d) && last.direction == d ensures Before(w, last.row) {
        var i :| 0 <= i < |init| && init[i] == Tagged(d, w);
        assert TagBefore(rows[i], last);
      }
    }
  }

  /** Splitting the sorted union gives back each direction's own listing, order included. */
  lemma PartitionRestores(rows: seq<Tagged>, d: Direction, listing: seq<Walked>, elems: set<Walked>, limit: nat)
    requires SortedBy(rows, TagBefore) && forall w :: Tagged(d, w) in rows <==> w in listing
    requires StrictTotal(elems, Before) && FirstOf(listing, elems, Before, limit)
    ensures Only(rows, d) == listing
  {
    OnlySorted(rows, d);
    OnlyElements(rows, d);
    var own := set w | w in listing;
    SameLength(Only(rows, d), listing, own);
    FirstOfUnique(Only(rows, d), listing, own, Before, |Only(rows, d)| + |listing| + 1);
  }

  lemma SameLength(a: seq<Walked>, b: seq<Walked>, own: set<Walked>)
    requires SortedBy(a, Before) && SortedBy(b, Before)
    requires forall w :: w in a <==> w in own
    requires forall w :: w in b <==> w in own
    ensures FirstOf(a, own, Before, |a| + |b| + 1) && FirstOf(b, own, Before, |a| + |b| + 1)
  {
  }

  /** UNION ALL of the two renderings, in the final order. */
  method UnionSorted(outbound: seq<Walked>, inbound: seq<Walked>, outs: set<Walked>, ins: set<Walked>, limit: nat) returns (rows: seq<Tagged>)
    requires StrictTotal(outs, Before) && FirstOf(outbound, outs, Before, limit)
    requires StrictTotal(ins, Before) && FirstOf(inbound, ins, Before, limit)
    ensures SortedBy(rows, TagBefore)
    ensures forall w :: Tagged(Outbound, w) in rows <==> w in outbound
    ensures forall w :: Tagged(Inbound, w) in rows <==> w in inbound
  {
    var union := (set w | w in outbound :: Tagged(Outbound, w)) + (set w | w in inbound :: Tagged(Inbound, w));
    rows := SortSet(union, TagBefore);
  }

  /** `walk_edges_around` equals the pair of single-direction walks: content, order and per-direction limit. */
  method WalkEdgesAround(g: Relations, s: Node, maxDepth: nat, limit: int) returns (r: Outcome<EdgesAround>)
    requires UniqueIds(g)
    ensures maxDepth == 0 ==> r == Ok(EdgesAround([], []))
    ensures r.QueryError? <==> maxDepth > 0 && limit < 0
    ensures r.Ok? && maxDepth > 0 ==>
      && OutListing(g, s, if maxDepth < 5 then maxDepth else 5, limit, r.value.outbound)
      && InListing(g, s, if maxDepth < 5 then maxDepth else 5, limit, r.value.inbound)
    ensures r.Ok? ==> ByDepthThenId(r.value.outbound) && ByDepthThenId(r.value.inbound)
  {
    if maxDepth == 0 { return Ok(EdgesAround([], [])); }
    var depth := ClampWalkDepth(maxDepth);
    if limit < 0 { return QueryError; }
    OutEdgesExact(g, s, depth);
    InEdgesExact(g, s, depth);
    var outRendered := SortAndLimit(OutEdges(g, s, depth), Before, limit);
    var inRendered := SortAndLimit(InEdges(g, s, depth), Before, limit);
    var rows := UnionSorted(outRendered, inRendered, OutEdges(g, s, depth), InEdges(g, s, depth), limit);
    var outbound, inbound := [], [];
    for i := 0 to |rows|
      invariant outbound == Only(rows[..i], Outbound) && inbound == Only(rows[..i], Inbound)
    {
      OnlySnoc(rows, i, Outbound);
      OnlySnoc(rows, i, Inbound);
      match rows[i].direction
      case Outbound => outbound := outbound + [rows[i].row];
      case Inbound => inbound := inbound + [rows[i].row];
    }
    assert rows[..|rows|] == rows;
    PartitionRestores(rows, Outbound, outRendered, OutEdges(g, s, depth), limit);
    PartitionRestores(rows, Inbound, inRendered, InEdges(g, s, depth), limit);
    ListingOrder(outRendered, OutEdges(g, s, depth), limit);
    ListingOrder(inRendered, InEdges(g, s, depth), limit);
    r := Ok(EdgesAround(outbound, inbound));
  }

  /** Shallower edges first, and smaller ids first among edges of one depth. */
  ghost predicate ByDepthThenId(out: seq<Walked>) {
    forall i, j :: 0 <= i < j < |out| ==> out[i].depth < out[j].depth || (out[i].depth == out[j].depth && out[i].edge.id < out[j].edge.id)
  }

  /** `w` belongs after every edge listed. */
  ghost predicate ComesLater(out: seq<Walked>, w: Walked) {
    forall i :: 0 <= i < |out| ==> out[i].depth < w.depth || (out[i].depth == w.depth && out[i].edge.id < w.edge.id)
  }

  lemma ListingOrder(out: seq<Walked>, elems: set<Walked>, limit: nat)
    requires FirstOf(out, elems, Before, limit)
    ensures ByDepthThenId(out) && |out| <= limit
    ensures forall w :: w in elems && w !in out ==> ComesLater(out, w) && |out| == limit
  {
    forall w | w in elems && w !in out ensures ComesLater(out, w) {
      forall i | 0 <= i < |out| ensures Before(out[i], w) { assert out[i] in out; }
    }
  }

  /** What a caller reads off an outbound listing: no edge twice, each at its least repeat-free depth (1 for
      a loop at the seed), in order of depth and then id, all of them when the limit does not bite, and otherwise
      only later ones left out. */
  lemma OutListingMeaning(g: Relations, s: Node, d: nat, limit: nat, out: seq<Walked>)
    requires UniqueIds(g) && OutListing(g, s, d, limit, out)
    ensures forall i, j :: 0 <= i < j < |out| ==> out[i].edge.id != out[j].edge.id
    ensures forall w :: w in out ==>
      1 <= w.depth <= d && w.edge in g && if SeedLoop(s, w.edge) then w.depth == 1 else LeastSimple(g, s, w.edge, w.depth)
    ensures |out| < limit ==> forall w :: OutEdge(g, s, d, w) ==> w in out
    ensures ByDepthThenId(out) && |out| <= limit
    ensures forall w :: OutEdge(g, s, d, w) && w !in out ==> ComesLater(out, w) && |out| == limit
  {
    OutEdgesExact(g, s, d);
    OutAllExact(g, s, d);
    DedupeOrdered(g, OutAll(g, s, d));
    ListingOrder(out, OutEdges(g, s, d), limit);
    assert forall i :: 0 <= i < |out| ==> out[i] in OutEdges(g, s, d);
    forall w | w in out ensures
      1 <= w.depth <= d && w.edge in g && if SeedLoop(s, w.edge) then w.depth == 1 else LeastSimple(g, s, w.edge, w.depth)
    {
      OutEdgeDepth(g, s, d, w);
      assert OutEdge(g, s, d, w);
    }
  }

  /** The same of an inbound listing, whose depths are those of the reversed graph. */
  lemma InListingMeaning(g: Relations, s: Node, d: nat, limit: nat, out: seq<Walked>)
    requires UniqueIds(g) && InListing(g, s, d, limit, out)
    ensures forall i, j :: 0 <= i < j < |out| ==> out[i].edge.id != out[j].edge.id
    ensures forall w :: w in out ==>
      w.depth <= d && w.edge in g && if SeedLoop(s, w.edge) then w.depth == 1 else LeastSimple(Reversed(g), s, Flip(w.edge), w.depth)
    ensures |out| < limit ==> forall w :: InEdge(g, s, d, w) ==> w in out
    ensures ByDepthThenId(out) && |out| <= limit
    ensures forall w :: InEdge(g, s, d, w) && w !in out ==> ComesLater(out, w) && |out| == limit
  {
    InEdgesExact(g, s, d);
    InAllExact(g, s, d);
    DedupeOrdered(g, InAll(g, s, d));
    ListingOrder(out, InEdges(g, s, d), limit);
    assert forall i :: 0 <= i < |out| ==> out[i] in InEdges(g, s, d);
    forall w | w in out ensures
      w.depth <= d && w.edge in g && if SeedLoop(s, w.edge) then w.depth == 1 else LeastSimple(Reversed(g), s, Flip(w.edge), w.depth)
    {
      assert InEdge(g, s, d, w);
      InIsReversedOut(g, s, d, w);
      OutEdgeDepth(Reversed(g), s, d, Walked(w.depth, Flip(w.edge)));
      FlipMember(g, w.edge);
    }
  }

  /** So a caller cannot tell the combined query from the two separate ones. */
  lemma AroundIsBothWalks(g: Relations, s: Node, d: nat, limit: nat, a: seq<Walked>, b: seq<Walked>)
    requires UniqueIds(g)
    ensures OutListing(g, s, d, limit, a) && OutListing(g, s, d, limit, b) ==> a == b
    ensures InListing(g, s, d, limit, a) && InListing(g, s, d, limit, b) ==> a == b
  {
    OutEdgesExact(g, s, d);
    InEdgesExact(g, s, d);
    if OutListing(g, s, d, limit, a) && OutListing(g, s, d, limit, b) {
      FirstOfUnique(a, b, OutEdges(g, s, d), Before, limit);
    }
    if InListing(g, s, d, limit, a) && InListing(g, s, d, limit, b) {
      FirstOfUnique(a, b, InEdges(g, s, d), Before, limit);
    }
  }
}
