/**
 The edge walks of db/src/graph.rs: outbound, inbound and both around a seed.
 */
module GraphWalks {
  import opened Graph

  const MAX_WALK_DEPTH: nat := 5

  function ClampWalkDepth(requested: nat): (depth: nat)
    ensures depth == if requested < 5 then requested else 5
  {
    if requested > MAX_WALK_DEPTH then MAX_WALK_DEPTH else requested
  }

  /** One row of a recursive walk: the last edge taken, the hops so far, and the nodes visited in order. */
  datatype Row = Row(edge: Edge, depth: nat, visited: seq<Node>)

  /** One returned edge. */
  datatype Walked = Walked(depth: nat, edge: Edge)

  // ---- The recursive terms -------------------------------------------------

  function OutBase(g: Relations, s: Node): set<Row> {
    set e | e in g && e.src == s :: Row(e, 1, [e.src, e.dst])
  }

  function OutNext(g: Relations, rows: set<Row>): set<Row> {
    set w, e | w in rows && e in g && e.src == w.edge.dst && e.dst !in w.visited :: Row(e, w.depth + 1, w.visited + [e.dst])
  }

  function OutLevel(g: Relations, s: Node, d: nat): set<Row>
    requires d >= 1
  {
    if d == 1 then OutBase(g, s) else OutNext(g, OutLevel(g, s, d - 1))
  }

  function InBase(g: Relations, s: Node): set<Row> {
    set e | e in g && e.dst == s :: Row(e, 1, [e.dst, e.src])
  }

  function InNext(g: Relations, rows: set<Row>): set<Row> {
    set w, e | w in rows && e in g && e.dst == w.edge.src && e.src !in w.visited :: Row(e, w.depth + 1, w.visited + [e.src])
  }

  function InLevel(g: Relations, s: Node, d: nat): set<Row>
    requires d >= 1
  {
    if d == 1 then InBase(g, s) else InNext(g, InLevel(g, s, d - 1))
  }

  /** All rows up to depth `maxDepth`. */
  ghost predicate OutRows(g: Relations, s: Node, maxDepth: nat, r: Row) {
    1 <= r.depth <= maxDepth && r in OutLevel(g, s, r.depth)
  }

  ghost predicate InRows(g: Relations, s: Node, maxDepth: nat, r: Row) {
    1 <= r.depth <= maxDepth && r in InLevel(g, s, r.depth)
  }

  /** `DISTINCT ON (edge_id) ... ORDER BY edge_id, depth ASC`: each edge once, at its least depth. */
  ghost predicate Deduped(rows: Row -> bool, w: Walked) {
    && (exists r :: rows(r) && r.edge == w.edge && r.depth == w.depth)
    && (forall r :: rows(r) && r.edge == w.edge ==> w.depth <= r.depth)
  }

  ghost predicate OutEdge(g: Relations, s: Node, maxDepth: nat, w: Walked) {
    Deduped(r => OutRows(g, s, maxDepth, r), w)
  }

  ghost predicate InEdge(g: Relations, s: Node, maxDepth: nat, w: Walked) {
    Deduped(r => InRows(g, s, maxDepth, r), w)
  }

  // ---- What the rows are ---------------------------------------------------

  /** No node is entered twice, except that the first edge may loop back to the seed. */
  ghost predicate NoReentry(v: seq<Node>) {
    forall j, k :: 0 <= j < k < |v| && k >= 2 ==> v[j] != v[k]
  }

  /** The row's nodes form a walk from the seed whose last step is the row's edge. */
  ghost predicate OutRow(g: Relations, s: Node, r: Row) {
    && r.depth >= 1 && |r.visited| == r.depth + 1
    && IsWalk(g, r.visited) && NoReentry(r.visited) && r.visited[0] == s
    && r.edge in g && r.edge.src == r.visited[r.depth - 1] && r.edge.dst == r.visited[r.depth]
  }

  /** Row `r` extends row `w` by its own edge. */
  predicate Extends(g: Relations, w: Row, r: Row) {
    && r.edge in g && r.edge.src == w.edge.dst && r.edge.dst !in w.visited
    && r == Row(r.edge, w.depth + 1, w.visited + [r.edge.dst])
  }

  lemma OutNextFrom(g: Relations, rows: set<Row>, r: Row) returns (w: Row)
    requires r in OutNext(g, rows)
    ensures w in rows && Extends(g, w, r)
  {
    var w', e :| w' in rows && e in g && e.src == w'.edge.dst && e.dst !in w'.visited && r == Row(e, w'.depth + 1, w'.visited + [e.dst]);
    w := w';
  }

  lemma OutNextHas(g: Relations, rows: set<Row>, w: Row, r: Row)
    requires w in rows && Extends(g, w, r)
    ensures r in OutNext(g, rows)
  {
  }

  /** Dropping the last node of a row's walk leaves a row one level up, whichever parallel edge it took. */
  lemma OutRowInit(g: Relations, s: Node, r: Row) returns (w: Row)
    requires OutRow(g, s, r) && r.depth >= 2
    ensures OutRow(g, s, w) && w.depth == r.depth - 1 && Extends(g, w, r)
  {
    var v := r.visited;
    var d := r.depth;
    assert Linked(g, v[d - 2], v[d - 1]);
    var e :| e in g && e.src == v[d - 2] && e.dst == v[d - 1];
    w := Row(e, d - 1, v[..d]);
    forall i | 0 <= i < |v[..d]| - 1 ensures Linked(g, v[..d][i], v[..d][i + 1]) {
      assert Linked(g, v[i], v[i + 1]);
    }
    assert v == v[..d] + [v[d]];
  }

  lemma OutRowExtend(g: Relations, s: Node, w: Row, r: Row)
    requires OutRow(g, s, w) && Extends(g, w, r)
    ensures OutRow(g, s, r) && r.depth == w.depth + 1
  {
    var v := r.visited;
    forall i | 0 <= i < |v| - 1 ensures Linked(g, v[i], v[i + 1]) {
      if i < |w.visited| - 1 { assert Linked(g, w.visited[i], w.visited[i + 1]); }
    }
  }

  lemma {:induction false} OutLevelSound(g: Relations, s: Node, d: nat, r: Row)
    requires d >= 1 && r in OutLevel(g, s, d)
    ensures OutRow(g, s, r) && r.depth == d
    decreases d
  {
    if d == 1 {
      OutBaseExact(g, s, r);
    } else {
      var w := OutNextFrom(g, OutLevel(g, s, d - 1), r);
      OutLevelSound(g, s, d - 1, w);
      OutRowExtend(g, s, w, r);
    }
  }

  lemma {:induction false} OutLevelComplete(g: Relations, s: Node, r: Row)
    requires OutRow(g, s, r)
    ensures r in OutLevel(g, s, r.depth)
    decreases r.depth
  {
    if r.depth == 1 {
      OutBaseExact(g, s, r);
    } else {
      var w := OutRowInit(g, s, r);
      OutLevelComplete(g, s, w);
      OutNextHas(g, OutLevel(g, s, w.depth), w, r);
    }
  }

  /** The rows of the recursion are exactly the walks from the seed that re-enter no node. */
  lemma OutRowsExact(g: Relations, s: Node, maxDepth: nat, r: Row)
    ensures OutRows(g, s, maxDepth, r) <==> OutRow(g, s, r) && r.depth <= maxDepth
  {
    if OutRows(g, s, maxDepth, r) { OutLevelSound(g, s, r.depth, r); }
    if OutRow(g, s, r) { OutLevelComplete(g, s, r); }
  }

  lemma OutBaseExact(g: Relations, s: Node, r: Row)
    ensures r in OutBase(g, s) <==> OutRow(g, s, r) && r.depth == 1
  {
    if r in OutBase(g, s) {
      assert Linked(g, r.visited[0], r.visited[1]);
    }
    if OutRow(g, s, r) && r.depth == 1 {
      assert r.visited == [r.edge.src, r.edge.dst];
    }
  }

  // ---- Least depth is least repeat-free walk -------------------------------

  /** `v` is a repeat-free walk from `s` whose last step takes edge `e`. */
  ghost predicate SimpleEnd(g: Relations, s: Node, e: Edge, v: seq<Node>) {
    && |v| >= 2 && IsWalk(g, v) && Simple(v) && v[0] == s
    && e in g && e.src == v[|v| - 2] && e.dst == v[|v| - 1]
  }

  /** A repeat-free walk is a row. */
  lemma SimpleEndIsRow(g: Relations, s: Node, e: Edge, v: seq<Node>)
    requires SimpleEnd(g, s, e, v)
    ensures OutRow(g, s, Row(e, |v| - 1, v))
  {
  }

  /** A row is a repeat-free walk, or its first edge loops at the seed and dropping that loop gives one. */
  lemma RowIsSimple(g: Relations, s: Node, r: Row)
    requires OutRow(g, s, r)
    ensures r.visited[0] != r.visited[1] ==> SimpleEnd(g, s, r.edge, r.visited)
    ensures r.visited[0] == r.visited[1] && r.depth >= 2 ==> SimpleEnd(g, s, r.edge, r.visited[1..])
    ensures r.visited[0] == r.visited[1] && r.depth == 1 ==> r.edge.src == s && r.edge.dst == s
  {
    var v := r.visited;
    if v[0] == v[1] && r.depth >= 2 {
      var t := v[1..];
      forall i | 0 <= i < |t| - 1 ensures Linked(g, t[i], t[i + 1]) {
        assert Linked(g, v[i + 1], v[i + 2]);
      }
      assert forall i, j :: 0 <= i < j < |t| ==> t[i] == v[i + 1] && t[j] == v[j + 1];
    }
  }

  ghost predicate SeedLoop(s: Node, e: Edge) {
    e.src == s && e.dst == s
  }

  /** `hops` is the least length of a repeat-free walk from the seed ending in edge `e`. */
  ghost predicate LeastSimple(g: Relations, s: Node, e: Edge, hops: nat) {
    && (exists v :: SimpleEnd(g, s, e, v) && |v| == hops + 1)
    && (forall v :: SimpleEnd(g, s, e, v) ==> hops + 1 <= |v|)
  }

  /** An edge's least row depth is 1 for a loop at the seed and its least repeat-free walk otherwise. */
  lemma OutEdgeDepth(g: Relations, s: Node, maxDepth: nat, w: Walked)
    ensures OutEdge(g, s, maxDepth, w) <==>
      w.depth <= maxDepth && w.edge in g && (if SeedLoop(s, w.edge) then w.depth == 1 else LeastSimple(g, s, w.edge, w.depth))
  {
    var rows := r => OutRows(g, s, maxDepth, r);
    forall r ensures rows(r) <==> OutRow(g, s, r) && r.depth <= maxDepth { OutRowsExact(g, s, maxDepth, r); }
    if SeedLoop(s, w.edge) {
      SeedLoopDepth(g, s, w.edge);
    } else {
      OrdinaryDepth(g, s, w);
    }
  }

  /** A loop at the seed is a row at depth 1 and at no other. */
  lemma SeedLoopDepth(g: Relations, s: Node, e: Edge)
    requires SeedLoop(s, e)
    ensures forall r :: OutRow(g, s, r) && r.edge == e ==> r.depth == 1
    ensures e in g ==> OutRow(g, s, Row(e, 1, [s, s]))
  {
    if e in g { OutBaseExact(g, s, Row(e, 1, [s, s])); }
  }

  /** For any other edge the least row depth is the least repeat-free walk. */
  lemma OrdinaryDepth(g: Relations, s: Node, w: Walked)
    requires !SeedLoop(s, w.edge)
    ensures LeastSimple(g, s, w.edge, w.depth) <==>
      && (exists r :: OutRow(g, s, r) && r.edge == w.edge && r.depth == w.depth)
      && (forall r :: OutRow(g, s, r) && r.edge == w.edge ==> w.depth <= r.depth)
  {
    forall v | SimpleEnd(g, s, w.edge, v) ensures OutRow(g, s, Row(w.edge, |v| - 1, v)) {
      SimpleEndIsRow(g, s, w.edge, v);
    }
    forall r | OutRow(g, s, r) && r.edge == w.edge
      ensures exists v :: SimpleEnd(g, s, w.edge, v) && |v| <= r.depth + 1
    {
      RowIsSimple(g, s, r);
      if r.visited[0] != r.visited[1] {
        assert SimpleEnd(g, s, w.edge, r.visited);
      } else {
        assert SimpleEnd(g, s, w.edge, r.visited[1..]);
      }
    }
  }

  // ---- Destinations and hop distance ---------------------------------------

  /** A shortest walk repeats no node, so its last edge is returned at the hop distance. */
  lemma EdgeAtDistance(g: Relations, s: Node, v: Node, hops: nat, maxDepth: nat) returns (w: Walked)
    requires v != s && Distance(g, s, v, hops) && hops <= maxDepth
    ensures OutEdge(g, s, maxDepth, w) && w.edge.dst == v && w.depth == hops
  {
    var p :| Connects(g, p, s, v) && |p| == hops + 1;
    var q := Shorten(g, p);
    assert |q| == hops + 1 && |q| >= 2;
    assert Linked(g, q[|q| - 2], q[|q| - 1]);
    var e :| e in g && e.src == q[|q| - 2] && e.dst == q[|q| - 1];
    assert SimpleEnd(g, s, e, q);
    w := Walked(hops, e);
    forall u | SimpleEnd(g, s, e, u) ensures hops + 1 <= |u| {
      assert Connects(g, u, s, v);
    }
    OutEdgeDepth(g, s, maxDepth, w);
  }

  /** No edge into a node other than the seed is returned at less than that node's distance. */
  lemma EdgeNotBelowDistance(g: Relations, s: Node, maxDepth: nat, w: Walked)
    requires OutEdge(g, s, maxDepth, w) && w.edge.dst != s
    ensures exists p :: Connects(g, p, s, w.edge.dst) && |p| == w.depth + 1
    ensures forall hops: nat :: Distance(g, s, w.edge.dst, hops) ==> hops <= w.depth
  {
    OutEdgeDepth(g, s, maxDepth, w);
    var v :| SimpleEnd(g, s, w.edge, v) && |v| == w.depth + 1;
    assert Connects(g, v, s, w.edge.dst);
  }

  /** A node within `hops` has a distance, and it is at most `hops`. */
  lemma {:induction false} DistanceExists(g: Relations, s: Node, v: Node, hops: nat) returns (k: nat)
    requires Within(g, s, v, hops)
    ensures k <= hops && Distance(g, s, v, k)
    decreases hops
  {
    if hops > 0 && Within(g, s, v, hops - 1) {
      k := DistanceExists(g, s, v, hops - 1);
    } else {
      k := hops;
      var p :| Connects(g, p, s, v) && |p| <= hops + 1;
      assert forall q :: Connects(g, q, s, v) && |q| <= hops ==> Within(g, s, v, hops - 1);
    }
  }

  /** The destinations other than the seed are exactly the nodes within the depth, and the least depth of
      an edge into such a node is its hop distance. */
  lemma OutDestinations(g: Relations, s: Node, v: Node, maxDepth: nat)
    requires v != s
    ensures (exists w :: OutEdge(g, s, maxDepth, w) && w.edge.dst == v) <==> Within(g, s, v, maxDepth)
    ensures forall hops: nat :: Distance(g, s, v, hops) && hops <= maxDepth ==>
      && (exists w :: OutEdge(g, s, maxDepth, w) && w.edge.dst == v && w.depth == hops)
      && (forall w :: OutEdge(g, s, maxDepth, w) && w.edge.dst == v ==> hops <= w.depth)
  {
    if w :| OutEdge(g, s, maxDepth, w) && w.edge.dst == v {
      EdgeNotBelowDistance(g, s, maxDepth, w);
      OutEdgeDepth(g, s, maxDepth, w);
      assert Within(g, s, v, maxDepth);
    }
    if Within(g, s, v, maxDepth) {
      var k := DistanceExists(g, s, v, maxDepth);
      var w := EdgeAtDistance(g, s, v, k, maxDepth);
    }
    forall hops: nat | Distance(g, s, v, hops) && hops <= maxDepth
      ensures exists w :: OutEdge(g, s, maxDepth, w) && w.edge.dst == v && w.depth == hops
    {
      var w := EdgeAtDistance(g, s, v, hops, maxDepth);
    }
    forall hops: nat, w | Distance(g, s, v, hops) && OutEdge(g, s, maxDepth, w) && w.edge.dst == v ensures hops <= w.depth {
      EdgeNotBelowDistance(g, s, maxDepth, w);
    }
  }

  // ---- The inbound walk is the outbound walk of the reversed graph ---------

  function Flip(e: Edge): Edge {
    e.(src := e.dst, dst := e.src)
  }

  function Reversed(g: Relations): Relations {
    set e | e in g :: Flip(e)
  }

  function FlipRow(r: Row): Row {
    r.(edge := Flip(r.edge))
  }

  lemma FlipMember(g: Relations, e: Edge)
    ensures e in g <==> Flip(e) in Reversed(g)
  {
    if Flip(e) in Reversed(g) {
      var f :| f in g && Flip(f) == Flip(e);
      assert Flip(Flip(f)) == f && Flip(Flip(e)) == e;
    }
  }

  lemma InBaseFlips(g: Relations, s: Node, r: Row)
    ensures r in InBase(g, s) <==> FlipRow(r) in OutBase(Reversed(g), s)
  {
    FlipMember(g, r.edge);
    assert r in InBase(g, s) <==> r.edge in g && r.edge.dst == s && r == Row(r.edge, 1, [r.edge.dst, r.edge.src]);
    var f := FlipRow(r);
    assert f in OutBase(Reversed(g), s) <==> f.edge in Reversed(g) && f.edge.src == s && f == Row(f.edge, 1, [f.edge.src, f.edge.dst]);
  }

  lemma InNextFlips(g: Relations, ins: set<Row>, outs: set<Row>, r: Row)
    requires forall w :: w in ins <==> FlipRow(w) in outs
    ensures r in InNext(g, ins) <==> FlipRow(r) in OutNext(Reversed(g), outs)
  {
    FlipMember(g, r.edge);
    var f := FlipRow(r);
    if r in InNext(g, ins) {
      var w, e :| w in ins && e in g && e.dst == w.edge.src && e.src !in w.visited && r == Row(e, w.depth + 1, w.visited + [e.src]);
      assert Extends(Reversed(g), FlipRow(w), f);
      OutNextHas(Reversed(g), outs, FlipRow(w), f);
    }
    if f in OutNext(Reversed(g), outs) {
      var u := OutNextFrom(Reversed(g), outs, f);
      assert FlipRow(FlipRow(u)) == u;
      var w := FlipRow(u);
      assert w in ins && r == Row(r.edge, w.depth + 1, w.visited + [r.edge.src]);
    }
  }

  lemma {:induction false} InLevelFlips(g: Relations, s: Node, d: nat, r: Row)
    requires d >= 1
    ensures r in InLevel(g, s, d) <==> FlipRow(r) in OutLevel(Reversed(g), s, d)
    decreases d
  {
    if d == 1 {
      InBaseFlips(g, s, r);
    } else {
      forall w ensures w in InLevel(g, s, d - 1) <==> FlipRow(w) in OutLevel(Reversed(g), s, d - 1) {
        InLevelFlips(g, s, d - 1, w);
      }
      InNextFlips(g, InLevel(g, s, d - 1), OutLevel(Reversed(g), s, d - 1), r);
    }
  }

  /** The inbound walk returns an edge exactly where the outbound walk of the reversed graph returns its
      reverse, at the same depth; the edge itself keeps its stored orientation. */
  lemma InIsReversedOut(g: Relations, s: Node, maxDepth: nat, w: Walked)
    ensures InEdge(g, s, maxDepth, w) <==> OutEdge(Reversed(g), s, maxDepth, Walked(w.depth, Flip(w.edge)))
  {
    forall r ensures InRows(g, s, maxDepth, r) <==> OutRows(Reversed(g), s, maxDepth, FlipRow(r)) {
      if 1 <= r.depth { InLevelFlips(g, s, r.depth, r); }
    }
    var w' := Walked(w.depth, Flip(w.edge));
    assert Flip(Flip(w.edge)) == w.edge;
    assert forall r: Row :: FlipRow(FlipRow(r)) == r;
    if InEdge(g, s, maxDepth, w) {
      var r :| InRows(g, s, maxDepth, r) && r.edge == w.edge && r.depth == w.depth;
      assert OutRows(Reversed(g), s, maxDepth, FlipRow(r)) && FlipRow(r).edge == w'.edge;
      forall q | OutRows(Reversed(g), s, maxDepth, q) && q.edge == w'.edge ensures w.depth <= q.depth {
        assert InRows(g, s, maxDepth, FlipRow(q));
      }
    }
    if OutEdge(Reversed(g), s, maxDepth, w') {
      var q :| OutRows(Reversed(g), s, maxDepth, q) && q.edge == w'.edge && q.depth == w.depth;
      assert InRows(g, s, maxDepth, FlipRow(q)) && FlipRow(q).edge == w.edge;
    }
  }
}
