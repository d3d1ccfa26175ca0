/**
 Graph walks of db/src/graph.rs. `relations` is a finite set of edges with unique
 ids; multi-edges and self-loops are allowed.
 */
module Graph {
  import opened Lifecycle

  type Node = nat

  datatype Edge = Edge(id: nat, src: Node, dst: Node, kind: string)

  type Relations = set<Edge>

  ghost predicate UniqueIds(g: Relations) {
    forall e, f :: e in g && f in g && e.id == f.id ==> e == f
  }

  /** The foreign keys of `relations`. */
  ghost predicate Keyed(g: Relations, entities: set<Node>) {
    forall e :: e in g ==> e.src in entities && e.dst in entities
  }

  // ---- Reference: walks ----------------------------------------------------

  predicate Linked(g: Relations, a: Node, b: Node) {
    exists e :: e in g && e.src == a && e.dst == b
  }

  /** A non-empty sequence of nodes, each linked to the next. Nodes may repeat. */
  ghost predicate IsWalk(g: Relations, p: seq<Node>) {
    p != [] && forall i :: 0 <= i < |p| - 1 ==> Linked(g, p[i], p[i + 1])
  }

  ghost predicate Connects(g: Relations, p: seq<Node>, s: Node, d: Node) {
    IsWalk(g, p) && p[0] == s && p[|p| - 1] == d
  }

  ghost predicate Simple(p: seq<Node>) {
    forall i, j :: 0 <= i < j < |p| ==> p[i] != p[j]
  }

  /** `d` is within `hops` of `s`. */
  ghost predicate Within(g: Relations, s: Node, d: Node, hops: nat) {
    exists p :: Connects(g, p, s, d) && |p| <= hops + 1
  }

  /** `hops` is the true hop distance from `s` to `d`. */
  ghost predicate Distance(g: Relations, s: Node, d: Node, hops: nat) {
    && (exists p :: Connects(g, p, s, d) && |p| == hops + 1)
    && (forall q :: Connects(g, q, s, d) ==> |q| >= hops + 1)
  }

  lemma CutCycle(g: Relations, p: seq<Node>, i: nat, j: nat)
    requires IsWalk(g, p) && i < j < |p| && p[i] == p[j]
    ensures Connects(g, p[..i] + p[j..], p[0], p[|p| - 1]) && |p[..i] + p[j..]| < |p|
  {
    var q := p[..i] + p[j..];
    forall k | 0 <= k < |q| - 1 ensures Linked(g, q[k], q[k + 1]) {
      if k < i - 1 {
        assert Linked(g, p[k], p[k + 1]);
      } else if k == i - 1 {
        assert Linked(g, p[k], p[k + 1]);
      } else {
        assert Linked(g, p[k - i + j], p[k - i + j + 1]);
      }
    }
  }

  /** Every walk has a repeat-free walk between the same ends that is no longer. */
  lemma {:induction false} Shorten(g: Relations, p: seq<Node>) returns (q: seq<Node>)
    requires IsWalk(g, p)
    ensures Connects(g, q, p[0], p[|p| - 1]) && Simple(q) && |q| <= |p|
    decreases |p|
  {
    if Simple(p) {
      q := p;
    } else {
      var i, j :| 0 <= i < j < |p| && p[i] == p[j];
      CutCycle(g, p, i, j);
      q := Shorten(g, p[..i] + p[j..]);
    }
  }

  // ---- path ----------------------------------------------------------------

  /** One round of the recursive term: extend every row by every edge to a node not yet on it. */
  function ExtendPaths(g: Relations, rows: set<seq<Node>>): set<seq<Node>> {
    set p, e | p in rows && p != [] && e in g && e.src == p[|p| - 1] && e.dst !in p :: p + [e.dst]
  }

  /** The rows at recursion depth `d`. */
  function PathRows(g: Relations, s: Node, d: nat): set<seq<Node>> {
    if d == 0 then {[s]} else ExtendPaths(g, PathRows(g, s, d - 1))
  }

  /** A repeat-free walk from `s` with `d` hops. */
  ghost predicate SimpleFrom(g: Relations, s: Node, d: nat, p: seq<Node>) {
    IsWalk(g, p) && Simple(p) && p[0] == s && |p| == d + 1
  }

  lemma SimpleSnoc(g: Relations, s: Node, d: nat, p: seq<Node>, x: Node)
    requires |p| == d + 1
    ensures SimpleFrom(g, s, d + 1, p + [x]) <==> SimpleFrom(g, s, d, p) && Linked(g, p[d], x) && x !in p
  {
    var q := p + [x];
    assert forall k :: 0 <= k < |p| ==> q[k] == p[k];
    if SimpleFrom(g, s, d + 1, q) {
      assert Linked(g, q[d], q[d + 1]);
      forall i | 0 <= i < |p| - 1 ensures Linked(g, p[i], p[i + 1]) {
        assert Linked(g, q[i], q[i + 1]);
      }
    }
    if SimpleFrom(g, s, d, p) && Linked(g, p[d], x) && x !in p {
      forall i | 0 <= i < |q| - 1 ensures Linked(g, q[i], q[i + 1]) {
        if i < d { assert Linked(g, p[i], p[i + 1]); }
      }
    }
  }

  lemma ExtendMember(g: Relations, rows: set<seq<Node>>, q: seq<Node>, x: Node)
    ensures q + [x] in ExtendPaths(g, rows) <==> q in rows && q != [] && Linked(g, q[|q| - 1], x) && x !in q
  {
    if q + [x] in ExtendPaths(g, rows) {
      var p, e :| p in rows && p != [] && e in g && e.src == p[|p| - 1] && e.dst !in p && q + [x] == p + [e.dst];
      assert (q + [x])[|q|] == x && (p + [e.dst])[|p|] == e.dst && q == (q + [x])[..|q|] && p == (p + [e.dst])[..|p|];
    }
    if q in rows && q != [] && Linked(g, q[|q| - 1], x) && x !in q {
      var e :| e in g && e.src == q[|q| - 1] && e.dst == x;
    }
  }

  /** The rows at depth `d` are exactly the repeat-free walks with `d` hops. */
  lemma {:induction false} PathRowsExact(g: Relations, s: Node, d: nat, p: seq<Node>)
    ensures p in PathRows(g, s, d) <==> SimpleFrom(g, s, d, p)
    decreases d
  {
    if d == 0 {
      assert p in PathRows(g, s, 0) <==> p == [s];
    } else if p == [] {
    } else {
      var q, x := p[..|p| - 1], p[|p| - 1];
      assert p == q + [x];
      PathRowsExact(g, s, d - 1, q);
      PathRowsStep(g, s, d, q, x);
    }
  }

  lemma PathRowsStep(g: Relations, s: Node, d: nat, q: seq<Node>, x: Node)
    requires d > 0 && (q in PathRows(g, s, d - 1) <==> SimpleFrom(g, s, d - 1, q))
    ensures q + [x] in PathRows(g, s, d) <==> SimpleFrom(g, s, d, q + [x])
  {
    ExtendMember(g, PathRows(g, s, d - 1), q, x);
    if |q| == d { SimpleSnoc(g, s, d - 1, q, x); }
  }

  /** All rows of the recursion up to `maxHops`: the repeat-free walks from `s` that are no longer. */
  method AllPaths(g: Relations, s: Node, maxHops: nat) returns (walk: set<seq<Node>>)
    ensures forall p :: p in walk <==> p != [] && |p| <= maxHops + 1 && SimpleFrom(g, s, |p| - 1, p)
  {
    var working := {[s]};
    walk := working;
    forall p ensures p in walk <==> SimpleFrom(g, s, 0, p) { PathRowsExact(g, s, 0, p); }
    for d := 0 to maxHops
      invariant working == PathRows(g, s, d)
      invariant forall p :: p in walk <==> p != [] && |p| <= d + 1 && SimpleFrom(g, s, |p| - 1, p)
    {
      working := ExtendPaths(g, working);
      forall p ensures p in working <==> SimpleFrom(g, s, d + 1, p) {
        PathRowsExact(g, s, d + 1, p);
      }
      walk := walk + working;
    }
  }

  /** `ORDER BY depth ASC LIMIT 1`. */
  method ShortestOf(hits: set<seq<Node>>) returns (best: seq<Node>)
    requires hits != {}
    ensures best in hits && forall p :: p in hits ==> |best| <= |p|
  {
    best :| best in hits;
    var todo := hits;
    while todo != {}
      invariant todo <= hits && best in hits
      invariant forall p :: p in hits && p !in todo ==> |best| <= |p|
      decreases |todo|
    {
      var p :| p in todo;
      todo := todo - {p};
      if |p| < |best| { best := p; }
    }
  }

  /** The inner join with `entities`, in path order. */
  function JoinEntities(p: seq<Node>, entities: set<Node>): (r: seq<Node>)
    ensures (forall k :: 0 <= k < |p| ==> p[k] in entities) ==> r == p
    ensures (forall k :: 0 <= k < |p| ==> p[k] !in entities) ==> r == []
  {
    if p == [] then []
    else if p[0] in entities then [p[0]] + JoinEntities(p[1..], entities)
    else JoinEntities(p[1..], entities)
  }

  /** With foreign keys, either every node of a walk is an entity or the walk is one unknown node. */
  lemma WalkNodes(g: Relations, entities: set<Node>, p: seq<Node>)
    requires Keyed(g, entities) && IsWalk(g, p)
    ensures if p[0] in entities then forall k :: 0 <= k < |p| ==> p[k] in entities else |p| == 1
  {
    forall k | 0 <= k < |p| && |p| > 1 ensures p[k] in entities {
      if k > 0 { assert Linked(g, p[k - 1], p[k]); } else { assert Linked(g, p[k], p[k + 1]); }
    }
  }

  /** `path`: Some exactly when `d` is within `maxHops` of a known `s`, and then a shortest of all walks. */
  method Path(g: Relations, entities: set<Node>, s: Node, d: Node, maxHops: nat) returns (r: Option<seq<Node>>)
    requires Keyed(g, entities)
    ensures r.Some? <==> s in entities && Within(g, s, d, maxHops)
    ensures r.Some? ==>
      && Connects(g, r.value, s, d) && Simple(r.value)
      && |r.value| <= maxHops + 1 && Distance(g, s, d, |r.value| - 1)
  {
    var walk := AllPaths(g, s, maxHops);
    var hits := set p | p in walk && p != [] && p[|p| - 1] == d;
    ShortestIsListed(g, s, d, maxHops, hits);
    if hits == {} { return None; }
    var best := ShortestOf(hits);
    WalkNodes(g, entities, best);
    var rows := JoinEntities(best, entities);
    if rows == [] { return None; }
    assert Connects(g, best, s, d);
    r := Some(rows);
  }

  /** The visited-set pruning loses nothing: every walk within the budget is matched by a listed row no longer. */
  lemma ShortestIsListed(g: Relations, s: Node, d: Node, maxHops: nat, hits: set<seq<Node>>)
    requires forall p :: p in hits <==> p != [] && |p| <= maxHops + 1 && SimpleFrom(g, s, |p| - 1, p) && p[|p| - 1] == d
    ensures forall p :: Connects(g, p, s, d) && |p| <= maxHops + 1 ==> exists q :: q in hits && |q| <= |p|
    ensures Within(g, s, d, maxHops) <==> hits != {}
  {
    forall p | Connects(g, p, s, d) && |p| <= maxHops + 1 ensures exists q :: q in hits && |q| <= |p| {
      var q := Shorten(g, p);
      assert q in hits;
    }
    if hits != {} {
      var p :| p in hits;
      assert Connects(g, p, s, d);
    }
  }
}
