/** All-pairs shortest distances as floydwarshall of graphproblems.py computes them, in place, in any vertex order. */
module FloydWarshall {
  import opened Common
  import opened Graphs

  type Pair = (Vertex, Vertex)

  /** What the algorithm is for: edges to vertices of the graph, weights from 0 to 1000, no self loops. */
  predicate Suitable(g: Graph) {
    Closed(g) && NonNegative(g) && forall u :: u in g ==> forall v :: v in g[u] ==> u != v && g[u][v] <= INFINITY
  }

  /** The vertices between the two ends of p are in t. */
  predicate Via(p: seq<Vertex>, t: set<Vertex>) {
    forall i :: 0 < i < |p| - 1 ==> p[i] in t
  }

  /** No path from u to v through t is shorter than d. */
  ghost predicate Bounds(g: Graph, t: set<Vertex>, u: Vertex, v: Vertex, d: int) {
    forall p :: Joins(g, p, u, v) && Via(p, t) ==> Length(g, p) >= d
  }

  /** A path of length d whose last step comes from the recorded predecessor. */
  ghost predicate Route(g: Graph, u: Vertex, v: Vertex, d: int, last: Option<Vertex>, p: seq<Vertex>) {
    Joins(g, p, u, v) && Length(g, p) == d && (u != v ==> |p| >= 2 && last == Some(p[|p| - 2]))
  }

  ghost predicate Sound(g: Graph, u: Vertex, v: Vertex, d: int, last: Option<Vertex>) {
    0 <= d <= INFINITY && (u == v ==> d == 0) && (d < INFINITY ==> exists p :: Route(g, u, v, d, last, p))
  }

  /** There is no predecessor on the diagonal, and none at distance 1000 unless an edge has that weight. */
  predicate Marked(g: Graph, u: Vertex, v: Vertex, d: int, last: Option<Vertex>) {
    && u in g
    && (last.None? <==> u == v || (d == INFINITY && v !in g[u]))
    && (u != v && d == INFINITY && v in g[u] ==> last == Some(u))
  }

  /** Every entry of the two tables is the length of a path, or 1000. */
  ghost predicate Tables(g: Graph, dist: map<Pair, int>, pred: map<Pair, Option<Vertex>>) {
    forall u, v :: u in g && v in g ==>
      && (u, v) in dist && (u, v) in pred
      && Sound(g, u, v, dist[(u, v)], pred[(u, v)]) && Marked(g, u, v, dist[(u, v)], pred[(u, v)])
  }

  /** Entries take the vertices of t into account, those seen in this round also take s. */
  ghost predicate Bounded(g: Graph, t: set<Vertex>, s: Vertex, seen: set<Pair>, dist: map<Pair, int>) {
    forall u, v :: u in g && v in g ==>
      && (u, v) in dist && Bounds(g, t, u, v, dist[(u, v)])
      && ((u, v) in seen ==> Bounds(g, t + {s}, u, v, dist[(u, v)]))
  }

  lemma {:induction false} Concatenate(g: Graph, p: seq<Vertex>, q: seq<Vertex>)
    requires IsPath(g, p) && IsPath(g, q) && p[|p| - 1] == q[0]
    ensures IsPath(g, p + q[1..]) && Length(g, p + q[1..]) == Length(g, p) + Length(g, q)
    decreases |q|
  {
    if |q| == 1 {
      assert p + q[1..] == p;
    } else {
      var r := q[..|q| - 1];
      Concatenate(g, p, r);
      assert p + q[1..] == (p + r[1..]) + [q[|q| - 1]];
      PathAppend(g, p + r[1..], q[|q| - 1]);
    }
  }

  /** A path through t and s avoids s, or contains a way to s and a way from s, both through t alone. */
  lemma {:induction false} Split(g: Graph, t: set<Vertex>, s: Vertex, p: seq<Vertex>)
    returns (a: seq<Vertex>, b: seq<Vertex>)
    requires NonNegative(g) && IsPath(g, p) && Via(p, t + {s})
    ensures Via(p, t) ||
      (&& Joins(g, a, p[0], s) && Via(a, t) && Joins(g, b, s, p[|p| - 1]) && Via(b, t)
       && Length(g, a) + Length(g, b) <= Length(g, p))
    decreases |p|
  {
    a, b := [], [];
    if |p| > 2 {
      var q, v := p[..|p| - 1], p[|p| - 1];
      var x := q[|q| - 1];
      assert x in t + {s};
      a, b := Split(g, t, s, q);
      LengthNonNegative(g, q);
      if Via(q, t) {
        if x == s {
          assert IsPath(g, [s]);
          PathAppend(g, [s], v);
          assert [s] + [v] == [s, v];
          a, b := q, [s, v];
        } else {
          assert forall i :: 0 < i < |p| - 1 ==> i < |q| - 1 || p[i] == x;
        }
      } else if x == s {
        LengthNonNegative(g, b);
        PathAppend(g, [s], v);
        assert [s] + [v] == [s, v];
        b := [s, v];
      } else {
        PathAppend(g, b, v);
        b := b + [v];
      }
    }
  }

  /** Going through s is counted once the detour over s is. */
  lemma {:induction false} DetourBounds(g: Graph, t: set<Vertex>, s: Vertex, u: Vertex, v: Vertex, us: int, sv: int,
                                        d: int)
    requires NonNegative(g) && Bounds(g, t, u, s, us) && Bounds(g, t, s, v, sv) && Bounds(g, t, u, v, d) && d <= us + sv
    ensures Bounds(g, t + {s}, u, v, d)
  {
    forall p | Joins(g, p, u, v) && Via(p, t + {s}) ensures Length(g, p) >= d {
      var a, b := Split(g, t, s, p);
    }
  }

  lemma {:induction false} DetourRoute(g: Graph, u: Vertex, s: Vertex, v: Vertex, us: int, sv: int,
                                       toS: Option<Vertex>, toV: Option<Vertex>)
    requires Sound(g, u, s, us, toS) && Sound(g, s, v, sv, toV) && us + sv < INFINITY && u != v && s != v
    ensures Sound(g, u, v, us + sv, toV)
  {
    var p :| Route(g, u, s, us, toS, p);
    var q :| Route(g, s, v, sv, toV, q);
    Concatenate(g, p, q);
    var r := p + q[1..];
    assert r[|r| - 1] == q[|q| - 1] && r[|r| - 2] == q[|q| - 2];
    assert Route(g, u, v, us + sv, toV, r);
  }

  lemma {:induction false} Lower(g: Graph, t: set<Vertex>, u: Vertex, v: Vertex, d: int, d': int)
    requires d' <= d
    ensures Bounds(g, t, u, v, d) ==> Bounds(g, t, u, v, d')
  {
  }

  /** One assignment of the innermost loop. */
  method Relax(g: Graph, ghost t: set<Vertex>, s: Vertex, ghost seen: set<Pair>, u: Vertex, v: Vertex,
               dist: map<Pair, int>, pred: map<Pair, Option<Vertex>>)
    returns (dist': map<Pair, int>, pred': map<Pair, Option<Vertex>>)
    requires NonNegative(g) && s in g && u in g && v in g
    requires Tables(g, dist, pred) && Bounded(g, t, s, seen, dist)
    ensures Tables(g, dist', pred') && Bounded(g, t, s, seen + {(u, v)}, dist')
  {
    hide Bounds, NonNegative;
    dist', pred' := dist, pred;
    ghost var us, sv := dist[(u, s)], dist[(s, v)];
    var newdist := dist[(u, s)] + dist[(s, v)];
    assert Sound(g, u, s, us, pred[(u, s)]) && Sound(g, s, v, sv, pred[(s, v)]);
    assert Sound(g, u, v, dist[(u, v)], pred[(u, v)]) && Marked(g, s, v, sv, pred[(s, v)]);
    if newdist < dist[(u, v)] {
      DetourRoute(g, u, s, v, us, sv, pred[(u, s)], pred[(s, v)]);
      dist', pred' := dist[(u, v) := newdist], pred[(u, v) := pred[(s, v)]];
      Lower(g, t, u, v, dist[(u, v)], newdist);
      Lower(g, t + {s}, u, v, dist[(u, v)], newdist);
    }
    hide Sound;
    DetourBounds(g, t, s, u, v, us, sv, dist'[(u, v)]);
  }

  // ---------------------------------------------------------------- initial tables

  /** The entry copied from the graph. */
  function FirstDist(g: Graph, u: Vertex, v: Vertex): int
    requires u in g
  {
    if v in g[u] then g[u][v] else if u == v then 0 else INFINITY
  }

  function FirstPred(g: Graph, u: Vertex, v: Vertex): Option<Vertex>
    requires u in g
  {
    if v in g[u] then Some(u) else None
  }

  ghost predicate RowCopied(g: Graph, u: Vertex, dist: map<Pair, int>, pred: map<Pair, Option<Vertex>>) {
    u in g && forall v :: v in g ==>
      (u, v) in dist && (u, v) in pred && dist[(u, v)] == FirstDist(g, u, v) && pred[(u, v)] == FirstPred(g, u, v)
  }

  lemma {:induction false} ShortPath(g: Graph, p: seq<Vertex>)
    requires IsPath(g, p) && Via(p, {})
    ensures |p| == 1 || (|p| == 2 && Edge(g, p[0], p[1]) && Length(g, p) == g[p[0]][p[1]])
  {
    var middle := p[|p| / 2];
    assert |p| <= 2;
    if |p| == 2 {
      assert p[..1] == [p[0]];
    }
  }

  lemma {:induction false} CopyEntry(g: Graph, u: Vertex, v: Vertex)
    requires Suitable(g) && u in g && v in g
    ensures Bounds(g, {}, u, v, FirstDist(g, u, v)) && Sound(g, u, v, FirstDist(g, u, v), FirstPred(g, u, v))
    ensures Marked(g, u, v, FirstDist(g, u, v), FirstPred(g, u, v))
  {
    forall p | Joins(g, p, u, v) && Via(p, {}) ensures Length(g, p) >= FirstDist(g, u, v) {
      ShortPath(g, p);
    }
    if v in g[u] {
      PathAppend(g, [u], v);
      assert Route(g, u, v, FirstDist(g, u, v), Some(u), [u] + [v]);
    } else if u == v {
      assert Route(g, u, v, 0, None, [u]);
    }
  }

  lemma {:induction false} CopyIsSound(g: Graph, s: Vertex, dist: map<Pair, int>, pred: map<Pair, Option<Vertex>>)
    requires Suitable(g) && forall u :: u in g ==> RowCopied(g, u, dist, pred)
    ensures Tables(g, dist, pred) && Bounded(g, {}, s, {}, dist)
  {
    hide Bounds, Sound, Suitable, Marked;
    forall u, v | u in g && v in g
      ensures (u, v) in dist && (u, v) in pred
      ensures Sound(g, u, v, dist[(u, v)], pred[(u, v)]) && Bounds(g, {}, u, v, dist[(u, v)])
      ensures Marked(g, u, v, dist[(u, v)], pred[(u, v)])
    {
      assert RowCopied(g, u, dist, pred);
      CopyEntry(g, u, v);
    }
  }

  ghost predicate OtherRowsKept(u: Vertex, dist: map<Pair, int>, pred: map<Pair, Option<Vertex>>,
                                dist': map<Pair, int>, pred': map<Pair, Option<Vertex>>)
  {
    forall x, y :: x != u ==>
      && ((x, y) in dist ==> (x, y) in dist' && dist'[(x, y)] == dist[(x, y)])
      && ((x, y) in pred ==> (x, y) in pred' && pred'[(x, y)] == pred[(x, y)])
  }

  /** The row of u: 1000 everywhere, 0 on the diagonal, then the edges out of u. */
  method CopyRow(g: Graph, u: Vertex, dist: map<Pair, int>, pred: map<Pair, Option<Vertex>>)
    returns (dist': map<Pair, int>, pred': map<Pair, Option<Vertex>>)
    requires Closed(g) && u in g
    ensures RowCopied(g, u, dist', pred')
    ensures forall x :: x != u && RowCopied(g, x, dist, pred) ==> RowCopied(g, x, dist', pred')
  {
    dist', pred' := dist, pred;
    var todo: set<Vertex> := g.Keys;
    while todo != {}
      invariant todo <= g.Keys
      invariant forall v :: v in g && v !in todo ==>
        (u, v) in dist' && (u, v) in pred' && dist'[(u, v)] == 1000 && pred'[(u, v)] == None
      invariant OtherRowsKept(u, dist, pred, dist', pred')
      decreases todo
    {
      Inhabited(todo);
      var v :| v in todo;
      dist', pred' := dist'[(u, v) := 1000], pred'[(u, v) := None];
      todo := todo - {v};
    }
    dist' := dist'[(u, u) := 0];
    todo := g[u].Keys;
    while todo != {}
      invariant todo <= g[u].Keys
      invariant forall v :: v in g ==> (u, v) in dist' && (u, v) in pred'
      invariant forall v :: v in g && v in g[u] && v !in todo ==> dist'[(u, v)] == g[u][v] && pred'[(u, v)] == Some(u)
      invariant forall v :: v in g && v !in g[u] ==>
        dist'[(u, v)] == (if u == v then 0 else 1000) && pred'[(u, v)] == None
      invariant OtherRowsKept(u, dist, pred, dist', pred')
      decreases todo
    {
      Inhabited(todo);
      var v :| v in todo;
      dist', pred' := dist'[(u, v) := g[u][v]], pred'[(u, v) := Some(u)];
      todo := todo - {v};
    }
  }

  // ---------------------------------------------------------------- the three loops

  /** The innermost loop: every v, for one t and one u. */
  method RelaxRow(g: Graph, ghost t: set<Vertex>, s: Vertex, ghost seen: set<Pair>, u: Vertex,
                  dist: map<Pair, int>, pred: map<Pair, Option<Vertex>>)
    returns (dist': map<Pair, int>, pred': map<Pair, Option<Vertex>>, ghost seen': set<Pair>)
    requires NonNegative(g) && s in g && u in g
    requires Tables(g, dist, pred) && Bounded(g, t, s, seen, dist)
    ensures Tables(g, dist', pred') && Bounded(g, t, s, seen', dist')
    ensures seen <= seen' && forall v :: v in g ==> (u, v) in seen'
  {
    hide Tables, Bounded, NonNegative;
    dist', pred', seen' := dist, pred, seen;
    var todo: set<Vertex> := g.Keys;
    while todo != {}
      invariant todo <= g.Keys
      invariant Tables(g, dist', pred') && Bounded(g, t, s, seen', dist')
      invariant seen <= seen' && forall v :: v in g && v !in todo ==> (u, v) in seen'
      decreases todo
    {
      Inhabited(todo);
      var v :| v in todo;
      dist', pred' := Relax(g, t, s, seen', u, v, dist', pred');
      seen' := seen' + {(u, v)};
      todo := todo - {v};
    }
  }

  /** The two inner loops: every pair, for one t. */
  method RelaxAll(g: Graph, ghost t: set<Vertex>, s: Vertex, dist: map<Pair, int>, pred: map<Pair, Option<Vertex>>)
    returns (dist': map<Pair, int>, pred': map<Pair, Option<Vertex>>)
    requires NonNegative(g) && s in g && Tables(g, dist, pred) && Bounded(g, t, s, {}, dist)
    ensures Tables(g, dist', pred') && forall s' :: Bounded(g, t + {s}, s', {}, dist')
  {
    hide Tables, NonNegative, Bounds;
    dist', pred' := dist, pred;
    var todo: set<Vertex> := g.Keys;
    ghost var seen: set<Pair> := {};
    while todo != {}
      invariant todo <= g.Keys
      invariant Tables(g, dist', pred') && Bounded(g, t, s, seen, dist')
      invariant forall u, v :: u in g && v in g && u !in todo ==> (u, v) in seen
      decreases todo
    {
      Inhabited(todo);
      var u :| u in todo;
      dist', pred', seen := RelaxRow(g, t, s, seen, u, dist', pred');
      todo := todo - {u};
    }
  }

  /** d is the smaller of 1000 and the length of a shortest path from u to v. */
  ghost predicate Exact(g: Graph, u: Vertex, v: Vertex, d: int) {
    && d <= INFINITY
    && (forall p :: Joins(g, p, u, v) ==> Length(g, p) >= d)
    && (d < INFINITY ==> exists p :: Joins(g, p, u, v) && Length(g, p) == d)
  }

  /** The last step of the route recorded for u and v: an edge, after a shortest way to its start. */
  ghost predicate LastStep(g: Graph, u: Vertex, v: Vertex, dist: map<Pair, int>, pred: map<Pair, Option<Vertex>>) {
    && (u, v) in pred && (u, v) in dist && pred[(u, v)].Some?
    && var x := pred[(u, v)].value;
      Edge(g, x, v) && (u, x) in dist && dist[(u, v)] == dist[(u, x)] + g[x][v]
  }

  lemma {:induction false} InGraph(g: Graph, p: seq<Vertex>)
    requires IsPath(g, p)
    ensures Via(p, g.Keys)
    decreases |p|
  {
    if |p| > 1 {
      var q := p[..|p| - 1];
      InGraph(g, q);
      if |q| > 1 {
        assert IsPath(g, q[..|q| - 1]) && Edge(g, q[|q| - 1], p[|p| - 1]);
      }
      assert forall i :: 0 < i < |p| - 1 ==> (0 < i < |q| - 1 && p[i] == q[i]) || p[i] == q[|q| - 1];
    }
  }

  lemma {:induction false} AllVertices(g: Graph, u: Vertex, v: Vertex, d: int, last: Option<Vertex>)
    requires Bounds(g, g.Keys, u, v, d) && Sound(g, u, v, d, last)
    ensures Exact(g, u, v, d)
  {
    forall p | Joins(g, p, u, v) ensures Length(g, p) >= d {
      InGraph(g, p);
    }
    if d < INFINITY {
      var p :| Route(g, u, v, d, last, p);
    }
  }

  lemma {:induction false} RecordedStep(g: Graph, u: Vertex, v: Vertex, dist: map<Pair, int>,
                                        pred: map<Pair, Option<Vertex>>)
    requires Suitable(g) && Tables(g, dist, pred) && u in g && v in g && u != v && dist[(u, v)] < INFINITY
    requires forall x, y :: x in g && y in g ==> Exact(g, x, y, dist[(x, y)])
    ensures LastStep(g, u, v, dist, pred)
  {
    assert Sound(g, u, v, dist[(u, v)], pred[(u, v)]);
    var p :| Route(g, u, v, dist[(u, v)], pred[(u, v)], p);
    var q, x := p[..|p| - 1], p[|p| - 2];
    assert Joins(g, q, u, x) && Edge(g, x, v);
    assert Length(g, p) == Length(g, q) + g[x][v];
    assert Exact(g, u, x, dist[(u, x)]) && Exact(g, u, v, dist[(u, v)]);
    var r :| Joins(g, r, u, x) && Length(g, r) == dist[(u, x)];
    PathAppend(g, r, v);
    assert Joins(g, r + [v], u, v);
  }

  lemma {:induction false} Finished(g: Graph, dist: map<Pair, int>, pred: map<Pair, Option<Vertex>>)
    requires Suitable(g) && Tables(g, dist, pred) && forall s :: Bounded(g, g.Keys, s, {}, dist)
    ensures forall u, v :: u in g && v in g ==> (u, v) in dist && Exact(g, u, v, dist[(u, v)])
    ensures forall u, v :: u in g && v in g && u != v && dist[(u, v)] < INFINITY ==> LastStep(g, u, v, dist, pred)
    ensures forall u, v :: u in g && v in g ==> (u, v) in pred && Marked(g, u, v, dist[(u, v)], pred[(u, v)])
  {
    hide Sound, Bounds, Exact, LastStep, Suitable, Marked;
    assert Bounded(g, g.Keys, 0, {}, dist);
    forall u, v | u in g && v in g ensures (u, v) in dist && Exact(g, u, v, dist[(u, v)]) {
      AllVertices(g, u, v, dist[(u, v)], pred[(u, v)]);
    }
    forall u, v | u in g && v in g && u != v && dist[(u, v)] < INFINITY ensures LastStep(g, u, v, dist, pred) {
      RecordedStep(g, u, v, dist, pred);
    }
  }

  method FloydWarshall(g: Graph) returns (dist: map<Pair, int>, pred: map<Pair, Option<Vertex>>)
    requires Suitable(g)
    ensures forall u, v :: u in g && v in g ==> (u, v) in dist && Exact(g, u, v, dist[(u, v)])
    ensures forall u, v :: u in g && v in g && u != v && dist[(u, v)] < INFINITY ==> LastStep(g, u, v, dist, pred)
    ensures forall u, v :: u in g && v in g ==> (u, v) in pred && Marked(g, u, v, dist[(u, v)], pred[(u, v)])
  {
    hide Tables, Bounded, NonNegative, Bounds, Exact, LastStep, RowCopied, Marked;
    dist, pred := map[], map[];
    var todo: set<Vertex> := g.Keys;
    while todo != {}
      invariant todo <= g.Keys
      invariant forall u :: u in g && u !in todo ==> RowCopied(g, u, dist, pred)
      decreases todo
    {
      Inhabited(todo);
      var u :| u in todo;
      dist, pred := CopyRow(g, u, dist, pred);
      todo := todo - {u};
    }
    todo := g.Keys;
    ghost var t: set<Vertex> := {};
    forall s ensures Tables(g, dist, pred) && Bounded(g, {}, s, {}, dist) {
      CopyIsSound(g, s, dist, pred);
    }
    CopyIsSound(g, 0, dist, pred);
    while todo != {}
      invariant todo <= g.Keys && t == g.Keys - todo
      invariant Tables(g, dist, pred) && forall s :: Bounded(g, t, s, {}, dist)
      decreases todo
    {
      Inhabited(todo);
      var s :| s in todo;
      dist, pred := RelaxAll(g, t, s, dist, pred);
      t := t + {s};
      todo := todo - {s};
    }
    assert t == g.Keys;
    Finished(g, dist, pred);
  }
}
