/** Dijkstra's algorithm as in graphproblems.py: a dictionary as the queue, popmin by linear scan. */
module Dijkstra {
  import opened Common
  import opened Graphs

  datatype Result = KeyError | Found(dist: map<Vertex, int>, pred: map<Vertex, Option<Vertex>>)

  /** Entries of the three dictionaries while the vertices `done` have been popped. */
  ghost predicate Tables(g: Graph, start: Vertex, done: set<Vertex>, pqueue: map<Vertex, int>, dist: map<Vertex, int>,
                         pred: map<Vertex, Option<Vertex>>)
  {
    && start in g && dist.Keys == pred.Keys == g.Keys
    && pqueue.Keys == g.Keys - done && done <= g.Keys
    && (forall v :: v in pqueue ==> pqueue[v] == dist[v])
    && dist[start] == 0 && pred[start].None?
    && (forall v :: v in g ==> 0 <= dist[v] <= INFINITY)
    && (forall v :: v in g && v != start && pred[v].None? ==> dist[v] == INFINITY)
    && (forall v :: v in g && pred[v].Some? ==>
          var u := pred[v].value;
          v != start && u in done && u != v && Edge(g, u, v) && dist[v] == dist[u] + g[u][v] && dist[v] < INFINITY)
  }

  /** Popped vertices are the nearest ones. */
  ghost predicate Nearest(g: Graph, done: set<Vertex>, dist: map<Vertex, int>)
    requires dist.Keys == g.Keys
  {
    forall u, v :: u in done && u in g && v in g && v !in done ==> dist[u] <= dist[v]
  }

  /** Edges out of u have been looked at. */
  predicate Relaxed(g: Graph, u: Vertex, dist: map<Vertex, int>) {
    u in g && u in dist && forall v :: v in g[u] && v in dist ==> dist[v] <= dist[u] + g[u][v]
  }

  /** No path from start to v is shorter than d. */
  ghost predicate AtLeast(g: Graph, start: Vertex, v: Vertex, d: int) {
    forall p :: Joins(g, p, start, v) ==> Length(g, p) >= d
  }

  ghost predicate Settled(g: Graph, start: Vertex, done: set<Vertex>, dist: map<Vertex, int>) {
    forall u :: u in done ==> Relaxed(g, u, dist) && AtLeast(g, start, u, dist[u])
  }

  lemma {:induction false} LeavingCosts(g: Graph, start: Vertex, done: set<Vertex>, dist: map<Vertex, int>, m: int,
                                        p: seq<Vertex>)
    requires Closed(g) && NonNegative(g) && dist.Keys == g.Keys && done <= g.Keys
    requires start in done && Settled(g, start, done, dist)
    requires forall v :: v in g && v !in done ==> dist[v] >= m
    requires IsPath(g, p) && p[0] == start && p[|p| - 1] !in done
    ensures Length(g, p) >= m
    decreases |p|
  {
    var q := p[..|p| - 1];
    var a, b := q[|q| - 1], p[|p| - 1];
    if a in done {
      assert Joins(g, q, start, a);
    } else {
      LeavingCosts(g, start, done, dist, m, q);
    }
  }

  /** The state between two pops. */
  ghost predicate Inv(g: Graph, start: Vertex, done: set<Vertex>, pqueue: map<Vertex, int>, dist: map<Vertex, int>,
                      pred: map<Vertex, Option<Vertex>>)
  {
    && Tables(g, start, done, pqueue, dist, pred)
    && Nearest(g, done, dist)
    && Settled(g, start, done, dist)
    && (done != {} ==> start in done)
  }

  /** The vertex popmin takes has its final distance. */
  lemma {:induction false} PoppedIsFinal(g: Graph, start: Vertex, done: set<Vertex>, pqueue: map<Vertex, int>,
                                         dist: map<Vertex, int>, pred: map<Vertex, Option<Vertex>>, u: Vertex)
    requires Closed(g) && NonNegative(g) && Inv(g, start, done, pqueue, dist, pred)
    requires u in pqueue && pqueue[u] < INFINITY && forall k :: k in pqueue ==> pqueue[u] <= pqueue[k]
    ensures AtLeast(g, start, u, dist[u]) && (done == {} ==> u == start)
    ensures forall v :: v in done ==> dist[v] <= dist[u]
  {
    forall p | Joins(g, p, start, u) ensures Length(g, p) >= dist[u] {
      if done == {} {
        LengthNonNegative(g, p);
      } else {
        LeavingCosts(g, start, done, dist, dist[u], p);
      }
    }
  }

  /** When popmin finds nothing below 1000, what is left is out of reach. */
  lemma {:induction false} LeftIsFar(g: Graph, start: Vertex, done: set<Vertex>, pqueue: map<Vertex, int>,
                                     dist: map<Vertex, int>, pred: map<Vertex, Option<Vertex>>, v: Vertex)
    requires Closed(g) && NonNegative(g) && Inv(g, start, done, pqueue, dist, pred)
    requires v in pqueue && forall k :: k in pqueue ==> pqueue[k] >= INFINITY
    ensures AtLeast(g, start, v, INFINITY)
  {
    assert start in done;
    forall p | Joins(g, p, start, v) ensures Length(g, p) >= INFINITY {
      LeavingCosts(g, start, done, dist, INFINITY, p);
    }
  }

  /** Within the scan of the neighbours of u: `todo` are those not looked at yet. */
  ghost predicate Scanning(g: Graph, start: Vertex, done: set<Vertex>, u: Vertex, todo: set<Vertex>,
                           pqueue: map<Vertex, int>, dist: map<Vertex, int>, pred: map<Vertex, Option<Vertex>>)
  {
    && u in g && u !in done
    && Tables(g, start, done + {u}, pqueue, dist, pred)
    && Nearest(g, done + {u}, dist)
    && Settled(g, start, done, dist)
    && (forall v :: v in done ==> dist[v] <= dist[u])
    && AtLeast(g, start, u, dist[u])
    && (forall v :: v in g[u] && v !in todo && v in dist ==> dist[v] <= dist[u] + g[u][v])
  }

  lemma {:induction false} StartScan(g: Graph, start: Vertex, done: set<Vertex>, pqueue: map<Vertex, int>,
                                     dist: map<Vertex, int>, pred: map<Vertex, Option<Vertex>>, u: Vertex)
    requires Closed(g) && NonNegative(g) && Inv(g, start, done, pqueue, dist, pred)
    requires u in pqueue && pqueue[u] < INFINITY && forall k :: k in pqueue ==> pqueue[u] <= pqueue[k]
    ensures Scanning(g, start, done, u, g[u].Keys, pqueue - {u}, dist, pred)
    ensures u !in done && (if done == {} then u == start else start in done)
    ensures u in dist && u in pred && dist[u] < INFINITY && (pred[u].Some? ==> pred[u].value in done)
    ensures forall v :: v in done ==> v in dist && dist[v] <= dist[u]
  {
    PoppedIsFinal(g, start, done, pqueue, dist, pred, u);
    assert g.Keys - (done + {u}) == (g.Keys - done) - {u};
  }

  lemma {:induction false} ShortenTables(g: Graph, start: Vertex, done: set<Vertex>, u: Vertex, v: Vertex, d: int,
                                         pqueue: map<Vertex, int>, dist: map<Vertex, int>,
                                         pred: map<Vertex, Option<Vertex>>)
    requires Tables(g, start, done, pqueue, dist, pred)
    requires u in done && Edge(g, u, v) && v in g && v !in done
    requires d == dist[u] + g[u][v] && 0 <= d < dist[v]
    ensures v in pqueue && Tables(g, start, done, pqueue[v := d], dist[v := d], pred[v := Some(u)])
  {
    assert v in pqueue.Keys;
    assert pqueue[v := d].Keys == pqueue.Keys;
    assert dist[v := d].Keys == dist.Keys && pred[v := Some(u)].Keys == pred.Keys;
  }

  lemma {:induction false} ShortenSettled(g: Graph, start: Vertex, done: set<Vertex>, v: Vertex, d: int,
                                          dist: map<Vertex, int>)
    requires Settled(g, start, done, dist) && v !in done && v in dist && d <= dist[v]
    ensures Settled(g, start, done, dist[v := d])
  {
    hide AtLeast;
    forall x | x in done ensures Relaxed(g, x, dist[v := d]) && AtLeast(g, start, x, dist[v := d][x]) {
      assert Relaxed(g, x, dist);
    }
  }

  lemma {:induction false} ShortenNearest(g: Graph, done: set<Vertex>, v: Vertex, d: int, dist: map<Vertex, int>)
    requires dist.Keys == g.Keys && Nearest(g, done, dist)
    requires v in g && v !in done && d <= dist[v] && forall x :: x in done && x in g ==> dist[x] <= d
    ensures dist[v := d].Keys == g.Keys && Nearest(g, done, dist[v := d])
  {
  }

  /** A vertex that u brings nearer has not been popped. */
  lemma {:induction false} StillQueued(g: Graph, start: Vertex, done: set<Vertex>, u: Vertex, v: Vertex,
                                       pqueue: map<Vertex, int>, dist: map<Vertex, int>,
                                       pred: map<Vertex, Option<Vertex>>)
    requires Closed(g) && NonNegative(g) && Tables(g, start, done, pqueue, dist, pred)
    requires u in done && Edge(g, u, v) && v in g && dist[u] + g[u][v] < dist[v]
    requires forall x :: x in done ==> dist[x] <= dist[u]
    ensures v !in done && 0 <= dist[u] <= dist[u] + g[u][v]
  {
  }

  lemma {:induction false} InTables(g: Graph, start: Vertex, done: set<Vertex>, u: Vertex, todo: set<Vertex>,
                                    pqueue: map<Vertex, int>, dist: map<Vertex, int>, pred: map<Vertex, Option<Vertex>>)
    requires Closed(g) && Scanning(g, start, done, u, todo, pqueue, dist, pred)
    ensures g[u].Keys <= g.Keys && pred.Keys == dist.Keys == g.Keys && done <= g.Keys
    ensures start in g && forall x :: x in done + {u} ==> dist[x] <= dist[u]
  {
    hide Nearest, Settled, AtLeast;
  }

  /** The edge from u to v shortens the way to v: v is still in the queue. */
  lemma {:induction false} Shorten(g: Graph, start: Vertex, done: set<Vertex>, u: Vertex, todo: set<Vertex>, v: Vertex,
                                   pqueue: map<Vertex, int>, dist: map<Vertex, int>, pred: map<Vertex, Option<Vertex>>)
    requires Closed(g) && NonNegative(g) && Scanning(g, start, done, u, todo, pqueue, dist, pred)
    requires v in g[u] && v in dist && dist[u] + g[u][v] < dist[v]
    ensures v in pqueue && v !in done + {u}
    ensures var d := dist[u] + g[u][v];
      Scanning(g, start, done, u, todo - {v}, pqueue[v := d], dist[v := d], pred[v := Some(u)])
  {
    hide Closed, NonNegative, Tables, Nearest, Settled, AtLeast;
    InTables(g, start, done, u, todo, pqueue, dist, pred);
    var d := dist[u] + g[u][v];
    StillQueued(g, start, done + {u}, u, v, pqueue, dist, pred);
    ShortenTables(g, start, done + {u}, u, v, d, pqueue, dist, pred);
    ShortenNearest(g, done + {u}, v, d, dist);
    ShortenSettled(g, start, done, v, d, dist);
  }

  lemma {:induction false} EndScan(g: Graph, start: Vertex, done: set<Vertex>, u: Vertex, pqueue: map<Vertex, int>,
                                   dist: map<Vertex, int>, pred: map<Vertex, Option<Vertex>>)
    requires Closed(g) && Scanning(g, start, done, u, {}, pqueue, dist, pred)
    requires done == {} ==> u == start
    requires done != {} ==> start in done
    ensures Inv(g, start, done + {u}, pqueue, dist, pred)
  {
    assert Relaxed(g, u, dist);
  }

  /** The entries of the vertices in `kept` are the same in both pairs of dictionaries. */
  ghost predicate Unmoved(kept: set<Vertex>, dist: map<Vertex, int>, pred: map<Vertex, Option<Vertex>>,
                          dist': map<Vertex, int>, pred': map<Vertex, Option<Vertex>>)
  {
    forall x :: x in kept ==>
      && x in dist && x in dist' && dist'[x] == dist[x]
      && x in pred && x in pred' && pred'[x] == pred[x]
  }

  /** Where several popped vertices lie on shortest ways to v, the first of them is the predecessor: over every vertex
      popped before it the way is longer. */
  ghost predicate FirstNearest(g: Graph, order: seq<Vertex>, v: Vertex, dist: map<Vertex, int>, last: Option<Vertex>) {
    last.Some? ==>
      && v in dist && last.value in order
      && forall i, j :: 0 <= i < j < |order| && order[j] == last.value && Edge(g, order[i], v) && order[i] in dist ==>
           dist[order[i]] + g[order[i]][v] > dist[v]
  }

  ghost predicate FirstOnes(g: Graph, order: seq<Vertex>, dist: map<Vertex, int>, pred: map<Vertex, Option<Vertex>>) {
    forall v :: v in pred ==> FirstNearest(g, order, v, dist, pred[v])
  }

  lemma {:induction false} OneMorePopped(g: Graph, order: seq<Vertex>, u: Vertex, dist: map<Vertex, int>,
                                         pred: map<Vertex, Option<Vertex>>)
    requires FirstOnes(g, order, dist, pred) && u !in order
    ensures FirstOnes(g, order + [u], dist, pred)
  {
    forall v | v in pred ensures FirstNearest(g, order + [u], v, dist, pred[v]) {
      assert FirstNearest(g, order, v, dist, pred[v]);
    }
  }

  lemma {:induction false} ShorterIsFirst(g: Graph, order: seq<Vertex>, u: Vertex, v: Vertex, d: int,
                                          dist: map<Vertex, int>, pred: map<Vertex, Option<Vertex>>)
    requires FirstOnes(g, order + [u], dist, pred) && v !in order + [u] && v in dist && d < dist[v]
    requires forall a :: a in order && a in dist && Edge(g, a, v) ==> dist[v] <= dist[a] + g[a][v]
    ensures FirstOnes(g, order + [u], dist[v := d], pred[v := Some(u)])
  {
    var all, dist', pred' := order + [u], dist[v := d], pred[v := Some(u)];
    assert all[|order|] == u;
    assert forall i :: 0 <= i < |all| ==> all[i] in all && all[i] != v;
    forall x | x in pred' ensures FirstNearest(g, all, x, dist', pred'[x]) {
      if x != v {
        assert FirstNearest(g, all, x, dist, pred[x]);
      } else {
        forall i, j | 0 <= i < j < |all| && all[j] == u && Edge(g, all[i], v) && all[i] in dist'
          ensures dist'[all[i]] + g[all[i]][v] > d
        {
          assert i < |order| && all[i] == order[i];
        }
      }
    }
  }

  /** What Shorten needs to know of the vertices popped before u. */
  lemma {:induction false} AllRelaxed(g: Graph, start: Vertex, done: set<Vertex>, u: Vertex, todo: set<Vertex>,
                                      v: Vertex, pqueue: map<Vertex, int>, dist: map<Vertex, int>,
                                      pred: map<Vertex, Option<Vertex>>)
    requires Scanning(g, start, done, u, todo, pqueue, dist, pred) && v in dist
    ensures forall a :: a in done && a in dist && Edge(g, a, v) ==> dist[v] <= dist[a] + g[a][v]
  {
    assert forall a :: a in done ==> Relaxed(g, a, dist);
  }

  /** The neighbours of u, in any order. */
  method Scan(g: Graph, start: Vertex, ghost done: set<Vertex>, ghost popped: seq<Vertex>, u: Vertex,
              pqueue: map<Vertex, int>, dist: map<Vertex, int>, pred: map<Vertex, Option<Vertex>>)
    returns (pqueue': map<Vertex, int>, dist': map<Vertex, int>, pred': map<Vertex, Option<Vertex>>)
    requires Closed(g) && NonNegative(g)
    requires u in g && Scanning(g, start, done, u, g[u].Keys, pqueue, dist, pred)
    requires (forall a :: a in popped <==> a in done) && FirstOnes(g, popped + [u], dist, pred)
    ensures Scanning(g, start, done, u, {}, pqueue', dist', pred')
    ensures Unmoved(done + {u}, dist, pred, dist', pred') && FirstOnes(g, popped + [u], dist', pred')
  {
    hide Tables, Settled, AtLeast, Nearest, Closed, NonNegative, FirstOnes;
    pqueue', dist', pred' := pqueue, dist, pred;
    InTables(g, start, done, u, g[u].Keys, pqueue, dist, pred);
    var todo: set<Vertex> := g[u].Keys;
    while todo != {}
      invariant todo <= g[u].Keys
      invariant Scanning(g, start, done, u, todo, pqueue', dist', pred')
      invariant Unmoved(done + {u}, dist, pred, dist', pred') && FirstOnes(g, popped + [u], dist', pred')
      decreases todo
    {
      Inhabited(todo);
      var v :| v in todo;
      InTables(g, start, done, u, todo, pqueue', dist', pred');
      var newdist := dist'[u] + g[u][v];
      if newdist < dist'[v] {
        Shorten(g, start, done, u, todo, v, pqueue', dist', pred');
        AllRelaxed(g, start, done, u, todo, v, pqueue', dist', pred');
        ShorterIsFirst(g, popped, u, v, newdist, dist', pred');
        pqueue', dist', pred' := pqueue'[v := newdist], dist'[v := newdist], pred'[v := Some(u)];
      }
      todo := todo - {v};
    }
  }

  /** The vertices popped so far, in order: none twice, nearest first, each reached from an earlier one. */
  ghost predicate PopOrder(popped: seq<Vertex>, done: set<Vertex>, dist: map<Vertex, int>,
                           pred: map<Vertex, Option<Vertex>>)
  {
    && (forall v :: v in popped <==> v in done)
    && (forall v :: v in done ==> v in dist && dist[v] < INFINITY && v in pred)
    && (forall i, j :: 0 <= i < j < |popped| ==> popped[i] != popped[j])
    && (forall i, j :: 0 <= i < j < |popped| ==> dist[popped[i]] <= dist[popped[j]])
    && (forall i :: 0 <= i < |popped| && pred[popped[i]].Some? ==> pred[popped[i]].value in popped[..i])
  }

  lemma {:induction false} NextPopped(popped: seq<Vertex>, done: set<Vertex>, u: Vertex, dist: map<Vertex, int>,
                                      pred: map<Vertex, Option<Vertex>>)
    requires PopOrder(popped, done, dist, pred)
    requires u !in done && u in dist && u in pred && dist[u] < INFINITY
    requires forall v :: v in done ==> dist[v] <= dist[u]
    requires pred[u].Some? ==> pred[u].value in done
    ensures PopOrder(popped + [u], done + {u}, dist, pred)
  {
    var all := popped + [u];
    assert forall v :: v in done <==> v in popped;
    assert forall i :: 0 <= i < |popped| ==> popped[i] in done;
    forall i | 0 <= i < |all| && pred[all[i]].Some? ensures pred[all[i]].value in all[..i] {
      if i < |popped| {
        assert all[..i] == popped[..i];
      } else {
        assert all[..i] == popped;
      }
    }
  }

  lemma {:induction false} PopOrderKept(popped: seq<Vertex>, done: set<Vertex>, dist: map<Vertex, int>,
                                        pred: map<Vertex, Option<Vertex>>, dist': map<Vertex, int>,
                                        pred': map<Vertex, Option<Vertex>>)
    requires PopOrder(popped, done, dist, pred) && Unmoved(done, dist, pred, dist', pred')
    ensures PopOrder(popped, done, dist', pred')
  {
    assert forall i :: 0 <= i < |popped| ==> popped[i] in done;
    assert forall v :: v in done ==> v in dist' && dist'[v] == dist[v] && v in pred' && pred'[v] == pred[v];
    forall i | 0 <= i < |popped| && pred'[popped[i]].Some? ensures pred'[popped[i]].value in popped[..i] {
      assert pred'[popped[i]] == pred[popped[i]];
    }
  }

  /** A path every step of which is a predecessor entry. */
  ghost predicate Follows(pred: map<Vertex, Option<Vertex>>, p: seq<Vertex>) {
    forall i :: 0 < i < |p| ==> p[i] in pred && pred[p[i]] == Some(p[i - 1])
  }

  ghost predicate Route(g: Graph, start: Vertex, v: Vertex, d: int, pred: map<Vertex, Option<Vertex>>, p: seq<Vertex>) {
    Joins(g, p, start, v) && Length(g, p) == d && Follows(pred, p)
  }

  lemma {:induction false} StepBack(g: Graph, start: Vertex, done: set<Vertex>, v: Vertex, pqueue: map<Vertex, int>,
                                    dist: map<Vertex, int>, pred: map<Vertex, Option<Vertex>>)
    requires Tables(g, start, done, pqueue, dist, pred) && v in done && v in dist && v in pred && dist[v] < INFINITY
    ensures pred[v].None? ==> v == start && dist[v] == 0 && v in g
    ensures pred[v].Some? ==>
      var u := pred[v].value; u in dist && u in g && Edge(g, u, v) && dist[v] == dist[u] + g[u][v]
  {
  }

  lemma {:induction false} RouteStep(g: Graph, start: Vertex, u: Vertex, v: Vertex, d: int,
                                     pred: map<Vertex, Option<Vertex>>, q: seq<Vertex>)
    requires Route(g, start, u, d, pred, q) && Edge(g, u, v) && v in pred && pred[v] == Some(u)
    ensures Route(g, start, v, d + g[u][v], pred, q + [v])
  {
    PathAppend(g, q, v);
  }

  lemma {:induction false} TrivialRoute(g: Graph, start: Vertex, pred: map<Vertex, Option<Vertex>>)
    requires start in g
    ensures Route(g, start, start, 0, pred, [start])
  {
    assert IsPath(g, [start]);
  }

  lemma {:induction false} PoppedEntry(popped: seq<Vertex>, done: set<Vertex>, dist: map<Vertex, int>,
                                       pred: map<Vertex, Option<Vertex>>, i: nat)
    requires PopOrder(popped, done, dist, pred) && i < |popped|
    ensures var v := popped[i]; v in done && v in dist && v in pred && dist[v] < INFINITY
  {
  }

  lemma {:induction false} PoppedBefore(popped: seq<Vertex>, done: set<Vertex>, dist: map<Vertex, int>,
                                        pred: map<Vertex, Option<Vertex>>, i: nat)
    returns (j: nat)
    requires PopOrder(popped, done, dist, pred) && i < |popped| && popped[i] in pred && pred[popped[i]].Some?
    ensures j < i && popped[j] == pred[popped[i]].value
  {
    var u := pred[popped[i]].value;
    assert u in popped[..i];
    j :| 0 <= j < i && popped[..i][j] == u;
  }

  /** Following the predecessor entries back from a popped vertex gives a path as long as dist says. */
  lemma {:induction false} RouteExists(g: Graph, start: Vertex, popped: seq<Vertex>, done: set<Vertex>, i: nat,
                                       pqueue: map<Vertex, int>, dist: map<Vertex, int>,
                                       pred: map<Vertex, Option<Vertex>>)
    returns (p: seq<Vertex>)
    requires Tables(g, start, done, pqueue, dist, pred) && PopOrder(popped, done, dist, pred) && i < |popped|
    ensures popped[i] in done && Route(g, start, popped[i], dist[popped[i]], pred, p)
    decreases i
  {
    hide PopOrder, Route, Joins, IsPath;
    PoppedEntry(popped, done, dist, pred, i);
    var v := popped[i];
    StepBack(g, start, done, v, pqueue, dist, pred);
    hide Tables;
    if pred[v].None? {
      TrivialRoute(g, start, pred);
      p := [start];
    } else {
      var u := pred[v].value;
      var j := PoppedBefore(popped, done, dist, pred, i);
      var q := RouteExists(g, start, popped, done, j, pqueue, dist, pred);
      RouteStep(g, start, u, v, dist[u], pred, q);
      p := q + [v];
    }
  }

  /** What the caller gets: shortest distances, all below 1000, and routes of that length along pred. */
  ghost predicate Shortest(g: Graph, start: Vertex, dist: map<Vertex, int>, pred: map<Vertex, Option<Vertex>>) {
    && dist.Keys == pred.Keys == g.Keys
    && forall v :: v in g ==>
        && dist[v] < INFINITY && AtLeast(g, start, v, dist[v])
        && (pred[v].None? <==> v == start)
        && exists p :: Route(g, start, v, dist[v], pred, p)
  }

  lemma {:induction false} Finished(g: Graph, start: Vertex, popped: seq<Vertex>, done: set<Vertex>,
                                    pqueue: map<Vertex, int>, dist: map<Vertex, int>,
                                    pred: map<Vertex, Option<Vertex>>)
    requires Inv(g, start, done, pqueue, dist, pred) && PopOrder(popped, done, dist, pred) && pqueue == map[]
    ensures Shortest(g, start, dist, pred) && done == g.Keys
  {
    assert pqueue.Keys == {};
    forall v | v in g
      ensures v in done && exists p :: Route(g, start, v, dist[v], pred, p)
    {
      assert v !in pqueue.Keys;
      assert v in popped;
      var i :| 0 <= i < |popped| && popped[i] == v;
      var p := RouteExists(g, start, popped, done, i, pqueue, dist, pred);
    }
  }

  /** A vertex with a route below 1000 is not out of reach. */
  lemma {:induction false} InReach(g: Graph, start: Vertex, dist: map<Vertex, int>, pred: map<Vertex, Option<Vertex>>)
    requires Shortest(g, start, dist, pred)
    ensures forall v :: v in g ==> !AtLeast(g, start, v, INFINITY)
  {
    forall v | v in g ensures !AtLeast(g, start, v, INFINITY) {
      var p :| Route(g, start, v, dist[v], pred, p);
    }
  }

  /** The dictionaries before the first pop. */
  method Initial(g: Graph, start: Vertex)
    returns (pqueue: map<Vertex, int>, dist: map<Vertex, int>, pred: map<Vertex, Option<Vertex>>)
    requires start in g
    ensures Inv(g, start, {}, pqueue, dist, pred) && forall v :: v in pred ==> pred[v].None?
  {
    dist, pred := map[], map[];
    var todo: set<Vertex> := g.Keys;
    while todo != {}
      invariant todo <= g.Keys && dist.Keys == pred.Keys == g.Keys - todo
      invariant forall v :: v in dist ==> dist[v] == 1000 && pred[v] == None
      decreases todo
    {
      Inhabited(todo);
      var v :| v in todo;
      dist, pred := dist[v := 1000], pred[v := None];
      todo := todo - {v};
    }
    dist := dist[start := 0];
    pqueue := map[];
    todo := g.Keys;
    while todo != {}
      invariant todo <= g.Keys && pqueue.Keys == g.Keys - todo
      invariant forall v :: v in pqueue ==> pqueue[v] == dist[v]
      decreases todo
    {
      Inhabited(todo);
      var v :| v in todo;
      pqueue := pqueue[v := dist[v]];
      todo := todo - {v};
    }
  }

  lemma {:induction false} PoppedAre(popped: seq<Vertex>, done: set<Vertex>, dist: map<Vertex, int>,
                                     pred: map<Vertex, Option<Vertex>>)
    requires PopOrder(popped, done, dist, pred)
    ensures forall v :: v in popped <==> v in done
  {
  }

  lemma {:induction false} NothingPopped(g: Graph, dist: map<Vertex, int>, pred: map<Vertex, Option<Vertex>>)
    requires forall v :: v in pred ==> pred[v].None?
    ensures PopOrder([], {}, dist, pred) && FirstOnes(g, [], dist, pred)
  {
  }

  /** The failing popmin: some vertex is out of reach. */
  lemma {:induction false} Unreached(g: Graph, start: Vertex, done: set<Vertex>, pqueue: map<Vertex, int>,
                                     dist: map<Vertex, int>, pred: map<Vertex, Option<Vertex>>)
    requires Closed(g) && NonNegative(g) && Inv(g, start, done, pqueue, dist, pred)
    requires pqueue != map[] && forall k :: k in pqueue ==> pqueue[k] >= INFINITY
    ensures exists v :: v in g && AtLeast(g, start, v, INFINITY)
  {
    hide AtLeast, Settled, Nearest;
    Inhabited(pqueue.Keys);
    var v :| v in pqueue.Keys;
    LeftIsFar(g, start, done, pqueue, dist, pred, v);
  }

  /** KeyError exactly when some vertex has no path shorter than 1000; otherwise each vertex is popped once. */
  method Dijkstra(g: Graph, start: Vertex) returns (r: Result, ghost popped: seq<Vertex>)
    requires Closed(g) && NonNegative(g) && start in g
    ensures r.KeyError? <==> exists v :: v in g && AtLeast(g, start, v, INFINITY)
    ensures r.Found? ==> Shortest(g, start, r.dist, r.pred)
    ensures r.Found? ==> PopOrder(popped, g.Keys, r.dist, r.pred) && FirstOnes(g, popped, r.dist, r.pred)
  {
    hide Closed, NonNegative, Tables, Nearest, Settled, AtLeast, Shortest, PopOrder, FirstOnes;
    var pqueue, dist, pred := Initial(g, start);
    ghost var done: set<Vertex> := {};
    popped := [];
    NothingPopped(g, dist, pred);
    while pqueue != map[]
      invariant Inv(g, start, done, pqueue, dist, pred) && PopOrder(popped, done, dist, pred)
      invariant FirstOnes(g, popped, dist, pred)
      decreases g.Keys - done
    {
      var key, rest := PopMin(pqueue);
      if key.None? {
        Unreached(g, start, done, pqueue, dist, pred);
        return KeyError, popped;
      }
      var u := key.value;
      StartScan(g, start, done, pqueue, dist, pred, u);
      ghost var dist0, pred0 := dist, pred;
      PoppedAre(popped, done, dist, pred);
      OneMorePopped(g, popped, u, dist, pred);
      pqueue, dist, pred := Scan(g, start, done, popped, u, rest, dist, pred);
      EndScan(g, start, done, u, pqueue, dist, pred);
      NextPopped(popped, done, u, dist0, pred0);
      popped, done := popped + [u], done + {u};
      PopOrderKept(popped, done, dist0, pred0, dist, pred);
    }
    Finished(g, start, popped, done, pqueue, dist, pred);
    InReach(g, start, dist, pred);
    return Found(dist, pred), popped;
  }
}
