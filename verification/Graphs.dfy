/**
  What the graph algorithms of graphproblems.py share: a graph is a dictionary of dictionaries of weights,
  1000 stands for infinity, and popmin takes the vertex of least value below 1000 out of a dictionary.
*/
module Graphs {
  import opened Common

  type Vertex = int
  type Graph = map<Vertex, map<Vertex, int>>

  const INFINITY := 1000

  /** Every edge leads to a vertex of the graph. */
  predicate Closed(g: Graph) {
    forall u :: u in g ==> g[u].Keys <= g.Keys
  }

  predicate NonNegative(g: Graph) {
    forall u :: u in g ==> forall v :: v in g[u] ==> 0 <= g[u][v]
  }

  predicate Edge(g: Graph, u: Vertex, v: Vertex) {
    u in g && v in g[u]
  }

  // ---------------------------------------------------------------- paths

  /** A path: at least one vertex, consecutive vertices joined by edges. */
  predicate IsPath(g: Graph, p: seq<Vertex>)
    decreases |p|
  {
    p != [] && p[0] in g && (|p| > 1 ==> IsPath(g, p[..|p| - 1]) && Edge(g, p[|p| - 2], p[|p| - 1]))
  }

  function Length(g: Graph, p: seq<Vertex>): int
    requires IsPath(g, p)
    decreases |p|
  {
    if |p| == 1 then 0 else Length(g, p[..|p| - 1]) + g[p[|p| - 2]][p[|p| - 1]]
  }

  predicate Joins(g: Graph, p: seq<Vertex>, u: Vertex, v: Vertex) {
    IsPath(g, p) && p[0] == u && p[|p| - 1] == v
  }

  lemma {:induction false} PathAppend(g: Graph, p: seq<Vertex>, v: Vertex)
    requires IsPath(g, p) && Edge(g, p[|p| - 1], v)
    ensures IsPath(g, p + [v]) && Length(g, p + [v]) == Length(g, p) + g[p[|p| - 1]][v]
  {
    assert (p + [v])[..|p|] == p;
  }

  lemma {:induction false} LengthNonNegative(g: Graph, p: seq<Vertex>)
    requires NonNegative(g) && IsPath(g, p)
    ensures Length(g, p) >= 0
    decreases |p|
  {
    if |p| > 1 {
      LengthNonNegative(g, p[..|p| - 1]);
    }
  }

  // ---------------------------------------------------------------- popmin

  lemma {:induction false} Inhabited(s: set<Vertex>)
    requires s != {}
    ensures exists v :: v in s
  {
    if forall v :: v !in s {
      assert false;
    }
  }

  /** popmin: None is the KeyError of `del pqueue[None]`, when no value is below 1000. */
  method PopMin(pqueue: map<Vertex, int>) returns (key: Option<Vertex>, rest: map<Vertex, int>)
    ensures key.None? ==> rest == pqueue && forall k :: k in pqueue ==> pqueue[k] >= INFINITY
    ensures key.Some? ==>
      && key.value in pqueue && pqueue[key.value] < INFINITY
      && (forall k :: k in pqueue ==> pqueue[key.value] <= pqueue[k])
      && rest == pqueue - {key.value}
  {
    var lowest, keyLowest: Option<Vertex> := 1000, None;
    var todo: set<Vertex> := pqueue.Keys;
    while todo != {}
      invariant todo <= pqueue.Keys
      invariant keyLowest.None? ==> lowest == 1000
      invariant keyLowest.Some? ==> keyLowest.value in pqueue && lowest == pqueue[keyLowest.value] < 1000
      invariant forall k :: k in pqueue && k !in todo ==> lowest <= pqueue[k]
      decreases todo
    {
      Inhabited(todo);
      var k :| k in todo;
      if pqueue[k] < lowest {
        lowest := pqueue[k];
        keyLowest := Some(k);
      }
      todo := todo - {k};
    }
    if keyLowest.None? {
      return None, pqueue;
    }
    return keyLowest, pqueue - {keyLowest.value};
  }
}
