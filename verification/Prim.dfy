/** Prim's algorithm as in graphproblems.py, with the minimality of the tree it returns. */
module Prim {
  import opened Common
  import opened Graphs

  type Parents = map<Vertex, Vertex>

  /** Every edge goes both ways at the same weight. */
  predicate Symmetric(g: Graph) {
    forall u :: u in g ==> forall v :: v in g[u] ==> v in g && u in g[v] && g[v][u] == g[u][v]
  }

  function Cost(g: Graph, u: Vertex, v: Vertex): int {
    if Edge(g, u, v) then g[u][v] else 0
  }

  // ---------------------------------------------------------------- rooted trees

  /** Every vertex but the root has a parent; ranks grow away from the root, so there is no cycle. */
  ghost predicate Rooted(g: Graph, root: Vertex, par: Parents, rank: map<Vertex, int>) {
    && root in g && par.Keys == g.Keys - {root} && rank.Keys == g.Keys
    && (forall v :: v in g ==> rank[v] >= 0)
    && forall v :: v in par ==> par[v] in g && rank[par[v]] < rank[v]
  }

  /** A spanning tree of g, hung up at the root. */
  ghost predicate Spanning(g: Graph, root: Vertex, par: Parents, rank: map<Vertex, int>) {
    Rooted(g, root, par, rank) && forall v :: v in par ==> Edge(g, par[v], v)
  }

  /** The vertices of g other than the root, each listed once. */
  ghost predicate Lists(g: Graph, root: Vertex, vs: seq<Vertex>) {
    && (forall i :: 0 <= i < |vs| ==> vs[i] in g && vs[i] != root) && (forall v :: v in g && v != root ==> v in vs)
    && forall i, j :: 0 <= i < j < |vs| ==> vs[i] != vs[j]
  }

  /** Total weight of the parent edges of vs. */
  function Weight(g: Graph, par: Parents, vs: seq<Vertex>): int
    requires forall i :: 0 <= i < |vs| ==> vs[i] in par
  {
    if vs == [] then 0 else Cost(g, par[vs[0]], vs[0]) + Weight(g, par, vs[1..])
  }

  lemma {:induction false} WeightSame(g: Graph, par: Parents, par': Parents, vs: seq<Vertex>)
    requires forall i :: 0 <= i < |vs| ==> vs[i] in par && vs[i] in par' && par'[vs[i]] == par[vs[i]]
    ensures Weight(g, par', vs) == Weight(g, par, vs)
  {
    if vs != [] {
      WeightSame(g, par, par', vs[1..]);
    }
  }

  lemma {:induction false} WeightUpdate(g: Graph, par: Parents, v: Vertex, u: Vertex, vs: seq<Vertex>)
    requires forall i :: 0 <= i < |vs| ==> vs[i] in par
    requires v in vs && forall i, j :: 0 <= i < j < |vs| ==> vs[i] != vs[j]
    ensures Weight(g, par[v := u], vs) == Weight(g, par, vs) - Cost(g, par[v], v) + Cost(g, u, v)
  {
    if vs[0] == v {
      WeightSame(g, par, par[v := u], vs[1..]);
    } else {
      WeightUpdate(g, par, v, u, vs[1..]);
    }
  }

  // ---------------------------------------------------------------- exchange of one edge

  /** s is a top part of the tree: with a vertex it has its parent. */
  ghost predicate Top(root: Vertex, s: set<Vertex>, par: Parents) {
    root in s && forall v :: v in s && v in par ==> par[v] in s
  }

  /** The same parents, except for v and the vertices above it that are outside s. */
  ghost predicate Below(s: set<Vertex>, par: Parents, par': Parents, rank: map<Vertex, int>, v: Vertex) {
    && par'.Keys == par.Keys && v in rank
    && forall z :: z in par && z in rank && (z in s || rank[z] > rank[v]) ==> par'[z] == par[z]
  }

  lemma {:induction false} MoveTop(g: Graph, root: Vertex, s: set<Vertex>, par: Parents, rank: map<Vertex, int>,
                                   v: Vertex, u: Vertex)
    returns (rank': map<Vertex, int>)
    requires Rooted(g, root, par, rank) && Top(root, s, par) && s <= g.Keys
    requires v in g && v !in s && par[v] in s && u in s
    ensures Rooted(g, root, par[v := u], rank')
  {
    rank' := map z | z in g :: if z in s then rank[z] else rank[z] + rank[u] + 1;
  }

  lemma {:induction false} MoveBetween(g: Graph, root: Vertex, par: Parents, rank: map<Vertex, int>, y: Vertex,
                                       v: Vertex, u: Vertex)
    returns (rank': map<Vertex, int>)
    requires Rooted(g, root, par, rank) && v in par && y in par && par[v] == y && par[y] == u && u != v
    ensures Rooted(g, root, par[y := v][v := u], rank')
  {
    rank' := map z | z in g :: if z == v then 2 * rank[y] - 1 else 2 * rank[z];
  }

  /** par' hangs v below u; x is where the way up from v enters the top part s. */
  ghost predicate Rehung(g: Graph, root: Vertex, s: set<Vertex>, par: Parents, rank: map<Vertex, int>, v: Vertex,
                         u: Vertex, par': Parents, rank': map<Vertex, int>, x: Vertex)
  {
    && Rooted(g, root, par', rank') && Below(s, par, par', rank, v) && v in par' && par'[v] == u
    && (forall z :: z in par' && z != v ==> Edge(g, par'[z], z))
    && x in par && x !in s && par[x] in s
  }

  lemma {:induction false} HungHigher(g: Graph, root: Vertex, s: set<Vertex>, par: Parents, rank: map<Vertex, int>,
                                      v: Vertex, y: Vertex, u: Vertex, par1: Parents, rank1: map<Vertex, int>,
                                      x: Vertex)
    returns (par': Parents, rank': map<Vertex, int>)
    requires Symmetric(g) && Spanning(g, root, par, rank) && v in par && y == par[v] && v !in s && y !in s && u in s
    requires Rehung(g, root, s, par, rank, y, u, par1, rank1, x)
    ensures par' == par1[y := v][v := u] && Rehung(g, root, s, par, rank, v, u, par', rank', x)
    ensures par1[v] == y && par1[y] == u
  {
    assert rank[v] > rank[y];
    rank' := MoveBetween(g, root, par1, rank1, y, v, u);
    par' := par1[y := v][v := u];
    assert Edge(g, par[v], v) && Edge(g, v, y);
    hide Symmetric;
  }

  /**
    Hang v, which is outside the top part s, below u in s: the edges from v up to s turn round, and the one
    that entered s, from x to its parent, goes.
  */
  lemma {:induction false} Reattach(g: Graph, root: Vertex, s: set<Vertex>, par: Parents, rank: map<Vertex, int>,
                                    v: Vertex, u: Vertex, vs: seq<Vertex>)
    returns (par': Parents, rank': map<Vertex, int>, x: Vertex)
    requires Symmetric(g) && Spanning(g, root, par, rank) && Top(root, s, par) && s <= g.Keys && Lists(g, root, vs)
    requires v in g && v !in s && u in s
    ensures Rehung(g, root, s, par, rank, v, u, par', rank', x)
    ensures Weight(g, par', vs) == Weight(g, par, vs) - Cost(g, par[x], x) + Cost(g, u, v)
    decreases if v in rank then rank[v] else 0
  {
    var y := par[v];
    if y in s {
      x, par' := v, par[v := u];
      rank' := MoveTop(g, root, s, par, rank, v, u);
      WeightUpdate(g, par, v, u, vs);
    } else {
      var par1, rank1;
      par1, rank1, x := Reattach(g, root, s, par, rank, y, u, vs);
      par', rank' := HungHigher(g, root, s, par, rank, v, y, u, par1, rank1, x);
      WeightUpdate(g, par1, y, v, vs);
      WeightUpdate(g, par1[y := v], v, u, vs);
    }
  }

  // ---------------------------------------------------------------- a greedy order

  /** Vertex i of the order entered by the cheapest edge from the earlier vertices to the others. */
  ghost predicate CheapestEntry(g: Graph, order: seq<Vertex>, i: nat, pred: map<Vertex, Option<Vertex>>)
    requires i < |order|
  {
    var v := order[i];
    && v in pred && pred[v].Some? && pred[v].value in order[..i] && Edge(g, pred[v].value, v)
    && g[pred[v].value][v] < INFINITY
    && forall a, b :: a in order[..i] && b !in order[..i] && Edge(g, a, b) ==> g[a][b] >= g[pred[v].value][v]
  }

  ghost predicate Greedy(g: Graph, root: Vertex, order: seq<Vertex>, pred: map<Vertex, Option<Vertex>>) {
    && |order| > 0 && order[0] == root && root in pred && pred[root].None?
    && (forall i, j :: 0 <= i < j < |order| ==> order[i] != order[j])
    && (forall i :: 0 < i < |order| ==> CheapestEntry(g, order, i, pred))
  }

  /** The predecessors of the vertices in s are parents in the tree. */
  ghost predicate Agrees(pred: map<Vertex, Option<Vertex>>, par: Parents, s: seq<Vertex>, root: Vertex) {
    forall v :: v in s && v != root ==> v in pred && v in par && pred[v] == Some(par[v])
  }

  lemma {:induction false} AgreesOnNext(root: Vertex, pred: map<Vertex, Option<Vertex>>, par: Parents, par': Parents,
                                        first: seq<Vertex>, v: Vertex)
    requires Agrees(pred, par, first, root) && par'.Keys == par.Keys
    requires forall z :: z in par && z in first ==> par'[z] == par[z]
    requires v in pred && v in par' && pred[v] == Some(par'[v])
    ensures Agrees(pred, par', first + [v], root)
  {
  }

  lemma {:induction false} EarlierTop(g: Graph, root: Vertex, order: seq<Vertex>, pred: map<Vertex, Option<Vertex>>,
                                      i: nat, par: Parents, s: set<Vertex>)
    requires Greedy(g, root, order, pred) && 0 < i < |order| && Agrees(pred, par, order[..i], root)
    requires s == (set z | z in order[..i]) && root !in par
    ensures Top(root, s, par)
  {
    assert order[0] in order[..i];
    forall v | v in s && v in par ensures par[v] in s {
      var k :| 0 <= k < i && order[k] == v;
      assert CheapestEntry(g, order, k, pred);
    }
  }

  /** A tree that agrees on the first i vertices can be made to agree on one more, without growing dearer. */
  lemma {:induction false} AgreeOnOneMore(g: Graph, root: Vertex, order: seq<Vertex>,
                                          pred: map<Vertex, Option<Vertex>>, i: nat, par: Parents,
                                          rank: map<Vertex, int>, vs: seq<Vertex>)
    returns (par': Parents, rank': map<Vertex, int>)
    requires Symmetric(g) && Spanning(g, root, par, rank) && Lists(g, root, vs)
    requires Greedy(g, root, order, pred) && 0 < i < |order| && Agrees(pred, par, order[..i], root)
    requires forall v :: v in order ==> v in g
    ensures Spanning(g, root, par', rank') && Agrees(pred, par', order[..i + 1], root)
    ensures Weight(g, par', vs) <= Weight(g, par, vs)
  {
    var v, first := order[i], order[..i];
    assert CheapestEntry(g, order, i, pred);
    var u, s := pred[v].value, set z | z in first;
    assert order[..i + 1] == first + [v];
    assert forall j :: 0 <= j < i ==> first[j] == order[j] != v;
    assert order[0] in first;
    EarlierTop(g, root, order, pred, i, par, s);
    assert v in par && u in s && s <= g.Keys;
    if par[v] == u {
      par', rank' := par, rank;
    } else {
      assert forall a, b :: a in s && b !in s && Edge(g, a, b) ==> g[a][b] >= g[u][v];
      assert Edge(g, u, v);
      hide Greedy, Lists, CheapestEntry, Agrees, Top;
      var x;
      par', rank', x := Reattach(g, root, s, par, rank, v, u, vs);
      assert Edge(g, par[x], x);
    }
    AgreesOnNext(root, pred, par, par', first, v);
  }

  /** Every spanning tree is at least as heavy as some spanning tree that agrees with the greedy one on the
      first i vertices. */
  lemma {:induction false} AgreeOnAll(g: Graph, root: Vertex, order: seq<Vertex>, pred: map<Vertex, Option<Vertex>>,
                                      i: nat, par: Parents, rank: map<Vertex, int>, vs: seq<Vertex>)
    returns (par': Parents, rank': map<Vertex, int>)
    requires Symmetric(g) && Spanning(g, root, par, rank) && Lists(g, root, vs)
    requires Greedy(g, root, order, pred) && 0 < i <= |order| && Agrees(pred, par, order[..i], root)
    requires forall v :: v in order ==> v in g
    ensures Spanning(g, root, par', rank') && Agrees(pred, par', order, root)
    ensures Weight(g, par', vs) <= Weight(g, par, vs)
    decreases |order| - i
  {
    if i == |order| {
      assert order[..i] == order;
      par', rank' := par, rank;
    } else {
      par', rank' := AgreeOnOneMore(g, root, order, pred, i, par, rank, vs);
      par', rank' := AgreeOnAll(g, root, order, pred, i + 1, par', rank', vs);
    }
  }

  /** The tree that the predecessors describe. */
  function Tree(g: Graph, root: Vertex, pred: map<Vertex, Option<Vertex>>): Parents
    requires pred.Keys == g.Keys && forall v :: v in g && v != root ==> pred[v].Some?
  {
    map v | v in g && v != root :: pred[v].value
  }

  /** pred describes a spanning tree, and no spanning tree weighs less. */
  ghost predicate Minimal(g: Graph, root: Vertex, pred: map<Vertex, Option<Vertex>>, vs: seq<Vertex>) {
    && pred.Keys == g.Keys && Lists(g, root, vs) && (forall v :: v in g ==> (pred[v].None? <==> v == root))
    && (exists rank :: Spanning(g, root, Tree(g, root, pred), rank))
    && forall par, rank :: Spanning(g, root, par, rank) ==>
        Weight(g, Tree(g, root, pred), vs) <= Weight(g, par, vs)
  }

  function Position(order: seq<Vertex>, v: Vertex): (i: nat)
    requires v in order
    ensures i < |order| && order[i] == v
  {
    if order[0] == v then 0 else 1 + Position(order[1..], v)
  }

  lemma {:induction false} PositionIs(order: seq<Vertex>, i: nat)
    requires i < |order| && forall j, k :: 0 <= j < k < |order| ==> order[j] != order[k]
    ensures order[i] in order && Position(order, order[i]) == i
  {
    var j := Position(order, order[i]);
  }

  /** Every vertex but the root stands after its predecessor. */
  lemma {:induction false} EntryOf(g: Graph, root: Vertex, order: seq<Vertex>, pred: map<Vertex, Option<Vertex>>,
                                   v: Vertex)
    returns (i: nat, j: nat)
    requires Greedy(g, root, order, pred) && v in order && v != root
    ensures 0 <= j < i < |order| && order[i] == v && v in pred && pred[v] == Some(order[j]) && Edge(g, order[j], v)
    ensures order[j] in order && Position(order, v) == i && Position(order, order[j]) == j
  {
    i := Position(order, v);
    assert CheapestEntry(g, order, i, pred);
    j :| 0 <= j < i && order[j] == pred[v].value;
    PositionIs(order, j);
  }

  lemma {:induction false} TreeDefined(g: Graph, root: Vertex, order: seq<Vertex>, pred: map<Vertex, Option<Vertex>>)
    requires Greedy(g, root, order, pred) && pred.Keys == g.Keys && forall v :: v in g <==> v in order
    ensures Lists(g, root, order[1..]) && forall v :: v in g ==> (pred[v].None? <==> v == root)
  {
    var vs := order[1..];
    forall v | v in g && v != root ensures v in vs && pred[v].Some? {
      var i, j := EntryOf(g, root, order, pred, v);
      assert vs[i - 1] == v;
    }
    hide CheapestEntry;
    forall i | 0 <= i < |vs| ensures vs[i] in g && vs[i] != root {
      assert vs[i] == order[i + 1] && order[i + 1] in order;
    }
  }

  lemma {:induction false} GreedyIsSpanning(g: Graph, root: Vertex, order: seq<Vertex>,
                                            pred: map<Vertex, Option<Vertex>>)
    requires Greedy(g, root, order, pred) && pred.Keys == g.Keys && forall v :: v in g <==> v in order
    requires forall v :: v in g && v != root ==> pred[v].Some?
    ensures exists rank :: Spanning(g, root, Tree(g, root, pred), rank)
  {
    assert order[0] in order;
    hide CheapestEntry, Greedy, Position;
    var rank := map v | v in g :: Position(order, v);
    var tree := Tree(g, root, pred);
    forall v | v in tree ensures tree[v] in g && rank[tree[v]] < rank[v] && Edge(g, tree[v], v) {
      var i, j := EntryOf(g, root, order, pred, v);
    }
    assert tree.Keys == g.Keys - {root};
    assert Spanning(g, root, tree, rank);
  }

  /** No spanning tree is lighter than the greedy one. */
  lemma {:induction false} GreedyIsLightest(g: Graph, root: Vertex, order: seq<Vertex>,
                                            pred: map<Vertex, Option<Vertex>>, par: Parents, rank: map<Vertex, int>,
                                            vs: seq<Vertex>)
    requires Symmetric(g) && Greedy(g, root, order, pred) && pred.Keys == g.Keys && forall v :: v in g <==> v in order
    requires Lists(g, root, vs) && forall v :: v in g && v != root ==> pred[v].Some?
    requires Spanning(g, root, par, rank)
    ensures Weight(g, Tree(g, root, pred), vs) <= Weight(g, par, vs)
  {
    assert order[..1] == [root];
    var par', rank' := AgreeOnAll(g, root, order, pred, 1, par, rank, vs);
    hide Symmetric, Greedy, CheapestEntry;
    WeightSame(g, par', Tree(g, root, pred), vs);
  }

  /** A greedy order of all vertices gives a minimum spanning tree. */
  lemma {:induction false} GreedyIsMinimal(g: Graph, root: Vertex, order: seq<Vertex>,
                                           pred: map<Vertex, Option<Vertex>>)
    requires Symmetric(g) && Greedy(g, root, order, pred) && pred.Keys == g.Keys && forall v :: v in g <==> v in order
    ensures Minimal(g, root, pred, order[1..])
  {
    TreeDefined(g, root, order, pred);
    GreedyIsSpanning(g, root, order, pred);
    var vs := order[1..];
    hide Lists, Greedy, Symmetric;
    forall par, rank | Spanning(g, root, par, rank) ensures Weight(g, Tree(g, root, pred), vs) <= Weight(g, par, vs) {
      GreedyIsLightest(g, root, order, pred, par, rank, vs);
    }
  }

  // ---------------------------------------------------------------- the algorithm

  datatype Result = KeyError | Found(pred: map<Vertex, Option<Vertex>>)

  /** The dictionaries while the vertices of `done` have been popped. */
  ghost predicate Tables(g: Graph, root: Vertex, done: set<Vertex>, pqueue: map<Vertex, int>, key: map<Vertex, int>,
                         pred: map<Vertex, Option<Vertex>>)
  {
    && root in g && key.Keys == pred.Keys == g.Keys && pqueue.Keys == g.Keys - done && done <= g.Keys
    && (forall v :: v in pqueue ==> pqueue[v] == key[v])
    && pred[root].None? && (root !in done ==> done == {} && key[root] == 0)
    && (forall v :: v in g && v !in done && v != root ==>
          if pred[v].None? then key[v] == INFINITY
          else pred[v].value in done && Edge(g, pred[v].value, v) && key[v] == g[pred[v].value][v] < INFINITY)
  }

  /** The key of a vertex in the queue is at most the weight of any edge from a vertex of `from`. */
  ghost predicate KeysLow(g: Graph, from: set<Vertex>, done: set<Vertex>, key: map<Vertex, int>) {
    forall a, v :: a in from && v !in done && Edge(g, a, v) && v in key ==> key[v] <= g[a][v]
  }

  ghost predicate PoppedInOrder(g: Graph, root: Vertex, done: set<Vertex>, popped: seq<Vertex>,
                                pred: map<Vertex, Option<Vertex>>) {
    (forall v :: v in popped <==> v in done) && (popped == [] || Greedy(g, root, popped, pred))
  }

  lemma {:induction false} NextGreedy(g: Graph, root: Vertex, done: set<Vertex>, popped: seq<Vertex>,
                                      pqueue: map<Vertex, int>, key: map<Vertex, int>,
                                      pred: map<Vertex, Option<Vertex>>, u: Vertex)
    requires Closed(g) && Tables(g, root, done, pqueue, key, pred) && KeysLow(g, done, done, key)
    requires PoppedInOrder(g, root, done, popped, pred)
    requires u in pqueue && pqueue[u] < INFINITY && forall k :: k in pqueue ==> pqueue[u] <= pqueue[k]
    ensures PoppedInOrder(g, root, done + {u}, popped + [u], pred)
  {
    var order := popped + [u];
    assert u !in done;
    if popped == [] {
      assert done == {};
      assert u == root;
    } else {
      assert root in done by { assert popped[0] in popped; }
      forall i | 0 < i < |order| ensures CheapestEntry(g, order, i, pred) {
        if i < |popped| {
          assert CheapestEntry(g, popped, i, pred) && order[..i] == popped[..i];
        } else {
          assert order[..i] == popped;
          forall a, b | a in popped && b !in popped && Edge(g, a, b) ensures g[a][b] >= key[u] {
            assert b in pqueue.Keys;
          }
        }
      }
    }
  }

  lemma {:induction false} GreedyKept(g: Graph, root: Vertex, done: set<Vertex>, popped: seq<Vertex>,
                                      pred: map<Vertex, Option<Vertex>>, pred': map<Vertex, Option<Vertex>>)
    requires PoppedInOrder(g, root, done, popped, pred)
    requires forall v :: v in done ==> v in pred && v in pred' && pred'[v] == pred[v]
    ensures PoppedInOrder(g, root, done, popped, pred')
  {
    assert forall i :: 0 <= i < |popped| ==> popped[i] in done;
    if popped != [] {
      forall i | 0 < i < |popped| ensures CheapestEntry(g, popped, i, pred') {
        assert CheapestEntry(g, popped, i, pred);
      }
    }
  }

  /** Where several popped vertices could have given v its key, the first of them did: it is the predecessor, and every
      vertex popped before it has a heavier edge to v. */
  ghost predicate FirstCheapest(g: Graph, order: seq<Vertex>, v: Vertex, last: Option<Vertex>) {
    last.Some? ==>
      && last.value in order
      && forall i, j :: 0 <= i < j < |order| && order[j] == last.value ==>
           Edge(g, order[i], v) && Edge(g, order[j], v) ==> g[order[i]][v] > g[order[j]][v]
  }

  ghost predicate FirstOnes(g: Graph, order: seq<Vertex>, pred: map<Vertex, Option<Vertex>>) {
    forall v :: v in pred ==> FirstCheapest(g, order, v, pred[v])
  }

  lemma {:induction false} OneMorePopped(g: Graph, order: seq<Vertex>, u: Vertex, pred: map<Vertex, Option<Vertex>>)
    requires FirstOnes(g, order, pred) && u !in order
    ensures FirstOnes(g, order + [u], pred)
  {
    forall v | v in pred ensures FirstCheapest(g, order + [u], v, pred[v]) {
      assert FirstCheapest(g, order, v, pred[v]);
    }
  }

  /** Within the scan of the neighbours of u, which has just been popped. */
  ghost predicate Scanning(g: Graph, root: Vertex, done: set<Vertex>, u: Vertex, todo: set<Vertex>,
                           pqueue: map<Vertex, int>, key: map<Vertex, int>, pred: map<Vertex, Option<Vertex>>)
  {
    && u in g && u !in done && Tables(g, root, done + {u}, pqueue, key, pred)
    && KeysLow(g, done, done + {u}, key)
    && forall v :: v in g[u] && v !in todo && v in pqueue && v in key ==> key[v] <= g[u][v]
  }

  lemma {:induction false} CheaperIsFirst(g: Graph, root: Vertex, done: set<Vertex>, order: seq<Vertex>, u: Vertex,
                                          todo: set<Vertex>, v: Vertex, pqueue: map<Vertex, int>,
                                          key: map<Vertex, int>, pred: map<Vertex, Option<Vertex>>)
    requires Scanning(g, root, done, u, todo, pqueue, key, pred) && (forall a :: a in order <==> a in done)
    requires v in g[u] && v in pqueue && v in key && g[u][v] < key[v] && FirstOnes(g, order + [u], pred)
    ensures FirstOnes(g, order + [u], pred[v := Some(u)])
  {
    assert v in pqueue.Keys && (order + [u])[|order|] == u;
    forall i, j | 0 <= i < j < |order + [u]| && (order + [u])[j] == u && Edge(g, (order + [u])[i], v)
      ensures g[(order + [u])[i]][v] > g[u][v]
    {
      assert (order + [u])[i] in done;
    }
    assert FirstCheapest(g, order + [u], v, Some(u));
  }

  /** The graph falls in two: s with the root, and the rest, with no edge below 1000 from s to the rest. */
  ghost predicate CutOff(g: Graph, root: Vertex, s: set<Vertex>) {
    root in s && s < g.Keys && forall a, b :: a in s && b !in s && Edge(g, a, b) ==> g[a][b] >= INFINITY
  }

  lemma {:induction false} Outside(s: set<Vertex>, t: set<Vertex>)
    requires s < t
    ensures exists v :: v in t && v !in s
  {
    if forall v :: v in t ==> v in s {
      assert false;
    }
  }

  /** A greedy order of all vertices crosses every cut. */
  lemma {:induction false} NoCut(g: Graph, root: Vertex, order: seq<Vertex>, pred: map<Vertex, Option<Vertex>>,
                                 s: set<Vertex>)
    requires Greedy(g, root, order, pred) && forall v :: v in g <==> v in order
    ensures !CutOff(g, root, s)
  {
    if root in s && s < g.Keys {
      Outside(s, g.Keys);
      var v :| v in g.Keys && v !in s;
      var last, k := Position(order, v), 0;
      while order[k] in s
        invariant 0 <= k <= last && forall j :: 0 <= j < k ==> order[j] in s
        decreases last - k
      {
        k := k + 1;
      }
      assert CheapestEntry(g, order, k, pred);
    }
  }

  // ---------------------------------------------------------------- one turn of the loop

  lemma {:induction false} StartScan(g: Graph, root: Vertex, done: set<Vertex>, pqueue: map<Vertex, int>,
                                     key: map<Vertex, int>, pred: map<Vertex, Option<Vertex>>, u: Vertex)
    requires Tables(g, root, done, pqueue, key, pred) && KeysLow(g, done, done, key)
    requires u in pqueue && pqueue[u] < INFINITY && forall k :: k in pqueue ==> pqueue[u] <= pqueue[k]
    ensures Scanning(g, root, done, u, g[u].Keys, pqueue - {u}, key, pred)
  {
    assert u in pqueue.Keys;
    assert g.Keys - (done + {u}) == (g.Keys - done) - {u};
    var k := key[u];
    assert u == root || done != {} || k == INFINITY;
  }

  lemma {:induction false} Cheaper(g: Graph, root: Vertex, done: set<Vertex>, u: Vertex, todo: set<Vertex>, v: Vertex,
                                   pqueue: map<Vertex, int>, key: map<Vertex, int>, pred: map<Vertex, Option<Vertex>>)
    requires Scanning(g, root, done, u, todo, pqueue, key, pred)
    requires v in g[u] && v in pqueue && v in key && g[u][v] < key[v]
    ensures var w := g[u][v];
      v !in done + {u} && Scanning(g, root, done, u, todo - {v}, pqueue[v := w], key[v := w], pred[v := Some(u)])
  {
    assert v in pqueue.Keys;
    assert pqueue[v := g[u][v]].Keys == pqueue.Keys;
    assert key[v := g[u][v]].Keys == key.Keys && pred[v := Some(u)].Keys == pred.Keys;
  }

  lemma {:induction false} EndScan(g: Graph, root: Vertex, done: set<Vertex>, u: Vertex, pqueue: map<Vertex, int>,
                                   key: map<Vertex, int>, pred: map<Vertex, Option<Vertex>>)
    requires Scanning(g, root, done, u, {}, pqueue, key, pred)
    ensures Tables(g, root, done + {u}, pqueue, key, pred) && KeysLow(g, done + {u}, done + {u}, key)
  {
    forall a, v | a in done + {u} && v !in done + {u} && Edge(g, a, v) && v in key ensures key[v] <= g[a][v] {
      assert v in pqueue.Keys;
    }
  }

  ghost predicate PredKept(kept: set<Vertex>, pred: map<Vertex, Option<Vertex>>, pred': map<Vertex, Option<Vertex>>) {
    forall v :: v in kept && v in pred ==> v in pred' && pred'[v] == pred[v]
  }

  lemma {:induction false} InTables(g: Graph, root: Vertex, done: set<Vertex>, u: Vertex, todo: set<Vertex>,
                                    pqueue: map<Vertex, int>, key: map<Vertex, int>,
                                    pred: map<Vertex, Option<Vertex>>)
    requires Scanning(g, root, done, u, todo, pqueue, key, pred)
    ensures u in g && u !in done && key.Keys == pred.Keys == g.Keys && pqueue.Keys <= g.Keys && done <= g.Keys
  {
  }

  /** The neighbours of u, in any order. */
  method Scan(g: Graph, root: Vertex, ghost done: set<Vertex>, ghost popped: seq<Vertex>, u: Vertex,
              pqueue: map<Vertex, int>, key: map<Vertex, int>, pred: map<Vertex, Option<Vertex>>)
    returns (pqueue': map<Vertex, int>, key': map<Vertex, int>, pred': map<Vertex, Option<Vertex>>)
    requires u in g && Scanning(g, root, done, u, g[u].Keys, pqueue, key, pred)
    requires (forall a :: a in popped <==> a in done) && FirstOnes(g, popped + [u], pred)
    ensures Scanning(g, root, done, u, {}, pqueue', key', pred')
    ensures PredKept(done + {u}, pred, pred') && FirstOnes(g, popped + [u], pred')
  {
    hide Tables, KeysLow, FirstOnes;
    pqueue', key', pred' := pqueue, key, pred;
    var todo: set<Vertex> := g[u].Keys;
    while todo != {}
      invariant todo <= g[u].Keys
      invariant Scanning(g, root, done, u, todo, pqueue', key', pred')
      invariant PredKept(done + {u}, pred, pred') && FirstOnes(g, popped + [u], pred')
      decreases todo
    {
      Inhabited(todo);
      var v :| v in todo;
      InTables(g, root, done, u, todo, pqueue', key', pred');
      if v in pqueue' && g[u][v] < key'[v] {
        Cheaper(g, root, done, u, todo, v, pqueue', key', pred');
        CheaperIsFirst(g, root, done, popped, u, todo, v, pqueue', key', pred');
        pqueue', key', pred' := pqueue'[v := g[u][v]], key'[v := g[u][v]], pred'[v := Some(u)];
      }
      todo := todo - {v};
    }
  }

  /** The dictionaries before the first pop. */
  method Initial(g: Graph, root: Vertex)
    returns (pqueue: map<Vertex, int>, key: map<Vertex, int>, pred: map<Vertex, Option<Vertex>>)
    requires root in g
    ensures Tables(g, root, {}, pqueue, key, pred) && forall v :: v in pred ==> pred[v].None?
  {
    key, pred := map[], map[];
    var todo: set<Vertex> := g.Keys;
    while todo != {}
      invariant todo <= g.Keys && key.Keys == pred.Keys == g.Keys - todo
      invariant forall v :: v in key ==> key[v] == 1000 && pred[v] == None
      decreases todo
    {
      Inhabited(todo);
      var v :| v in todo;
      pred, key := pred[v := None], key[v := 1000];
      todo := todo - {v};
    }
    key := key[root := 0];
    pqueue := map[];
    todo := g.Keys;
    while todo != {}
      invariant todo <= g.Keys && pqueue.Keys == g.Keys - todo
      invariant forall v :: v in pqueue ==> pqueue[v] == key[v]
      decreases todo
    {
      Inhabited(todo);
      var v :| v in todo;
      pqueue := pqueue[v := key[v]];
      todo := todo - {v};
    }
  }

  /** popmin fails: what has been popped is cut off from the rest. */
  lemma {:induction false} Unreached(g: Graph, root: Vertex, done: set<Vertex>, pqueue: map<Vertex, int>,
                                     key: map<Vertex, int>, pred: map<Vertex, Option<Vertex>>)
    requires Closed(g) && Tables(g, root, done, pqueue, key, pred) && KeysLow(g, done, done, key)
    requires pqueue != map[] && forall k :: k in pqueue ==> pqueue[k] >= INFINITY
    ensures CutOff(g, root, done)
  {
    assert root in done || root in pqueue.Keys;
    Inhabited(pqueue.Keys);
    var x :| x in pqueue.Keys;
    assert x in g && x !in done;
    forall a, b | a in done && b !in done && Edge(g, a, b) ensures g[a][b] >= INFINITY {
      assert b in pqueue.Keys;
    }
  }

  lemma {:induction false} Finished(g: Graph, root: Vertex, done: set<Vertex>, popped: seq<Vertex>,
                                    pqueue: map<Vertex, int>, key: map<Vertex, int>,
                                    pred: map<Vertex, Option<Vertex>>)
    requires Tables(g, root, done, pqueue, key, pred) && PoppedInOrder(g, root, done, popped, pred) && pqueue == map[]
    ensures pred.Keys == g.Keys && Greedy(g, root, popped, pred) && forall v :: v in g <==> v in popped
  {
    assert pqueue.Keys == {};
    forall v ensures v in g <==> v in done {
      assert v !in pqueue.Keys;
    }
  }

  lemma {:induction false} PoppedAre(g: Graph, root: Vertex, done: set<Vertex>, popped: seq<Vertex>,
                                     pred: map<Vertex, Option<Vertex>>)
    requires PoppedInOrder(g, root, done, popped, pred)
    ensures forall v :: v in popped <==> v in done
  {
  }

  lemma {:induction false} NothingPopped(g: Graph, root: Vertex, key: map<Vertex, int>,
                                         pred: map<Vertex, Option<Vertex>>)
    requires forall v :: v in pred ==> pred[v].None?
    ensures KeysLow(g, {}, {}, key) && PoppedInOrder(g, root, {}, [], pred) && FirstOnes(g, [], pred)
  {
  }

  /**
    KeyError exactly when some part of the graph is cut off from the root; otherwise every vertex is popped once,
    and on a graph with undirected edges the predecessors are a minimum spanning tree.
  */
  method Prim(g: Graph, root: Vertex) returns (r: Result, ghost popped: seq<Vertex>)
    requires Closed(g) && root in g
    ensures r.KeyError? <==> exists s :: CutOff(g, root, s)
    ensures r.Found? ==> Greedy(g, root, popped, r.pred) && forall v :: v in g <==> v in popped
    ensures r.Found? ==> FirstOnes(g, popped, r.pred)
    ensures r.Found? && Symmetric(g) ==> Minimal(g, root, r.pred, popped[1..])
  {
    hide Closed, Symmetric, Tables, KeysLow, PoppedInOrder, CutOff, Minimal, FirstOnes;
    var pqueue, key, pred := Initial(g, root);
    ghost var done: set<Vertex> := {};
    popped := [];
    NothingPopped(g, root, key, pred);
    while pqueue != map[]
      invariant Tables(g, root, done, pqueue, key, pred) && KeysLow(g, done, done, key)
      invariant PoppedInOrder(g, root, done, popped, pred) && FirstOnes(g, popped, pred)
      decreases g.Keys - done
    {
      var found, rest := PopMin(pqueue);
      if found.None? {
        Unreached(g, root, done, pqueue, key, pred);
        return KeyError, popped;
      }
      var u := found.value;
      NextGreedy(g, root, done, popped, pqueue, key, pred, u);
      StartScan(g, root, done, pqueue, key, pred, u);
      InTables(g, root, done, u, g[u].Keys, rest, key, pred);
      ghost var pred0 := pred;
      PoppedAre(g, root, done, popped, pred);
      OneMorePopped(g, popped, u, pred);
      pqueue, key, pred := Scan(g, root, done, popped, u, rest, key, pred);
      InTables(g, root, done, u, {}, pqueue, key, pred);
      EndScan(g, root, done, u, pqueue, key, pred);
      popped, done := popped + [u], done + {u};
      GreedyKept(g, root, done, popped, pred0, pred);
    }
    Finished(g, root, done, popped, pqueue, key, pred);
    forall s ensures !CutOff(g, root, s) {
      NoCut(g, root, popped, pred, s);
    }
    if Symmetric(g) {
      GreedyIsMinimal(g, root, popped, pred);
    }
    return Found(pred), popped;
  }
}
